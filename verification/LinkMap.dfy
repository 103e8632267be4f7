/** The cluster link map of fast seek: building it from a chain and looking offsets up in it. */
module LinkMap {
  import opened Bytes
  import opened FatTable
  import opened FatVolume
  import LazyChain
  import Exfat
  import ChainSpec
  import FileSpace

  /** The clusters `top`, `top` + 1, ... of one fragment. */
  predicate IsRun(run: seq<nat>, top: nat) {
    forall j | 0 <= j < |run| :: run[j] == top + j
  }

  /** `items` is length, top, length, top, ... of consecutive stretches that make up `ch`. */
  predicate Encodes(items: seq<nat>, ch: seq<nat>) {
    if |items| < 2 then items == [] && ch == []
    else 0 < items[0] <= |ch| && IsRun(ch[..items[0]], items[1]) && Encodes(items[2..], ch[items[0]..])
  }

  /** Maximal stretches of consecutive clusters. */
  function Fragments(ch: seq<nat>): nat {
    if |ch| < 2 then |ch|
    else Fragments(ch[..|ch| - 1]) + if ch[|ch| - 1] == ch[|ch| - 2] + 1 then 0 else 1
  }

  lemma {:induction false} EncodesMore(items: seq<nat>, ch: seq<nat>, run: seq<nat>, top: nat)
    requires Encodes(items, ch) && run != [] && IsRun(run, top)
    ensures Encodes(items + [|run|, top], ch + run)
  {
    if items == [] {
      var all := items + [|run|, top];
      assert all[2..] == [] && (ch + run)[..|run|] == run && (ch + run)[|run|..] == [];
    } else {
      var n := items[0];
      EncodesMore(items[2..], ch[n..], run, top);
      assert (items + [|run|, top])[2..] == items[2..] + [|run|, top];
      assert (ch + run)[n..] == ch[n..] + run && (ch + run)[..n] == ch[..n];
    }
  }

  /** A run adds one fragment, or none after its first cluster's predecessor. */
  lemma {:induction false} FragmentsRun(ch: seq<nat>, i: nat, n: nat)
    requires 0 < n && i + n <= |ch| && IsRun(ch[i..i + n], ch[i]) && (i > 0 ==> ch[i] != ch[i - 1] + 1)
    ensures Fragments(ch[..i + n]) == Fragments(ch[..i]) + 1
  {
    assert ch[..i + n][..i + n - 1] == ch[..i + n - 1];
    if n > 1 {
      assert ch[i..i + n][n - 2] == ch[i] + n - 2 && ch[i..i + n][n - 1] == ch[i] + n - 1;
      assert ch[i..i + n - 1] == ch[i..i + n][..n - 1];
      FragmentsRun(ch, i, n - 1);
    }
  }

  // ---------- clmt_clust ----------

  /** The walk over the items for cluster order `cl`. */
  function Look(items: seq<nat>, cl: nat): nat {
    if |items| < 2 || items[0] == 0 then 0
    else if cl < items[0] then cl + items[1]
    else Look(items[2..], cl - items[0])
  }

  lemma {:induction false} LookRight(items: seq<nat>, ch: seq<nat>, cl: nat)
    requires Encodes(items, ch)
    ensures Look(items, cl) == if cl < |ch| then ch[cl] else 0
  {
    if items != [] {
      if cl < items[0] {
        assert ch[..items[0]][cl] == items[1] + cl;
      } else {
        LookRight(items[2..], ch[items[0]..], cl - items[0]);
      }
    }
  }

  /** A filled table: item count, fragments, terminator. */
  predicate Built(tbl: seq<nat>, ch: seq<nat>) {
    && |tbl| >= 2 && tbl[0] == 2 + 2 * Fragments(ch) <= |tbl|
    && Encodes(tbl[1..tbl[0] - 1], ch) && tbl[tbl[0] - 1] == 0
  }

  /** The loop of clmt_clust. */
  method WalkItems(tbl: array<nat>, order: nat, ghost end: nat) returns (clst: nat)
    requires 1 <= end < tbl.Length && (end - 1) % 2 == 0 && tbl[end] == 0
    ensures clst == Look(tbl[1..end], order)
  {
    hide Look;
    var cl, at: nat := order, 1;
    while tbl[at] != 0 && cl >= tbl[at]
      invariant 1 <= at <= end && (end - at) % 2 == 0
      invariant Look(tbl[..][at..end], cl) == Look(tbl[..][1..end], order)
      decreases end - at
    {
      LookStep(tbl[..], at, end, cl);
      cl := cl - tbl[at];
      at := at + 2;
    }
    LookStop(tbl[..], at, end, cl);
    clst := if tbl[at] == 0 then 0 else cl + tbl[at + 1];
    assert tbl[..][1..end] == tbl[1..end];
  }

  /** clmt_clust: with a built table, the cluster that holds offset `ofs`; 0 past the chain. */
  method ClmtClust(tbl: array<nat>, csize: nat, ofs: nat, ghost ch: seq<nat>) returns (clst: nat)
    requires csize > 0 && Built(tbl[..], ch)
    ensures var order: int := ofs / 512 / csize; clst == if order < |ch| then ch[order] else 0
  {
    hide Encodes, Look;
    var order: int := ofs / 512 / csize;
    LookRight(tbl[..][1..tbl[0] - 1], ch, order);
    assert tbl[..][1..tbl[0] - 1] == tbl[1..tbl[0] - 1];
    clst := WalkItems(tbl, order, tbl[0] - 1);
  }

  lemma LookStep(tbl: seq<nat>, at: nat, end: nat, cl: nat)
    requires at <= end < |tbl| && (end - at) % 2 == 0 && tbl[end] == 0 && tbl[at] != 0 && cl >= tbl[at]
    ensures at + 2 <= end && Look(tbl[at..end], cl) == Look(tbl[at + 2..end], cl - tbl[at])
  {
    assert tbl[at..end][2..] == tbl[at + 2..end];
  }

  lemma LookStop(tbl: seq<nat>, at: nat, end: nat, cl: nat)
    requires at <= end < |tbl| && (end - at) % 2 == 0 && tbl[end] == 0 && (tbl[at] == 0 || cl < tbl[at])
    ensures tbl[at] == 0 ==> Look(tbl[at..end], cl) == 0
    ensures tbl[at] != 0 ==> at + 2 <= end && Look(tbl[at..end], cl) == cl + tbl[at + 1]
  {
  }

  // ---------- get_fat on an object's list ----------

  /**
   * What get_fat shows for cluster `c` of an object with list `ch`: a table entry, or on exFAT what the object's fields
   * imply.
   */
  ghost function Succ(kind: Kind, fat: seq<nat>, o: LazyChain.Lazy, ch: seq<nat>, c: nat): nat
    requires c < |fat| && ch != []
  {
    if kind.EXFAT? then LazyChain.NextOf(o, fat, |ch| - 1, c) else fat[c]
  }

  /** Following get_fat from the first cluster walks along `ch` and ends behind it. */
  ghost predicate Walks(kind: Kind, fat: seq<nat>, o: LazyChain.Lazy, ch: seq<nat>) {
    && ch != [] && (forall i | 0 <= i < |ch| :: 2 <= ch[i] < |fat|)
    && (forall i | 0 <= i < |ch| - 1 :: Succ(kind, fat, o, ch, ch[i]) == ch[i + 1])
    && Succ(kind, fat, o, ch, ch[|ch| - 1]) >= |fat|
  }

  /** `ch` is the object's list; on exFAT nothing of it is pending and its size needs every cluster. */
  ghost predicate Listed(fs: Volume, obj: Exfat.ObjectId, ch: seq<nat>)
    reads fs`disk, fs`winsect, fs`wflag, fs`mirror, fs.win, obj
  {
    if fs.g.kind.EXFAT? then
      && Exfat.Mounted(fs) && LazyChain.Rep(obj.Fields(), fs.Fat(), ch) && obj.nFrag == 0
      && obj.objsize > 0 && fs.g.csize > 0 && Exfat.Clen(obj.objsize, fs.g.csize) == |ch| - 1
      && Exfat.Sized(obj.objsize, fs.g.csize)
    else fs.Valid() && ChainSpec.Chain(fs.Fat(), ch)
  }

  lemma RepWalks(o: LazyChain.Lazy, fat: seq<nat>, ch: seq<nat>)
    requires LazyChain.Rep(o, fat, ch) && o.nFrag == 0 && |fat| <= LazyChain.EOC
    ensures Walks(EXFAT, fat, o, ch)
  {
    hide LazyChain.Rep, LazyChain.NextOf;
    LazyChain.RepBounds(o, fat, ch);
    Exfat.FollowsList(o, fat, ch, |ch| - 1);
    forall i | 0 <= i < |ch| - 1
      ensures Succ(EXFAT, fat, o, ch, ch[i]) == ch[i + 1]
    {
      Exfat.FollowsList(o, fat, ch, i);
    }
  }

  lemma ListedWalks(fs: Volume, obj: Exfat.ObjectId, ch: seq<nat>)
    requires Listed(fs, obj, ch)
    ensures fs.Valid() && Walks(fs.g.kind, fs.Fat(), obj.Fields(), ch)
  {
    hide LazyChain.Rep, LazyChain.NextOf;
    if fs.g.kind.EXFAT? { RepWalks(obj.Fields(), fs.Fat(), ch); }
  }

  /** get_fat for the object, at any cluster number. */
  method NextOfObject(fs: Volume, obj: Exfat.ObjectId, cl: u32, ghost ch: seq<nat>) returns (nxt: u32)
    requires Listed(fs, obj, ch)
    modifies fs`disk, fs`wflag, fs`mirror, fs`winsect, fs.win
    ensures Listed(fs, obj, ch) && SameButMirror(fs.g, old(fs.View()), fs.View()) && fs.Fat() == old(fs.Fat()) &&
            ch != []
    ensures 2 <= cl < |fs.Fat()| ==>
            nxt == Succ(fs.g.kind, fs.Fat(), obj.Fields(), ch, cl) || (!fs.reliable && nxt == DISK_FAULT)
    ensures !(2 <= cl < |fs.Fat()|) ==> nxt == 1
    ensures nxt < 0x8000_0000 || (!fs.reliable && nxt == DISK_FAULT)
    ensures FileSpace.Settled(fs.g, old(fs.winsect), fs.winsect)
  {
    hide LazyChain.Rep, ChainSpec.Chain, FatVolume.Mirrored, Walks;
    ListedWalks(fs, obj, ch);
    WalksAt(fs.g.kind, fs.Fat(), obj.Fields(), ch, 0);
    StartPositive(fs, obj, ch);
    if fs.g.kind.EXFAT? {
      nxt := Exfat.GetFat(fs, obj, cl);
    } else {
      nxt := fs.GetFat(cl);
    }
  }

  lemma StartPositive(fs: Volume, obj: Exfat.ObjectId, ch: seq<nat>)
    requires Listed(fs, obj, ch)
    ensures fs.g.kind.EXFAT? ==> obj.sclust != 0
  {
  }

  lemma WalksAt(kind: Kind, fat: seq<nat>, o: LazyChain.Lazy, ch: seq<nat>, i: nat)
    requires Walks(kind, fat, o, ch)
    ensures ch != []
    ensures i < |ch| ==>
            2 <= ch[i] < |fat| && (if i + 1 < |ch| then Succ(kind, fat, o, ch, ch[i]) == ch[i + 1]
            else Succ(kind, fat, o, ch, ch[i]) >= |fat|)
    ensures i + 1 < |ch| ==> 2 <= ch[i + 1] < |fat|
  {
  }

  // ---------- CREATE_LINKMAP ----------

  datatype Mapped = Done | TooSmall | IntErr | DiskErr

  /** The end of the list reads as the cluster right behind it, so the run never seems to end. */
  ghost predicate EndLooksNext(kind: Kind, fat: seq<nat>, o: LazyChain.Lazy, ch: seq<nat>)
    requires ch != [] && ch[|ch| - 1] < |fat|
  {
    Succ(kind, fat, o, ch, ch[|ch| - 1]) == ch[|ch| - 1] + 1
  }

  ghost predicate Misleads(fs: Volume, obj: Exfat.ObjectId, ch: seq<nat>)
    requires Listed(fs, obj, ch)
    reads fs`disk, fs`winsect, fs`wflag, fs`mirror, fs.win, obj
  {
    ListedWalks(fs, obj, ch);
    EndLooksNext(fs.g.kind, fs.Fat(), obj.Fields(), ch)
  }

  /**
   * When an exFAT object misleads: one whose list is on the FAT, by the mark stored there; a contiguous one, whose end
   * mark get_fat generates, only if its last cluster is the highest number a volume can have.
   */
  lemma EndLooksNextIff(o: LazyChain.Lazy, fat: seq<nat>, ch: seq<nat>)
    requires LazyChain.Rep(o, fat, ch) && |fat| <= LazyChain.EOC && o.nFrag == 0
    ensures ch[|ch| - 1] < |fat|
    ensures EndLooksNext(EXFAT, fat, o, ch) <==>
            (if o.stat == 2 then LazyChain.EOC else fat[ch[|ch| - 1]]) == ch[|ch| - 1] + 1
  {
    var last := |ch| - 1;
    LazyChain.Offset(ch[last], o.sclust);
    if o.stat == 2 { assert ch[last] == ch[0] + last; }
    if o.stat == 3 {
      LazyChain.RunMembers(ch, 0, o.nCont, last);
      assert ch[o.nCont] == ch[0] + o.nCont;
    }
  }

  /** A one-cluster object whose end mark is the number after its cluster. */
  lemma MisleadingWitness()
    ensures var o, fat, ch := LazyChain.Lazy(0, 2, 0, 0), [0, 0, 3], [2];
            && ChainSpec.Chain(fat, ch) && EndLooksNext(FAT12, fat, o, ch)
            && LazyChain.Rep(o, fat, ch) && Exfat.MisleadingEnd(o, fat, ch) && EndLooksNext(EXFAT, fat, o, ch)
  {
  }

  /** One fragment from element `i`: its length and the entry that ended it. */
  method Fragment(fs: Volume, obj: Exfat.ObjectId, first: u32, ghost ch: seq<nat>, ghost i: nat)
      returns (res: Mapped, n: nat, cl: u32)
    requires Listed(fs, obj, ch) && i < |ch| && first == ch[i]
    modifies fs`disk, fs`wflag, fs`mirror, fs`winsect, fs.win
    ensures Listed(fs, obj, ch) && SameButMirror(fs.g, old(fs.View()), fs.View()) && fs.Fat() == old(fs.Fat())
    ensures res == Done || res == IntErr || (res == DiskErr && !fs.reliable)
    ensures res == Done ==> 0 < n && i + n <= |ch| && IsRun(ch[i..i + n], first) && ch[i + n - 1] < |fs.Fat()|
    ensures res == Done ==> cl == Succ(fs.g.kind, fs.Fat(), obj.Fields(), ch, ch[i + n - 1]) != ch[i + n - 1] + 1
    ensures res == IntErr ==> Misleads(fs, obj, ch)
    ensures FileSpace.Settled(fs.g, old(fs.winsect), fs.winsect)
  {
    hide FatVolume.Volume.View, FatVolume.Volume.Fat, FatVolume.Volume.Valid, Listed, Walks, Succ, SameButMirror, IsRun;
    ListedWalks(fs, obj, ch);
    ghost var kind, fat, o, v := fs.g.kind, fs.Fat(), obj.Fields(), fs.View();
    WalksAt(kind, fat, o, ch, i);
    SameMirror(fs.g, v);
    NoRun(ch, i, first);
    FatSmall(fs);
    res, n, cl := Done, 0, first;
    var pcl := first;
    var more := true;
    while more
      invariant FileSpace.Settled(fs.g, old(fs.winsect), fs.winsect)
      invariant Listed(fs, obj, ch) && fs.Valid() && SameButMirror(fs.g, v, fs.View()) && fs.Fat() == fat &&
                Walks(kind, fat, o, ch) && ch != []
      invariant more ==>
                res == Done && i + n <= |ch| && IsRun(ch[i..i + n], first) && cl == first + n && cl < 0x8000_0000
      invariant more && i + n < |ch| ==> cl == ch[i + n]
      invariant more && i + n == |ch| ==> n > 0 && ch[|ch| - 1] < |fat| && EndLooksNext(kind, fat, o, ch) && cl >= |fat|
      invariant res == IntErr ==> ch[|ch| - 1] < |fat| && EndLooksNext(kind, fat, o, ch)
      invariant res == Done || res == IntErr || (res == DiskErr && !fs.reliable)
      invariant !more && res == Done ==>
                0 < n && i + n <= |ch| && IsRun(ch[i..i + n], first) && ch[i + n - 1] < |fat| &&
                cl == Succ(kind, fat, o, ch, ch[i + n - 1]) != ch[i + n - 1] + 1
      decreases more, |ch| - i - n
    {
      if i + n < |ch| { WalksAt(kind, fat, o, ch, i + n); RunGrows(ch, i, n, first); }
      pcl := cl;
      n := n + 1;
      ghost var w := fs.View();
      cl := NextOfObject(fs, obj, cl, ch);
      ListedWalks(fs, obj, ch);
      SameMirrorTrans(fs.g, v, w, fs.View());
      if cl <= 1 {
        res := IntErr;
      } else if cl == DISK_FAULT {
        res := DiskErr;
      }
      more := res == Done && cl == pcl + 1;
    }
  }

  lemma SameMirror(g: Geometry, v: seq<Sector>)
    ensures SameButMirror(g, v, v)
  {
  }

  lemma SameMirrorTrans(g: Geometry, u: seq<Sector>, v: seq<Sector>, w: seq<Sector>)
    requires SameButMirror(g, u, v) && SameButMirror(g, v, w)
    ensures SameButMirror(g, u, w)
  {
  }

  lemma NoRun(ch: seq<nat>, i: nat, first: nat)
    requires i <= |ch|
    ensures IsRun(ch[i..i], first)
  {
  }

  lemma FatSmall(fs: Volume)
    requires fs.Valid()
    ensures |fs.Fat()| < 0x8000_0000
  {
  }

  lemma RunGrows(ch: seq<nat>, i: nat, n: nat, first: nat)
    requires i + n < |ch| && IsRun(ch[i..i + n], first) && ch[i + n] == first + n
    ensures IsRun(ch[i..i + n + 1], first)
  {
    assert ch[i..i + n + 1] == ch[i..i + n] + [ch[i + n]];
  }

  /** Storing one fragment behind the `at - 1` items already there. */
  method StoreItems(tbl: array<nat>, at: nat, n: nat, top: nat, ghost ch: seq<nat>, ghost i: nat)
    requires 1 <= at && at + 2 < tbl.Length && 0 < n && i + n <= |ch| && IsRun(ch[i..i + n], top) &&
             Encodes(tbl[1..at], ch[..i])
    modifies tbl
    ensures Encodes(tbl[1..at + 2], ch[..i + n]) && tbl[0] == old(tbl[0])
  {
    hide Encodes, IsRun;
    ghost var items := tbl[1..at];
    EncodesMore(items, ch[..i], ch[i..i + n], top);
    tbl[at] := n;
    tbl[at + 1] := top;
    assert tbl[1..at + 2] == items + [n, top];
    assert ch[..i] + ch[i..i + n] == ch[..i + n];
  }

  /** The loop of CREATE_LINKMAP over the fragments of a chain; `ulen` is the number of items needed. */
  method MapFragments(fs: Volume, obj: Exfat.ObjectId, sclust: u32, tbl: array<nat>, tlen: nat, ghost ch: seq<nat>)
      returns (res: Mapped, ulen: nat, at: nat)
    requires Listed(fs, obj, ch) && ch != [] && sclust == ch[0] && tlen <= tbl.Length && 1 <= tbl.Length
    modifies fs`disk, fs`wflag, fs`mirror, fs`winsect, fs.win, tbl
    ensures Listed(fs, obj, ch) && SameButMirror(fs.g, old(fs.View()), fs.View()) && fs.Fat() == old(fs.Fat())
    ensures res == Done || res == IntErr || (res == DiskErr && !fs.reliable)
    ensures res == IntErr ==> Misleads(fs, obj, ch)
    ensures res == Done ==> !Misleads(fs, obj, ch) && ulen == 2 + 2 * Fragments(ch)
    ensures res == Done && ulen <= tlen ==> at == ulen - 1 && Encodes(tbl[1..at], ch)
    ensures FileSpace.Settled(fs.g, old(fs.winsect), fs.winsect)
  {
    hide FatVolume.Volume.View, FatVolume.Volume.Fat, Listed, Walks, Succ, SameButMirror, Encodes, IsRun, Fragments;
    ListedWalks(fs, obj, ch);
    ghost var kind, fat, o, v, i := fs.g.kind, fs.Fat(), obj.Fields(), fs.View(), 0;
    SameMirror(fs.g, v);
    EmptyMap(tbl[1..1]);
    assert ch[..0] == [];
    res, ulen, at := Done, 2, 1;
    var cl: u32, more := sclust, true;
    while more
      invariant FileSpace.Settled(fs.g, old(fs.winsect), fs.winsect)
      invariant Listed(fs, obj, ch) && fs.Valid() && SameButMirror(fs.g, v, fs.View()) && fs.Fat() == fat &&
                Walks(kind, fat, o, ch)
      invariant i <= |ch| && (more ==> res == Done && i < |ch| && cl == ch[i] && (i > 0 ==> cl != ch[i - 1] + 1))
      invariant res == Done || res == IntErr || (res == DiskErr && !fs.reliable)
      invariant res == IntErr ==> Misleads(fs, obj, ch)
      invariant !more && res == Done ==> i == |ch| && !Misleads(fs, obj, ch)
      invariant res == Done ==> ulen == 2 + 2 * Fragments(ch[..i])
      invariant res == Done && ulen <= tlen ==> at == ulen - 1 && Encodes(tbl[1..at], ch[..i])
      decreases more, |ch| - i
    {
      var tcl: u32, n := cl, 0;
      ulen := ulen + 2;
      ghost var w := fs.View();
      res, n, cl := Fragment(fs, obj, tcl, ch, i);
      ListedWalks(fs, obj, ch);
      SameMirrorTrans(fs.g, v, w, fs.View());
      if res == Done {
        FragmentsRun(ch, i, n);
        WalksAt(kind, fat, o, ch, i + n - 1);
        if ulen <= tlen {
          StoreItems(tbl, at, n, tcl, ch, i);
          at := at + 2;
        }
        i := i + n;
      }
      more := res == Done && cl < fs.g.nFatent;
    }
    assert ch[..|ch|] == ch;
  }

  lemma EmptyMap(items: seq<nat>)
    requires items == []
    ensures Encodes(items, []) && Fragments([]) == 0
  {
  }

  /**
   * CREATE_LINKMAP: on success the table is a run-length encoding of the list; the size needed is reported even when
   * the table is too small.
   */
  method CreateLinkMap(fs: Volume, obj: Exfat.ObjectId, sclust: u32, tbl: array<nat>, ghost ch: seq<nat>)
      returns (res: Mapped)
    requires fs.Valid() && 1 <= tbl.Length && tbl[0] <= tbl.Length
    requires if sclust == 0 then ch == [] else Listed(fs, obj, ch) && ch != [] && sclust == ch[0]
    modifies fs`disk, fs`wflag, fs`mirror, fs`winsect, fs.win, tbl
    ensures fs.Valid() && SameButMirror(fs.g, old(fs.View()), fs.View()) && fs.Fat() == old(fs.Fat()) &&
            (ch != [] ==> Listed(fs, obj, ch))
    ensures fs.reliable ==> res != DiskErr
    ensures fs.reliable ==> (res == IntErr <==> ch != [] && Misleads(fs, obj, ch))
    ensures res == Done || res == TooSmall ==>
            tbl[0] == 2 + 2 * Fragments(ch) && (res == Done <==> tbl[0] <= old(tbl[0]))
    ensures res == Done ==> Built(tbl[..], ch)
    ensures FileSpace.Settled(fs.g, old(fs.winsect), fs.winsect)
  {
    hide FatVolume.Volume.View, FatVolume.Volume.Fat, Listed, Misleads, SameButMirror, Encodes, Fragments;
    EmptyMap(tbl[1..1]);
    SameMirror(fs.g, fs.View());
    var tlen := tbl[0];
    var ulen, at: nat := 2, 1;
    res := Done;
    if sclust != 0 {
      res, ulen, at := MapFragments(fs, obj, sclust, tbl, tlen, ch);
      ListedWalks(fs, obj, ch);
    }
    if res == Done {
      tbl[0] := ulen;
      if ulen <= tlen {
        ghost var items := tbl[1..at];
        tbl[at] := 0;
        assert tbl[..][1..at] == items;
      } else {
        res := TooSmall;
      }
    }
  }
}
