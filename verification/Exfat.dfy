/** exFAT objects: get_fat, fill_first_frag, fill_last_frag, create_chain and remove_chain over bitmap and lazy FAT. */
module Exfat {
  import opened Bytes
  import opened FatTable
  import opened FatVolume
  import opened Bitmap
  import opened LazyChain
  import Arith
  import ChainSpec

  /** The allocation fields of FFOBJID. */
  class ObjectId {
    var stat: nat
    var sclust: u32
    var objsize: nat
    var nCont: u32
    var nFrag: u32

    constructor ()
      ensures Fields() == Lazy(0, 0, 0, 0) && objsize == 0
    {
      stat, sclust, objsize, nCont, nFrag := 0, 0, 0, 0, 0;
    }

    ghost function Fields(): Lazy
      reads `stat, `sclust, `nCont, `nFrag
    {
      Lazy(stat, sclust, nCont, nFrag)
    }
  }

  ghost predicate Mounted(fs: Volume)
    reads fs`disk, fs`winsect, fs`wflag, fs`mirror, fs.win
  {
    fs.Valid() && ExOk(fs.g)
  }

  /** Equal on every sector outside FAT and bitmap. */
  ghost predicate SameButMeta(g: Geometry, v: seq<Sector>, w: seq<Sector>) {
    && |v| == |w|
    && forall s | 0 <= s < |v| && !g.InFat(s) && !(g.bitbase <= s < g.bitbase + BitSectors(g.nFatent)) :: v[s] == w[s]
  }

  lemma SameMetaTrans(g: Geometry, u: seq<Sector>, v: seq<Sector>, w: seq<Sector>)
    requires SameButMeta(g, u, v) && SameButMeta(g, v, w)
    ensures SameButMeta(g, u, w)
  {
  }

  lemma ParkedSame(g: Geometry, w: nat)
    ensures Parked(g, w, w)
  {
  }

  /** A sector of FAT or bitmap. */
  predicate OnMeta(g: Geometry, s: nat) {
    g.InFat(s) || InBits(g, s)
  }

  lemma SameMeta(g: Geometry, v: seq<Sector>)
    ensures SameButMeta(g, v, v)
  {
  }

  /** Bitmap changes do not show in the FAT. */
  lemma BitsAvoidFat(g: Geometry, v: seq<Sector>, w: seq<Sector>)
    requires ExOk(g) && |v| == g.sectors && SameButBits(g, v, w)
    ensures FatOf(g, v) == FatOf(g, w) && SameButMeta(g, v, w)
  {
    FatOfSame(g, v, w);
  }

  /** FAT changes do not show in the bitmap. */
  lemma FatAvoidsBits(g: Geometry, v: seq<Sector>, w: seq<Sector>)
    requires ExOk(g) && |v| == g.sectors && SameButFats(g, v, w)
    ensures MarksOf(g, v) == MarksOf(g, w) && SameButMeta(g, v, w)
  {
    assert v[g.bitbase..g.bitbase + BitSectors(g.nFatent)] == w[g.bitbase..g.bitbase + BitSectors(g.nFatent)];
  }

  /** put_fat on a mounted exFAT volume. */
  method PutEntry(fs: Volume, c: u32, val: u32) returns (res: Fresult)
    requires Mounted(fs) && 2 <= c < fs.g.nFatent && (val < 0x8000_0000 || val == 0xFFFF_FFFF)
    modifies fs`disk, fs`wflag, fs`mirror, fs`winsect, fs.win
    ensures Mounted(fs) && SameButMeta(fs.g, old(fs.View()), fs.View()) && MarksNow(fs) == old(MarksNow(fs))
    ensures res == OK ==> fs.Fat() == old(fs.Fat())[c := if val == 0xFFFF_FFFF then EOC else val]
    ensures res == OK || (res == DISK_ERR && !fs.reliable)
    ensures Parked(fs.g, old(fs.winsect), fs.winsect) && (res == OK ==> fs.g.InFat(fs.winsect))
  {
    assert Mask(EXFAT, val) == if val == 0xFFFF_FFFF then EOC else val;
    hide FatVolume.Volume.View, Mask, MarksOf;
    ghost var v := fs.View();
    res := fs.PutFat(c, val);
    FatAvoidsBits(fs.g, v, fs.View());
  }

  method FillLastFrag(fs: Volume, obj: ObjectId, lcl: u32, term: u32) returns (res: Fresult)
    requires Mounted(fs) && obj.nFrag < lcl < fs.g.nFatent && (term < 0x8000_0000 || term == 0xFFFF_FFFF)
    modifies fs`disk, fs`wflag, fs`mirror, fs`winsect, fs.win, obj`nFrag
    ensures Mounted(fs) && SameButMeta(fs.g, old(fs.View()), fs.View()) && MarksNow(fs) == old(MarksNow(fs))
    ensures res == OK ==>
            fs.Fat() == FillLast(old(fs.Fat()), lcl, old(obj.nFrag), if term == 0xFFFF_FFFF then EOC else term)
    ensures res == OK ==> obj.nFrag == 0
    ensures res == OK || (res == DISK_ERR && !fs.reliable)
    ensures Parked(fs.g, old(fs.winsect), fs.winsect)
    ensures res == OK ==> fs.winsect == old(fs.winsect) || fs.g.InFat(fs.winsect)
  {
    hide FatVolume.Volume.View, FatVolume.Volume.Fat, FatVolume.Volume.Valid, MarksNow;
    ghost var goal := FillLast(fs.Fat(), lcl, obj.nFrag, if term == 0xFFFF_FFFF then EOC else term);
    res := OK;
    while res == OK && obj.nFrag > 0
      invariant Mounted(fs) && SameButMeta(fs.g, old(fs.View()), fs.View()) && MarksNow(fs) == old(MarksNow(fs))
      invariant obj.nFrag < lcl && Parked(fs.g, old(fs.winsect), fs.winsect)
      invariant res == OK ==> fs.winsect == old(fs.winsect) || fs.g.InFat(fs.winsect)
      invariant res == OK ==> FillLast(fs.Fat(), lcl, obj.nFrag, if term == 0xFFFF_FFFF then EOC else term) == goal
      invariant res == OK || (res == DISK_ERR && !fs.reliable)
      decreases res == OK, obj.nFrag
    {
      res := PutEntry(fs, lcl - obj.nFrag + 1, if obj.nFrag > 1 then lcl - obj.nFrag + 2 else term);
      if res == OK { obj.nFrag := obj.nFrag - 1; }
    }
  }

  lemma RepStat(o: Lazy, fat: seq<nat>, ch: seq<nat>)
    requires Rep(o, fat, ch)
    ensures o.stat == 2 ==> o.nFrag == 0
  {
  }

  lemma Numbers(g: Geometry)
    requires ExOk(g)
    ensures 3 <= g.nFatent < 0x8000_0000
  {
  }

  lemma FillFirstStep(fat: seq<nat>, c: nat, k: nat)
    requires k > 0 && c + k <= |fat|
    ensures FillFirst(fat, c, k) == FillFirst(fat[c := c + 1], c + 1, k - 1)
  {
  }

  lemma FillFirstNone(fat: seq<nat>, c: nat)
    requires c <= |fat|
    ensures FillFirst(fat, c, 0) == fat
  {
  }

  /** The loop of fill_first_frag: links `n` clusters from `cl` on to their successors by number. */
  method LinkByNumber(fs: Volume, first: nat, count: nat) returns (res: Fresult)
    requires Mounted(fs) && 2 <= first && first + count < fs.g.nFatent
    modifies fs`disk, fs`wflag, fs`mirror, fs`winsect, fs.win
    ensures Mounted(fs) && SameButMeta(fs.g, old(fs.View()), fs.View()) && MarksNow(fs) == old(MarksNow(fs))
    ensures res == OK ==> fs.Fat() == FillFirst(old(fs.Fat()), first, count)
    ensures res == OK || (res == DISK_ERR && !fs.reliable)
    ensures Parked(fs.g, old(fs.winsect), fs.winsect)
  {
    hide FatVolume.Volume.View, FatVolume.Volume.Fat, FatVolume.Volume.Valid, MarksNow, InBits, Bitmap.ExOk, FillFirst,
      SameButMeta;
    Numbers(fs.g);
    SameMeta(fs.g, fs.View());
    ghost var goal := FillFirst(fs.Fat(), first, count);
    var cl, n := first, count;
    res := OK;
    while res == OK && n > 0
      invariant Mounted(fs) && SameButMeta(fs.g, old(fs.View()), fs.View()) && MarksNow(fs) == old(MarksNow(fs))
      invariant cl + n == first + count && 2 <= cl
      invariant res == OK ==> FillFirst(fs.Fat(), cl, n) == goal
      invariant res == OK || (res == DISK_ERR && !fs.reliable)
      invariant Parked(fs.g, old(fs.winsect), fs.winsect)
      decreases res == OK, n
    {
      FillFirstStep(fs.Fat(), cl, n);
      ghost var v := fs.View();
      res := PutEntry(fs, cl, cl + 1);
      SameMetaTrans(fs.g, old(fs.View()), v, fs.View());
      if res == OK { cl, n := cl + 1, n - 1; }
    }
    if res == OK { FillFirstNone(fs.Fat(), cl); }
  }

  method FillFirstFrag(fs: Volume, obj: ObjectId) returns (res: Fresult)
    requires Mounted(fs) && (obj.stat == 3 ==> 2 <= obj.sclust && obj.sclust + obj.nCont < fs.g.nFatent)
    modifies fs`disk, fs`wflag, fs`mirror, fs`winsect, fs.win, obj`stat
    ensures Mounted(fs) && SameButMeta(fs.g, old(fs.View()), fs.View()) && MarksNow(fs) == old(MarksNow(fs))
    ensures res == OK && old(obj.stat) == 3 ==>
            fs.Fat() == FillFirst(old(fs.Fat()), obj.sclust, obj.nCont) && obj.stat == 0
    ensures old(obj.stat) != 3 ==> fs.Fat() == old(fs.Fat()) && obj.stat == old(obj.stat)
    ensures res == OK || (res == DISK_ERR && !fs.reliable)
    ensures Parked(fs.g, old(fs.winsect), fs.winsect)
  {
    hide FatVolume.Volume.View, FatVolume.Volume.Fat, FatVolume.Volume.Valid, MarksNow, FillFirst;
    res := OK;
    if obj.stat == 3 {
      res := LinkByNumber(fs, obj.sclust, obj.nCont);
      if res == OK { obj.stat := 0; }
    }
  }

  /** Cluster count less one, as get_fat derives it from the object size. */
  function Clen(objsize: nat, csize: nat): nat
    requires objsize > 0 && csize > 0
  {
    Arith.DivNat((objsize - 1) / 512, csize);
    (objsize - 1) / 512 / csize
  }

  /** Its number of clusters fits 32 bits. */
  predicate Sized(objsize: nat, csize: nat)
    requires csize > 0
  {
    objsize / 512 / csize < 0x1_0000_0000
  }

  /** The exFAT branch of get_fat. */
  method GetFat(fs: Volume, obj: ObjectId, clst: u32) returns (val: u32)
    requires Mounted(fs) && Sized(obj.objsize, fs.g.csize)
    modifies fs`disk, fs`wflag, fs`mirror, fs`winsect, fs.win
    ensures Mounted(fs) && fs.View() == old(fs.View()) && fs.Fat() == old(fs.Fat())
    ensures !(2 <= clst < fs.g.nFatent) ==> val == 1
    ensures 2 <= clst < fs.g.nFatent && obj.objsize > 0 && obj.sclust != 0 ==>
              val == NextOf(obj.Fields(), fs.Fat(), Clen(obj.objsize, fs.g.csize), clst) ||
                (!fs.reliable && val == DISK_FAULT)
    ensures 2 <= clst < fs.g.nFatent && obj.stat == 0 && obj.nFrag == 0 ==>
              val == fs.Fat()[clst] || (!fs.reliable && val == DISK_FAULT)
    ensures 2 <= clst < fs.g.nFatent && (obj.objsize == 0 || obj.sclust == 0) && obj.stat != 0 ==> val == 1
    ensures val < 0x8000_0000 || (!fs.reliable && val == DISK_FAULT)
    ensures Parked(fs.g, old(fs.winsect), fs.winsect)
  {
    if clst < 2 || clst >= fs.g.nFatent { return 1; }
    assert fs.g.nFatent < 0x8000_0000;
    hide FatVolume.Volume.View, FatVolume.Volume.Fat, FatVolume.Volume.Valid;
    val := 1;
    if (obj.objsize != 0 && obj.sclust != 0) || obj.stat == 0 {
      var cofs := Sub32(clst, obj.sclust);
      if obj.stat == 2 && cofs <= (obj.objsize - 1) / 512 / fs.g.csize {
        val := if cofs == (obj.objsize - 1) / 512 / fs.g.csize then EOC else clst + 1;
      } else if obj.stat == 3 && cofs < obj.nCont {
        val := clst + 1;
      } else if obj.stat != 2 {
        if obj.nFrag != 0 {
          val := EOC;
        } else {
          val := ReadEntry(fs, clst);
        }
      }
    }
  }

  method ReadEntry(fs: Volume, clst: u32) returns (val: u32)
    requires Mounted(fs) && 2 <= clst < fs.g.nFatent
    modifies fs`disk, fs`wflag, fs`mirror, fs`winsect, fs.win
    ensures Mounted(fs) && fs.View() == old(fs.View()) && fs.Fat() == old(fs.Fat())
    ensures val == fs.Fat()[clst] || (!fs.reliable && val == DISK_FAULT)
    ensures val < 0x8000_0000 || (!fs.reliable && val == DISK_FAULT)
    ensures Parked(fs.g, old(fs.winsect), fs.winsect)
  {
    val := fs.GetFat(clst);
    assert fs.View() == old(fs.View());
  }

  /**
   * The bookkeeping of an allocating create_chain: a first cluster makes the object contiguous, a later one is
   * appended.
   */
  ghost predicate Behind(o: Lazy, fat: seq<nat>, o': Lazy, fat': seq<nat>, ch: seq<nat>, ncl: nat) {
    if ch == [] then o' == o.(stat := 2) && fat' == fat
    else CanEndAt(o, fat, ch[|ch| - 1]) && (o', fat') == Append(o, fat, ch[|ch| - 1], ncl)
  }

  /** The exFAT bookkeeping of create_chain once cluster `ncl` is marked in use behind `clst`. */
  method LinkCluster(fs: Volume, obj: ObjectId, clst: u32, ncl: u32, ghost ch: seq<nat>) returns (res: Fresult)
    requires Mounted(fs) && Rep(obj.Fields(), fs.Fat(), ch) && clst == ch[|ch| - 1]
    requires ncl !in ch && 2 <= ncl < fs.g.nFatent
    modifies fs`disk, fs`wflag, fs`mirror, fs`winsect, fs.win, obj
    ensures Mounted(fs) && SameButMeta(fs.g, old(fs.View()), fs.View()) && MarksNow(fs) == old(MarksNow(fs))
    ensures obj.objsize == old(obj.objsize) && obj.sclust == old(obj.sclust)
    ensures res == OK ==> Behind(old(obj.Fields()), old(fs.Fat()), obj.Fields(), fs.Fat(), ch, ncl)
    ensures res == OK ==> Rep(obj.Fields(), fs.Fat(), ch + [ncl])
    ensures res == OK ==> forall c | 0 <= c < fs.g.nFatent && c !in ch :: fs.Fat()[c] == old(fs.Fat())[c]
    ensures res == OK || (res == DISK_ERR && !fs.reliable)
    ensures Parked(fs.g, old(fs.winsect), fs.winsect)
    ensures res == OK ==> fs.winsect == old(fs.winsect) || fs.g.InFat(fs.winsect)
  {
    hide FatVolume.Volume.View, FatVolume.Volume.Fat, FatVolume.Volume.Valid, MarksNow, Rep, FillLast, SameButMeta,
      Parked, Distinct, InRange, Bitmap.ExOk;
    Numbers(fs.g);
    ghost var o, fat := obj.Fields(), fs.Fat();
    RepBounds(o, fat, ch);
    RepStat(o, fat, ch);
    AppendKeepsRep(o, fat, ch, ncl);
    ParkedSame(fs.g, fs.winsect);
    SameMeta(fs.g, fs.View());
    res := OK;
    if obj.stat == 2 && ncl != clst + 1 {
      obj.nCont := clst - obj.sclust;
      obj.stat := 3;
    }
    if obj.stat != 2 {
      if ncl == clst + 1 {
        obj.nFrag := if obj.nFrag > 0 then obj.nFrag + 1 else 2;
      } else {
        if obj.nFrag == 0 { obj.nFrag := 1; }
        res := FillLastFrag(fs, obj, clst, ncl);
        if res == OK { obj.nFrag := 1; }
      }
    }
    assert res == OK ==> (obj.Fields(), fs.Fat()) == Append(o, fat, clst, ncl);
  }

  /** Clusters of an object are marked in use. */
  ghost predicate AllUsed(marks: seq<nat>, ch: seq<nat>) {
    forall i | 0 <= i < |ch| :: ch[i] < |marks| && marks[ch[i]] != 0
  }

  /** Every free cluster is found: a bitmap scan from any cluster. */
  lemma FindIsComplete(marks: seq<nat>, from: nat)
    requires |marks| >= 3 && 1 <= from < |marks| && ChainSpec.Sound(marks)
    ensures ChainSpec.Scan(marks, from, 0) == 0 <==> ChainSpec.NoneFree(marks)
    ensures var r := ChainSpec.Scan(marks, from, 0); r != 0 ==> 2 <= r < |marks| && marks[r] == 0
  {
    ChainSpec.ScanComplete(marks, from);
    ChainSpec.ScanResult(marks, from, 0);
  }

  lemma BitsDoNotShow(fs: Volume, v: seq<Sector>)
    requires Mounted(fs) && |v| == fs.g.sectors && SameButBits(fs.g, v, fs.View())
    ensures fs.Fat() == FatOf(fs.g, v) && SameButMeta(fs.g, v, fs.View())
  {
    BitsAvoidFat(fs.g, v, fs.View());
  }

  /** The first free cluster at or cyclically after `scl`, 0 if there is none. */
  function Found(marks: seq<nat>, scl: nat): nat
    requires |marks| >= 3
  {
    ChainSpec.Scan(marks, if 2 <= scl < |marks| then scl - 1 else 1, 0)
  }

  /** The cluster create_chain settles on behind `clst`, or for a new chain. */
  function Chosen(free: nat, last: nat, marks: seq<nat>, clst: nat): nat
    requires |marks| >= 3
  {
    if free == 0 then 0
    else Found(marks, if clst != 0 then clst else if last == 0 || last >= |marks| then 1 else last)
  }

  /**
   * The same as create_chain's documentation has it: none when the count says so, else the first free cluster upwards
   * from `clst`, or for a new chain from the hint if that is in range, and from 2 if not.
   */
  ghost predicate Finds(marks: seq<nat>, free: nat, last: nat, clst: nat, r: nat) {
    if free == 0 then r == 0
    else
      var start := if clst != 0 then clst else if last == 0 || last >= |marks| then 2 else last;
      ChainSpec.Meets(marks, if start >= 2 then start - 1 else 1, r)
  }

  lemma ChosenAt(fs: Volume, clst: u32, ch: seq<nat>)
    requires Mounted(fs) && (clst != 0 ==> ch != [] && clst == ch[|ch| - 1] < fs.g.nFatent)
    ensures Finds(MarksNow(fs), fs.freeClst, fs.lastClst, clst, Chosen(fs.freeClst, fs.lastClst, MarksNow(fs), clst))
  {
    ChosenFinds(fs.freeClst, fs.lastClst, MarksNow(fs), clst);
  }

  lemma ChosenFinds(free: nat, last: nat, marks: seq<nat>, clst: nat)
    requires |marks| >= 3 && clst < |marks|
    ensures Finds(marks, free, last, clst, Chosen(free, last, marks, clst))
  {
    var scl := if clst != 0 then clst else if last == 0 || last >= |marks| then 1 else last;
    ChainSpec.ScanMeets(marks, if 2 <= scl < |marks| then scl - 1 else 1, 0);
  }

  /** find_bitmap and change_bitmap as create_chain uses them: takes the first free cluster from `scl` on. */
  method TakeFree(fs: Volume, scl: u32) returns (ncl: u32)
    requires Mounted(fs) && ChainSpec.Sound(MarksNow(fs))
    modifies fs`disk, fs`wflag, fs`mirror, fs`winsect, fs.win
    ensures Mounted(fs) && SameButMeta(fs.g, old(fs.View()), fs.View()) && fs.Fat() == old(fs.Fat())
    ensures ncl == 0 ==> ChainSpec.NoneFree(old(MarksNow(fs))) && MarksNow(fs) == old(MarksNow(fs))
    ensures ncl != 0 && ncl != DISK_FAULT ==>
              2 <= ncl < fs.g.nFatent && old(MarksNow(fs))[ncl] == 0 && MarksNow(fs) == old(MarksNow(fs))[ncl := 2]
    ensures ncl == DISK_FAULT ==> !fs.reliable
    ensures ncl != DISK_FAULT ==> ncl == Found(old(MarksNow(fs)), scl)
    ensures Parked(fs.g, old(fs.winsect), fs.winsect)
    ensures ncl != 0 && ncl != DISK_FAULT ==> InBits(fs.g, fs.winsect)
  {
    hide FatVolume.Volume.View, FatVolume.Volume.Valid, ChainSpec.Scan;
    ghost var marks := MarksNow(fs);
    FindIsComplete(marks, if 2 <= scl < fs.g.nFatent then scl - 1 else 1);
    ghost var v := fs.View();
    ncl := FindBitmap(fs, scl);
    if ncl != 0 && ncl != DISK_FAULT {
      ghost var done;
      var res;
      res, done := ChangeBitmap(fs, ncl, 1, true);
      BitsDoNotShow(fs, v);
      FlippedOne(marks, MarksNow(fs), ncl);
      if res != OK { ncl := DISK_FAULT; }
    }
  }

  lemma FlippedOne(marks: seq<nat>, now: seq<nat>, c: nat)
    ensures c < |marks| && Flipped(marks, now, c, 1, true) ==> now == marks[c := 2]
  {
    if c < |marks| { assert SetMarks(marks, c, 1, 2) == SetMarks(marks, c, 0, 2)[c := 2]; }
  }

  /** Marks that carry only "free" and "in use". */
  lemma MarksAreSound(g: Geometry, v: seq<Sector>)
    requires ExOk(g) && |v| == g.sectors
    ensures ChainSpec.Sound(MarksOf(g, v))
  {
    MarksFit(g, BitBytes(g, v));
    forall c | 2 <= c < g.nFatent ensures MarksOf(g, v)[c] != 1 { MarksAt(BitBytes(g, v), g.nFatent, c); }
  }

  /** create_chain reports an insane link as 1 and passes on any other. */
  function AtLeastOne(cs: u32): u32 { if cs < 2 then 1 else cs }

  /** get_fat follows the list at element `i`: no unwritten last fragment stands in the way. */
  predicate Followable(o: Lazy, len: nat, i: nat) {
    !(o.stat != 2 && o.nFrag != 0 && First(o) <= i < len - 1)
  }

  /** What an allocating create_chain leaves: one more cluster in use, behind `ch`, every other link as before. */
  ghost predicate Stretched(o: Lazy, marks: seq<nat>, fat: seq<nat>, marks': seq<nat>, fat': seq<nat>, ch: seq<nat>,
      ncl: nat)
    requires |marks| == |fat| == |fat'|
  {
    && 2 <= ncl < |fat| && marks[ncl] == 0 && marks' == marks[ncl := 2]
    && (ch == [] ==> o.stat == 2 && fat' == fat)
    && (ch != [] ==> Rep(o, fat', ch + [ncl]) && forall c | 0 <= c < |fat| && c !in ch :: fat'[c] == fat[c])
  }

  /**
   * create_chain on exFAT, for a new chain (`ch` empty) or at element `i` of `ch`: it follows the list inside
   * it, and at its end marks one free cluster and turns the representation of `ch` into that of `ch` with it.
   */
  method CreateChain(fs: Volume, obj: ObjectId, clst: u32, ghost ch: seq<nat>, ghost i: nat) returns (ncl: u32)
    requires Mounted(fs) && AllUsed(MarksNow(fs), ch) && Sized(obj.objsize, fs.g.csize)
    requires clst == 0 ==> ch == []
    requires clst != 0 ==>
             Rep(obj.Fields(), fs.Fat(), ch) && i < |ch| && clst == ch[i] && Followable(obj.Fields(), |ch|, i)
    requires clst != 0 ==> obj.objsize > 0 && Clen(obj.objsize, fs.g.csize) == |ch| - 1
    modifies fs, fs.win, obj
    ensures Mounted(fs) && SameButMeta(fs.g, old(fs.View()), fs.View())
    ensures obj.objsize == old(obj.objsize) && obj.sclust == old(obj.sclust)
    ensures ncl == DISK_FAULT ==> !fs.reliable
    ensures ncl != DISK_FAULT && clst != 0 && i + 1 < |ch| ==> ncl == ch[i + 1]
    ensures ncl != DISK_FAULT && (ncl == 0 || (clst != 0 && i + 1 < |ch|)) ==>
              fs.Fat() == old(fs.Fat()) && MarksNow(fs) == old(MarksNow(fs)) && obj.Fields() == old(obj.Fields())
    ensures ncl == 0 ==> old(fs.freeClst) == 0 || ChainSpec.NoneFree(old(MarksNow(fs)))
    ensures ncl != 0 && ncl != DISK_FAULT && (clst == 0 || i + 1 == |ch|) ==>
              Stretched(obj.Fields(), old(MarksNow(fs)), old(fs.Fat()), MarksNow(fs), fs.Fat(), ch, ncl)
    ensures Parked(fs.g, old(fs.winsect), fs.winsect)
    ensures ncl != 0 && ncl != DISK_FAULT && (clst == 0 || i + 1 == |ch|) ==> OnMeta(fs.g, fs.winsect)
    ensures clst == 0 && ncl != DISK_FAULT ==> obj.nFrag == old(obj.nFrag)
    ensures ncl != DISK_FAULT && (ncl == 0 || (clst != 0 && i + 1 < |ch|)) ==> fs.freeClst == old(fs.freeClst)
    ensures ncl != 0 && ncl != DISK_FAULT && (clst == 0 || i + 1 == |ch|) ==>
              old(fs.freeClst) > 0 && fs.freeClst == Charge(old(fs.freeClst), fs.g.nFatent) &&
              Behind(old(obj.Fields()), old(fs.Fat()), obj.Fields(), fs.Fat(), ch, ncl)
    ensures ncl != DISK_FAULT && (clst == 0 || i + 1 == |ch|) ==>
              ncl == Chosen(old(fs.freeClst), old(fs.lastClst), old(MarksNow(fs)), clst) &&
              Finds(old(MarksNow(fs)), old(fs.freeClst), old(fs.lastClst), clst, ncl)
    ensures ncl != DISK_FAULT ==> fs.lastClst == if ncl != 0 && (clst == 0 || i + 1 == |ch|) then ncl
            else old(fs.lastClst)
  {
    hide FatVolume.Volume.View, FatVolume.Volume.Fat, FatVolume.Volume.Valid, Rep, MarksOf, Behind, Charge, Found,
      AllUsed, Bitmap.ExOk, InBits, SameButMeta, ChainSpec.NoneFree, ChainSpec.Sound, Stretched, OnMeta, Finds;
    if clst != 0 { RepBounds(obj.Fields(), fs.Fat(), ch); }
    if clst == 0 || i + 1 == |ch| { ChosenAt(fs, clst, ch); }
    MarksAreSound(fs.g, fs.View());
    Numbers(fs.g);
    SameMeta(fs.g, fs.View());
    ParkedSame(fs.g, fs.winsect);
    if clst != 0 {
      FollowsList(obj.Fields(), fs.Fat(), ch, i);
      var cs := GetFat(fs, obj, clst);
      if cs == DISK_FAULT || cs < fs.g.nFatent { return AtLeastOne(cs); }
    }
    if fs.freeClst == 0 { return 0; }
    var scl := if clst != 0 then clst else if fs.lastClst == 0 || fs.lastClst >= fs.g.nFatent then 1 else fs.lastClst;
    ncl := TakeAndLink(fs, obj, clst, scl, ch);
  }

  /** The allocating half of create_chain: a free cluster is marked and appended. */
  method TakeAndLink(fs: Volume, obj: ObjectId, clst: u32, scl: u32, ghost ch: seq<nat>) returns (ncl: u32)
    requires Mounted(fs) && AllUsed(MarksNow(fs), ch) && ChainSpec.Sound(MarksNow(fs)) && fs.freeClst > 0
    requires clst == 0 ==> ch == []
    requires clst != 0 ==> Rep(obj.Fields(), fs.Fat(), ch) && clst == ch[|ch| - 1]
    modifies fs, fs.win, obj
    ensures Mounted(fs) && SameButMeta(fs.g, old(fs.View()), fs.View())
    ensures obj.objsize == old(obj.objsize) && obj.sclust == old(obj.sclust)
    ensures ncl == DISK_FAULT ==> !fs.reliable
    ensures ncl == 0 ==>
            fs.Fat() == old(fs.Fat()) && MarksNow(fs) == old(MarksNow(fs)) && obj.Fields() == old(obj.Fields())
    ensures ncl == 0 ==> ChainSpec.NoneFree(old(MarksNow(fs))) && fs.freeClst == old(fs.freeClst)
    ensures ncl != 0 && ncl != DISK_FAULT ==>
            Stretched(obj.Fields(), old(MarksNow(fs)), old(fs.Fat()), MarksNow(fs), fs.Fat(), ch, ncl)
    ensures ncl != 0 && ncl != DISK_FAULT ==> OnMeta(fs.g, fs.winsect)
    ensures Parked(fs.g, old(fs.winsect), fs.winsect)
    ensures clst == 0 && ncl != DISK_FAULT ==> obj.nFrag == old(obj.nFrag)
    ensures ncl != 0 && ncl != DISK_FAULT ==> fs.freeClst == Charge(old(fs.freeClst), fs.g.nFatent)
    ensures ncl != 0 && ncl != DISK_FAULT ==> Behind(old(obj.Fields()), old(fs.Fat()), obj.Fields(), fs.Fat(), ch, ncl)
    ensures ncl != DISK_FAULT ==>
            ncl == Found(old(MarksNow(fs)), scl) && fs.lastClst == if ncl == 0 then old(fs.lastClst) else ncl
  {
    hide FatVolume.Volume.View, FatVolume.Volume.Fat, FatVolume.Volume.Valid, Rep, Bitmap.MarksOf, Behind, Charge,
      Found, AllUsed, Bitmap.ExOk, SameButMeta, ChainSpec.NoneFree;
    if clst != 0 { RepBounds(obj.Fields(), fs.Fat(), ch); }
    ghost var u, marks := fs.View(), MarksNow(fs);
    ncl := TakeFree(fs, scl);
    if ncl != 0 && ncl != DISK_FAULT {
      TakenApart(marks, ch, ncl);
      ghost var v := fs.View();
      ncl := FinishCreate(fs, obj, clst, ncl, ch);
      SameMetaTrans(fs.g, u, v, fs.View());
    }
  }

  /** The rest of create_chain once `ncl` is marked: chain bookkeeping, then hint and free count. */
  method FinishCreate(fs: Volume, obj: ObjectId, clst: u32, taken: u32, ghost ch: seq<nat>) returns (ncl: u32)
    requires Mounted(fs) && 2 <= taken < fs.g.nFatent && taken !in ch && fs.freeClst > 0
    requires clst == 0 ==> ch == []
    requires clst != 0 ==> Rep(obj.Fields(), fs.Fat(), ch) && clst == ch[|ch| - 1]
    modifies fs, fs.win, obj
    ensures Mounted(fs) && SameButMeta(fs.g, old(fs.View()), fs.View()) && MarksNow(fs) == old(MarksNow(fs))
    ensures obj.objsize == old(obj.objsize) && obj.sclust == old(obj.sclust)
    ensures ncl == taken || (ncl == DISK_FAULT && !fs.reliable)
    ensures ncl == taken ==> fs.lastClst == taken
    ensures ncl == taken ==> fs.freeClst == Charge(old(fs.freeClst), fs.g.nFatent)
    ensures ncl == taken ==> Behind(old(obj.Fields()), old(fs.Fat()), obj.Fields(), fs.Fat(), ch, ncl)
    ensures ncl == taken && clst == 0 ==> obj.stat == 2 && obj.nFrag == old(obj.nFrag) && fs.Fat() == old(fs.Fat())
    ensures ncl == taken && clst != 0 ==>
              Rep(obj.Fields(), fs.Fat(), ch + [ncl]) &&
              forall c | 0 <= c < fs.g.nFatent && c !in ch :: fs.Fat()[c] == old(fs.Fat())[c]
    ensures InBits(fs.g, old(fs.winsect)) ==> OnMeta(fs.g, fs.winsect) || ncl == DISK_FAULT
    ensures Parked(fs.g, old(fs.winsect), fs.winsect)
  {
    hide FatVolume.Volume.View, FatVolume.Volume.Fat, FatVolume.Mirrored, Rep, MarksNow;
    ncl := taken;
    var res := OK;
    if clst == 0 {
      obj.stat := 2;
    } else {
      res := LinkCluster(fs, obj, clst, ncl, ch);
    }
    if res == OK {
      fs.lastClst := ncl;
      if fs.freeClst <= fs.g.nFatent - 2 { fs.freeClst := fs.freeClst - 1; }
    } else {
      ncl := DISK_FAULT;
    }
  }

  /** get_fat at a followable element gives the next one, or an end mark at the last. */
  lemma FollowsList(o: Lazy, fat: seq<nat>, ch: seq<nat>, i: nat)
    requires Rep(o, fat, ch) && |fat| <= EOC && i < |ch| && Followable(o, |ch|, i)
    ensures 2 <= ch[i] < |fat| && o.sclust >= 2
    ensures var nxt := NextOf(o, fat, |ch| - 1, ch[i]); if i + 1 < |ch| then nxt == ch[i + 1] else nxt >= |fat|
    ensures i + 1 < |ch| ==> 2 <= ch[i + 1] < |fat|
  {
    NextOfIsRight(o, fat, ch, i);
  }

  // ---------- the free count ----------

  /** A free count in range claims to be the number of unmarked clusters. */
  ghost predicate ExactCount(free: nat, marks: seq<nat>) {
    |marks| >= 2 && (free <= |marks| - 2 ==> free == ChainSpec.Zeros(marks, |marks|))
  }

  /** The count after `k` releases: it stops at the number of clusters, and an unknown one stays unknown. */
  function Credit(free: nat, n: nat, k: nat): nat
    requires n >= 2
  {
    if free >= n - 2 then free else if free + k < n - 2 then free + k else n - 2
  }

  /** The count after one allocation: one less, unless it is unknown. */
  function Charge(free: nat, n: nat): nat
    requires free > 0 && n >= 2
  {
    if free <= n - 2 then free - 1 else free
  }

  lemma TakenExact(free: nat, marks: seq<nat>, c: nat)
    requires ExactCount(free, marks) && 2 <= c < |marks| && marks[c] == 0 && free > 0
    ensures ExactCount(Charge(free, |marks|), marks[c := 2])
  {
    ChainSpec.ZerosUpdate(marks, |marks|, c, 2);
  }

  lemma TakenApart(marks: seq<nat>, ch: seq<nat>, c: nat)
    requires 2 <= c < |marks| && marks[c] == 0 && AllUsed(marks, ch)
    ensures c !in ch
  {
  }

  lemma {:induction false} FreedZeros(marks: seq<nat>, marks': seq<nat>, gone: seq<nat>)
    requires Freed(marks, marks', gone) && InRange(gone, |marks|) && Distinct(gone) && AllUsed(marks, gone)
    ensures ChainSpec.Zeros(marks', |marks'|) == ChainSpec.Zeros(marks, |marks|) + |gone|
    decreases |gone|
  {
    if gone == [] {
      assert marks' == marks;
    } else {
      var rest, c := gone[..|gone| - 1], gone[|gone| - 1];
      assert gone == rest + [c] && c !in rest;
      var before := marks'[c := marks[c]];
      FreedZeros(marks, before, rest);
      ChainSpec.ZerosUpdate(before, |marks|, c, 0);
      assert marks' == before[c := 0];
    }
  }

  /** Releasing used clusters keeps an exact count exact. */
  lemma FreedExact(free: nat, marks: seq<nat>, marks': seq<nat>, gone: seq<nat>)
    requires Freed(marks, marks', gone) && InRange(gone, |marks|) && Distinct(gone) && AllUsed(marks, gone) &&
             ExactCount(free, marks)
    ensures ExactCount(Credit(free, |marks|, |gone|), marks')
  {
    FreedZeros(marks, marks', gone);
  }

  // ---------- remove_chain ----------

  /** The marks with exactly the clusters `gone` freed. */
  ghost predicate Freed(marks: seq<nat>, marks': seq<nat>, gone: seq<nat>) {
    |marks'| == |marks| && forall c | 0 <= c < |marks| :: marks'[c] == if c in gone then 0 else marks[c]
  }

  /** Clearing the run from element `s` to element `m` extends the freed part of the chain. */
  lemma FreedRun(marks: seq<nat>, marks': seq<nat>, ch: seq<nat>, i: nat, s: nat, m: nat)
    requires i <= s <= m < |ch| && Run(ch, s, m) && ch[m] < |marks| && Freed(marks, marks', ch[i..s])
    ensures ch[s] + (m - s + 1) <= |marks'| && Freed(marks, SetMarks(marks', ch[s], m - s + 1, 0), ch[i..m + 1])
  {
    assert ch[m] == ch[s] + (m - s);
    var r := SetMarks(marks', ch[s], m - s + 1, 0);
    forall c | 0 <= c < |marks| ensures r[c] == if c in ch[i..m + 1] then 0 else marks[c] {
      SetMarksAt(marks', ch[s], m - s + 1, 0, c);
      assert ch[i..m + 1] == ch[i..s] + ch[s..m + 1];
      assert c in ch[i..m + 1] <==> c in ch[i..s] || c in ch[s..m + 1];
      RunRange(ch, s, m, c);
    }
  }

  lemma RunRange(ch: seq<nat>, s: nat, m: nat, c: nat)
    requires s <= m < |ch| && Run(ch, s, m)
    ensures c in ch[s..m + 1] <==> ch[s] <= c < ch[s] + (m - s + 1)
  {
    if ch[s] <= c < ch[s] + (m - s + 1) { assert ch[s..m + 1][c - ch[s]] == c; }
    if c in ch[s..m + 1] {
      var k :| 0 <= k < m + 1 - s && ch[s..m + 1][k] == c;
      assert ch[s + k] == ch[s] + k;
    }
  }

  /** A cluster of a run is still in use before the run is cleared. */
  lemma RunStillUsed(marks: seq<nat>, marks': seq<nat>, ch: seq<nat>, i: nat, s: nat, m: nat, d: nat)
    requires i <= s <= m < |ch| && Run(ch, s, m) && Distinct(ch) && AllUsed(marks, ch) && Freed(marks, marks', ch[i..s])
    requires ch[s] <= d < ch[s] + (m - s + 1)
    ensures d < |marks'| && marks'[d] != 0
  {
    var k := s + (d - ch[s]);
    assert ch[k] == d;
    assert forall j | 0 <= j < s - i :: ch[i..s][j] == ch[i + j] && ch[i + j] != d;
  }

  /** Progress of the release loop: elements before `s` are freed, `s` to `m` form the run being collected. */
  ghost predicate Releasing(marks: seq<nat>, marks': seq<nat>, ch: seq<nat>, i: nat, s: nat, m: nat) {
    i <= s <= m < |ch| && Run(ch, s, m) && Freed(marks, marks', ch[i..s])
  }

  lemma FlippedAll(marks: seq<nat>, now: seq<nat>, c: nat, k: nat, bv: bool)
    requires Flipped(marks, now, c, k, bv)
    ensures c + k <= |marks| && now == SetMarks(marks, c, k, Mark(bv))
  {
  }

  lemma FatIs(fs: Volume)
    requires Mounted(fs)
    ensures fs.Fat() == FatOf(fs.g, fs.View())
  {
  }

  /** The collected run: consecutive clusters, all still marked, whose clearing extends the freed part. */
  lemma RunFacts(marks: seq<nat>, marks': seq<nat>, ch: seq<nat>, i: nat, s: nat, m: nat)
    requires Releasing(marks, marks', ch, i, s, m) && Distinct(ch) && InRange(ch, |marks|) && AllUsed(marks, ch)
    ensures 2 <= ch[s] <= ch[m] == ch[s] + (m - s) < |marks| == |marks'|
    ensures forall d | ch[s] <= d < ch[s] + (m - s + 1) :: marks'[d] != 0
    ensures Freed(marks, SetMarks(marks', ch[s], m - s + 1, 0), ch[i..m + 1])
  {
    FreedRun(marks, marks', ch, i, s, m);
    forall d | ch[s] <= d < ch[s] + (m - s + 1) ensures marks'[d] != 0 { RunStillUsed(marks, marks', ch, i, s, m, d); }
  }

  /** Clears the collected run on the bitmap. */
  method ClearRun(fs: Volume, scl: u32, ecl: u32, ghost marks: seq<nat>, ghost ch: seq<nat>, ghost i: nat, ghost s: nat,
      ghost m: nat)
    returns (res: Fresult)
    requires Mounted(fs) && Releasing(marks, MarksNow(fs), ch, i, s, m) && Distinct(ch) && InRange(ch, fs.g.nFatent)
    requires AllUsed(marks, ch) && scl == ch[s] && ecl == ch[m] && |marks| == fs.g.nFatent
    modifies fs`disk, fs`wflag, fs`mirror, fs`winsect, fs.win
    ensures Mounted(fs) && SameButMeta(fs.g, old(fs.View()), fs.View()) && fs.Fat() == old(fs.Fat())
    ensures res == OK || (res == DISK_ERR && !fs.reliable)
    ensures res == OK ==> Freed(marks, MarksNow(fs), ch[i..m + 1])
  {
    hide FatVolume.Volume.View, FatVolume.Volume.Fat, FatVolume.Volume.Valid, MarksNow, SetMarks, Freed, Flipped,
      Parked, InBits, Releasing, AllUsed, Distinct, InRange, SameButMeta, Bitmap.SameButBits;
    Numbers(fs.g);
    ghost var v, marks' := fs.View(), MarksNow(fs);
    RunFacts(marks, marks', ch, i, s, m);
    FatIs(fs);
    ghost var done;
    res, done := ChangeBitmap(fs, scl, ecl - scl + 1, false);
    if res == OK { FlippedAll(marks', MarksNow(fs), scl, ecl - scl + 1, false); }
    BitsDoNotShow(fs, v);
  }

  /** One round of the release loop: looks past `ecl`, and clears the collected run when it ends there. */
  method ReleaseRound(fs: Volume, obj: ObjectId, scl: u32, ecl: u32, ghost marks: seq<nat>,
                      ghost ch: seq<nat>, ghost i: nat, ghost s: nat, ghost m: nat)
    returns (res: Fresult, nscl: u32, necl: u32)
    requires Mounted(fs) && obj.objsize > 0 && obj.sclust != 0 && Clen(obj.objsize, fs.g.csize) == |ch| - 1
    requires Sized(obj.objsize, fs.g.csize) && |marks| == fs.g.nFatent
    requires Releasing(marks, MarksNow(fs), ch, i, s, m) && Distinct(ch) && InRange(ch, fs.g.nFatent) &&
             AllUsed(marks, ch)
    requires scl == ch[s] && ecl == ch[m] && RightNext(obj.Fields(), fs.Fat(), ch, m)
    modifies fs`disk, fs`wflag, fs`mirror, fs`winsect, fs`freeClst, fs.win
    ensures Mounted(fs) && SameButMeta(fs.g, old(fs.View()), fs.View()) && fs.Fat() == old(fs.Fat())
    ensures res == OK || (res == DISK_ERR && !fs.reliable)
    ensures res == OK ==> RoundDone(fs.g.nFatent, marks, MarksNow(fs), ch, i, s, m, nscl, necl)
    ensures res == OK ==> necl == NextOf(obj.Fields(), fs.Fat(), |ch| - 1, ch[m])
    ensures res == OK ==> fs.freeClst == Credit(old(fs.freeClst), fs.g.nFatent, 1)
  {
    assert fs.g.nFatent <= EOC;
    hide FatVolume.Volume.View, FatVolume.Volume.Fat, FatVolume.Volume.Valid, MarksOf, Freed, RoundDone, Sized;
    nscl := scl;
    necl := GetFat(fs, obj, ecl);
    if necl == DISK_FAULT { return DISK_ERR, nscl, necl; }
    res := OK;
    if fs.freeClst < fs.g.nFatent - 2 { fs.freeClst := fs.freeClst + 1; }
    if ecl + 1 != necl {
      res := ClearRun(fs, scl, ecl, marks, ch, i, s, m);
      nscl := necl;
      if res == OK { RunEnded(fs.g.nFatent, marks, MarksNow(fs), ch, i, s, m, necl); }
    } else {
      RunGrew(fs.g.nFatent, marks, MarksNow(fs), ch, i, s, m);
    }
  }

  /**
   * What one round leaves: the run grew, or it was cleared and a new one started, or the chain is at its end.
   * An end mark that is the number after the last cluster is taken for one more cluster, and the run stays set.
   */
  ghost predicate RoundDone(n: nat, marks: seq<nat>, marks': seq<nat>, ch: seq<nat>, i: nat, s: nat, m: nat, scl: nat,
      ecl: nat)
    requires i <= s <= m < |ch|
  {
    if m + 1 < |ch| then
      var s' := if ch[m + 1] == ch[m] + 1 then s else m + 1;
      ecl == ch[m + 1] && scl == ch[s'] && Releasing(marks, marks', ch, i, s', m + 1)
    else ecl >= n && Freed(marks, marks', if ecl == ch[m] + 1 then ch[i..s] else ch[i..m + 1])
  }

  lemma RunEnded(n: nat, marks: seq<nat>, marks': seq<nat>, ch: seq<nat>, i: nat, s: nat, m: nat, nxt: nat)
    requires i <= s <= m < |ch| && Freed(marks, marks', ch[i..m + 1]) && nxt != ch[m] + 1
    requires if m + 1 < |ch| then nxt == ch[m + 1] else nxt >= n
    ensures RoundDone(n, marks, marks', ch, i, s, m, nxt, nxt)
  {
  }

  lemma RunGrew(n: nat, marks: seq<nat>, marks': seq<nat>, ch: seq<nat>, i: nat, s: nat, m: nat)
    requires Releasing(marks, marks', ch, i, s, m)
    requires if m + 1 < |ch| then ch[m + 1] == ch[m] + 1 else ch[m] + 1 >= n
    ensures RoundDone(n, marks, marks', ch, i, s, m, ch[s], ch[m] + 1)
  {
    assert ch[m] == ch[s] + (m - s);
  }

  /** The end mark get_fat shows is the number after the last cluster: only the very last cluster can have it. */
  ghost predicate MisleadingEnd(o: Lazy, fat: seq<nat>, ch: seq<nat>)
    requires ch != [] && InRange(ch, |fat|)
  {
    NextOf(o, fat, |ch| - 1, ch[|ch| - 1]) == ch[|ch| - 1] + 1
  }

  lemma StartReleasing(marks: seq<nat>, ch: seq<nat>, i: nat)
    requires i < |ch|
    ensures Releasing(marks, marks, ch, i, i, i) && Run(ch, i, i)
  {
  }

  lemma RoundFacts(n: nat, marks: seq<nat>, marks': seq<nat>, ch: seq<nat>, i: nat, s: nat, m: nat, scl: nat, ecl: nat)
    requires i <= s <= m < |ch| && RoundDone(n, marks, marks', ch, i, s, m, scl, ecl)
    ensures m + 1 < |ch| ==> var s' := if ch[m + 1] == ch[m] + 1 then s else m + 1;
            ecl == ch[m + 1] && scl == ch[s'] && Releasing(marks, marks', ch, i, s', m + 1) && Run(ch, s', m + 1)
    ensures m + 1 == |ch| ==> ecl >= n && Freed(marks, marks', if ecl == ch[m] + 1 then ch[i..s] else ch[i..m + 1])
  {
  }

  /** The release loop of remove_chain from element `i`; `s` is where the last run of the chain starts. */
  method ReleaseFrom(fs: Volume, obj: ObjectId, clst: u32, ghost ch: seq<nat>, ghost i: nat)
      returns (res: Fresult, ghost s: nat)
    requires Mounted(fs) && obj.objsize > 0 && obj.sclust != 0 && Clen(obj.objsize, fs.g.csize) == |ch| - 1
    requires Sized(obj.objsize, fs.g.csize)
    requires Distinct(ch) && InRange(ch, fs.g.nFatent) && AllUsed(MarksNow(fs), ch) && i < |ch| && clst == ch[i]
    requires forall m | i <= m < |ch| :: RightNext(obj.Fields(), fs.Fat(), ch, m)
    modifies fs`disk, fs`wflag, fs`mirror, fs`winsect, fs`freeClst, fs.win
    ensures Mounted(fs) && SameButMeta(fs.g, old(fs.View()), fs.View()) && fs.Fat() == old(fs.Fat())
    ensures res == OK || (res == DISK_ERR && !fs.reliable)
    ensures res == OK ==> i <= s < |ch| && Run(ch, s, |ch| - 1)
    ensures res == OK ==> Freed(old(MarksNow(fs)), MarksNow(fs),
                                if MisleadingEnd(obj.Fields(), fs.Fat(), ch) then ch[i..s] else ch[i..])
    ensures res == OK ==> fs.freeClst == Credit(old(fs.freeClst), fs.g.nFatent, |ch| - i)
  {
    hide FatVolume.Volume.View, FatVolume.Volume.Fat, FatVolume.Volume.Valid, MarksNow, Freed, RightNext, NextOf,
      Releasing, RoundDone, SameButMeta, Run, Sized, AllUsed, Distinct, Clen;
    ghost var marks := MarksNow(fs);
    ghost var m := i;
    s := i;
    SameMeta(fs.g, fs.View());
    StartReleasing(marks, ch, i);
    var scl, ecl := clst, clst;
    res := OK;
    while res == OK && ecl < fs.g.nFatent
      invariant Mounted(fs) && SameButMeta(fs.g, old(fs.View()), fs.View()) && fs.Fat() == old(fs.Fat())
      invariant res == OK || (res == DISK_ERR && !fs.reliable)
      invariant i <= s <= m < |ch| && Run(ch, s, m)
      invariant res == OK && ecl < fs.g.nFatent ==>
                scl == ch[s] && ecl == ch[m] && Releasing(marks, MarksNow(fs), ch, i, s, m)
      invariant res == OK && ecl >= fs.g.nFatent ==>
                m + 1 == |ch| && ecl == NextOf(obj.Fields(), fs.Fat(), |ch| - 1, ch[m])
      invariant res == OK && ecl >= fs.g.nFatent ==>
                Freed(marks, MarksNow(fs), if ecl == ch[m] + 1 then ch[i..s] else ch[i..m + 1])
      invariant res == OK ==>
                fs.freeClst == Credit(old(fs.freeClst), fs.g.nFatent, if ecl < fs.g.nFatent then m - i else |ch| - i)
      decreases res == OK, |ch| - m, fs.g.nFatent - ecl
    {
      ghost var v := fs.View();
      res, scl, ecl := ReleaseRound(fs, obj, scl, ecl, marks, ch, i, s, m);
      SameMetaTrans(fs.g, old(fs.View()), v, fs.View());
      if res == OK { RoundFacts(fs.g.nFatent, marks, MarksNow(fs), ch, i, s, m, scl, ecl); }
      if res == OK && m + 1 < |ch| {
        s := if ch[m + 1] == ch[m] + 1 then s else m + 1;
        m := m + 1;
      }
    }
    assert res == OK ==> ch[i..m + 1] == ch[i..];
  }

  /** The table after remove_chain has ended the chain before element `i`. */
  ghost function EndedBefore(o: Lazy, fat: seq<nat>, ch: seq<nat>, i: nat): (r: seq<nat>)
    requires i < |ch| && InRange(ch, |fat|)
    ensures |r| == |fat|
  {
    if i > 0 && o.stat != 2 then fat[ch[i - 1] := EOC] else fat
  }

  /** Ending the chain earlier does not disturb how its rest is followed. */
  lemma RestFollows(o: Lazy, fat: seq<nat>, ch: seq<nat>, i: nat, m: nat)
    requires Rep(o, fat, ch) && o.nFrag == 0 && i <= m < |ch| && |fat| <= EOC
    ensures RightNext(o, EndedBefore(o, fat, ch, i), ch, m)
    ensures m == |ch| - 1 ==> (MisleadingEnd(o, EndedBefore(o, fat, ch, i), ch) <==> MisleadingEnd(o, fat, ch))
  {
    NextOfIsRight(o, fat, ch, m);
    if i > 0 { assert ch[i - 1] != ch[m]; }
  }

  /** The chain status after the chain was ended before element `i`; `joined` tells a stat 0 chain is contiguous now. */
  function ShortStat(o: Lazy, pclst: nat, joined: bool): nat {
    if o.stat == 0 then (if joined then 2 else 0)
    else if o.stat == 3 && o.sclust <= pclst <= o.sclust + o.nCont then 2
    else o.stat
  }

  /** The status remove_chain leaves when it removed the chain from element `i` on. */
  ghost function LeftStat(o: Lazy, ch: seq<nat>, i: nat): nat
    requires i < |ch|
  {
    if i == 0 then 0 else ShortStat(o, ch[i - 1], Run(ch, 0, i - 1))
  }

  /** What that status says of the list that is left. */
  lemma LeftStatMeans(o: Lazy, fat: seq<nat>, ch: seq<nat>, i: nat)
    requires Rep(o, fat, ch) && 0 < i < |ch|
    ensures o.stat == 0 ==> (LeftStat(o, ch, i) == 2 <==> Run(ch, 0, i - 1))
    ensures o.stat == 3 ==> LeftStat(o, ch, i) == if i <= o.nCont + 1 then 2 else 3
  {
    if o.stat == 3 {
      RunMembers(ch, 0, o.nCont, i - 1);
      assert ch[o.nCont] == ch[0] + o.nCont;
    }
  }

  /** What remove_chain relies on throughout. */
  lemma RemoveFacts(o: Lazy, fat: seq<nat>, ch: seq<nat>, i: nat)
    requires Rep(o, fat, ch) && o.nFrag == 0 && i < |ch| && |fat| <= EOC
    ensures o.sclust != 0 && Distinct(ch) && InRange(ch, |fat|)
    ensures forall m | i <= m < |ch| :: RightNext(o, EndedBefore(o, fat, ch, i), ch, m)
    ensures MisleadingEnd(o, EndedBefore(o, fat, ch, i), ch) <==> MisleadingEnd(o, fat, ch)
    ensures i > 0 && o.stat == 0 ==> (LeftStat(o, ch, i) == 2 <==> Run(ch, 0, i - 1))
    ensures i > 0 && o.stat == 3 ==> LeftStat(o, ch, i) == if i <= o.nCont + 1 then 2 else 3
  {
    hide RightNext, MisleadingEnd, EndedBefore, LeftStat, ShortStat;
    forall m | i <= m < |ch| ensures RightNext(o, EndedBefore(o, fat, ch, i), ch, m) { RestFollows(o, fat, ch, i, m); }
    RestFollows(o, fat, ch, i, |ch| - 1);
    if i > 0 { LeftStatMeans(o, fat, ch, i); }
  }

  lemma RunPrefix(ch: seq<nat>, i: nat)
    requires 0 < i < |ch|
    ensures Run(ch[..i], 0, i - 1) <==> Run(ch, 0, i - 1)
  {
    assert forall k | 0 <= k < i :: ch[..i][k] == ch[k];
  }

  /** What is left of the chain is represented again. */
  lemma ShortRep(o: Lazy, fat: seq<nat>, ch: seq<nat>, i: nat, joined: bool)
    requires Rep(o, fat, ch) && o.nFrag == 0 && 0 < i < |ch| && |fat| <= EOC
    requires o.stat == 0 && joined ==> Run(ch, 0, i - 1)
    ensures Rep(o.(stat := ShortStat(o, ch[i - 1], joined)), EndedBefore(o, fat, ch, i), ch[..i])
  {
    var ch' := ch[..i];
    var fat' := EndedBefore(o, fat, ch, i);
    if o.stat == 3 { RunMembers(ch, 0, o.nCont, i - 1); assert ch[o.nCont] == ch[0] + o.nCont; }
    if o.stat != 2 {
      var from := First(o);
      forall k | from <= k < i - 1 ensures fat'[ch'[k]] == ch'[k + 1] {
        assert ch[k] != ch[i - 1];
        assert fat[ch[k]] == ch[k + 1];
      }
    }
  }

  lemma GapBreaksRun(ch: seq<nat>, j: nat)
    requires j + 1 < |ch| && ch[j + 1] != ch[j] + 1
    ensures !Run(ch, 0, |ch| - 1)
  {
    var k := if ch[j] == ch[0] + j then j + 1 else j;
    assert ch[k] != ch[0] + (k - 0);
  }

  /** The check of remove_chain whether the rest of an on-FAT chain has become contiguous. */
  method IsJoined(fs: Volume, obj: ObjectId, pclst: u32, ghost ch: seq<nat>) returns (res: Fresult, joined: bool)
    requires Mounted(fs) && obj.stat == 0 && obj.nFrag == 0 && Sized(obj.objsize, fs.g.csize)
    requires ch != [] && InRange(ch, fs.g.nFatent) && Distinct(ch) && LinkedOn(fs.Fat(), ch, 0, |ch| - 1)
    requires obj.sclust == ch[0] && pclst == ch[|ch| - 1]
    modifies fs`disk, fs`wflag, fs`mirror, fs`winsect, fs.win
    ensures Mounted(fs) && fs.View() == old(fs.View()) && fs.Fat() == old(fs.Fat())
    ensures res == OK || (res == DISK_ERR && !fs.reliable)
    ensures res == OK ==> (joined <==> Run(ch, 0, |ch| - 1))
  {
    assert fs.g.nFatent < 0x8000_0000;
    hide FatVolume.Volume.View, FatVolume.Volume.Fat, FatVolume.Volume.Valid, NextOf;
    ghost var j := 0;
    var clst := obj.sclust;
    res, joined := OK, true;
    while res == OK && joined && clst != pclst
      invariant Mounted(fs) && fs.View() == old(fs.View()) && fs.Fat() == old(fs.Fat())
      invariant res == OK || (res == DISK_ERR && !fs.reliable)
      invariant j < |ch| && clst == ch[j] && Run(ch, 0, j)
      invariant !joined ==> j + 1 < |ch| && ch[j + 1] != ch[j] + 1
      decreases res == OK, joined, |ch| - j
    {
      var nxt := GetFat(fs, obj, clst);
      if nxt == DISK_FAULT {
        res := DISK_ERR;
      } else if nxt != clst + 1 {
        joined := false;
      } else {
        clst, j := clst + 1, j + 1;
      }
    }
    if !joined { GapBreaksRun(ch, j); }
  }

  /** The exFAT post-processing of the chain status in remove_chain. */
  method UpdateStat(fs: Volume, obj: ObjectId, pclst: u32, ghost ch: seq<nat>)
      returns (res: Fresult, ghost joined: bool)
    requires Mounted(fs) && obj.nFrag == 0 && Sized(obj.objsize, fs.g.csize)
    requires ch != [] && InRange(ch, fs.g.nFatent) && Distinct(ch) && obj.sclust == ch[0] && pclst == ch[|ch| - 1]
    requires obj.stat == 0 ==> LinkedOn(fs.Fat(), ch, 0, |ch| - 1)
    modifies fs`disk, fs`wflag, fs`mirror, fs`winsect, fs.win, obj`stat
    ensures Mounted(fs) && fs.View() == old(fs.View()) && fs.Fat() == old(fs.Fat())
    ensures res == OK || (res == DISK_ERR && !fs.reliable)
    ensures res == OK && old(obj.stat) == 0 ==> (joined <==> Run(ch, 0, |ch| - 1))
    ensures res == OK ==> obj.stat == ShortStat(old(obj.Fields()), pclst, joined)
  {
    hide FatVolume.Volume.View, FatVolume.Volume.Fat, FatVolume.Volume.Valid;
    res, joined := OK, false;
    if obj.stat == 0 {
      var j;
      res, j := IsJoined(fs, obj, pclst, ch);
      joined := res == OK && j;
      if res == OK && j { obj.stat := 2; }
    } else if obj.stat == 3 && pclst >= obj.sclust && pclst <= obj.sclust + obj.nCont {
      obj.stat := 2;
    }
  }

  /** Marks the previous cluster as the end, unless the chain is contiguous or there is none. */
  method EndChainAt(fs: Volume, obj: ObjectId, pclst: u32, ghost ch: seq<nat>, ghost i: nat) returns (res: Fresult)
    requires Mounted(fs) && InRange(ch, fs.g.nFatent) && i < |ch| && pclst == if i == 0 then 0 else ch[i - 1]
    modifies fs`disk, fs`wflag, fs`mirror, fs`winsect, fs.win
    ensures Mounted(fs) && SameButMeta(fs.g, old(fs.View()), fs.View()) && MarksNow(fs) == old(MarksNow(fs))
    ensures res == OK ==> fs.Fat() == EndedBefore(obj.Fields(), old(fs.Fat()), ch, i)
    ensures res == OK || (res == DISK_ERR && !fs.reliable)
  {
    hide FatVolume.Volume.View, FatVolume.Volume.Fat, FatVolume.Volume.Valid, MarksNow;
    res := OK;
    if pclst != 0 && obj.stat != 2 { res := PutEntry(fs, pclst, 0xFFFF_FFFF); }
  }

  /**
   * remove_chain on exFAT from element `i`: ends the chain before it, clears bitmap runs, updates the status.
   * Exactly the removed clusters are freed, if and only if the end mark is not the number after the last cluster.
   */
  method RemoveChain(fs: Volume, obj: ObjectId, clst: u32, pclst: u32, ghost ch: seq<nat>, ghost i: nat)
      returns (res: Fresult)
    requires Mounted(fs) && Rep(obj.Fields(), fs.Fat(), ch) && obj.nFrag == 0 && AllUsed(MarksNow(fs), ch)
    requires obj.objsize > 0 && Clen(obj.objsize, fs.g.csize) == |ch| - 1 &&
             Sized(obj.objsize, fs.g.csize)
    requires i < |ch| && clst == ch[i] && pclst == if i == 0 then 0 else ch[i - 1]
    modifies fs`disk, fs`wflag, fs`mirror, fs`winsect, fs`freeClst, fs.win, obj`stat
    ensures Mounted(fs) && SameButMeta(fs.g, old(fs.View()), fs.View())
    ensures res == OK || (res == DISK_ERR && !fs.reliable)
    ensures res == OK ==> fs.Fat() == EndedBefore(old(obj.Fields()), old(fs.Fat()), ch, i)
    ensures res == OK ==> (Freed(old(MarksNow(fs)), MarksNow(fs), ch[i..]) <==>
                           !MisleadingEnd(old(obj.Fields()), old(fs.Fat()), ch))
    ensures res == OK && i > 0 ==> Rep(obj.Fields(), fs.Fat(), ch[..i])
    ensures res == OK ==> obj.stat == LeftStat(old(obj.Fields()), ch, i)
    ensures res == OK && i > 0 && old(obj.stat) == 0 ==> (obj.stat == 2 <==> Run(ch, 0, i - 1))
    ensures res == OK && i > 0 && old(obj.stat) == 3 ==> obj.stat == if i <= obj.nCont + 1 then 2 else 3
    ensures res == OK ==> fs.freeClst == Credit(old(fs.freeClst), fs.g.nFatent, |ch| - i)
  {
    hide FatVolume.Volume.View, FatVolume.Volume.Fat, FatVolume.Volume.Valid, MarksOf, Freed, RightNext, MisleadingEnd,
      Rep, LeftStat, Credit, Bitmap.ExOk, EndedBefore;
    ghost var o, fat, marks := obj.Fields(), fs.Fat(), MarksNow(fs);
    Numbers(fs.g);
    RemoveFacts(o, fat, ch, i);
    res := EndChainAt(fs, obj, pclst, ch, i);
    if res != OK { return; }
    ghost var s;
    res, s := ReleaseFrom(fs, obj, clst, ch, i);
    if res != OK { return; }
    FreedOrNot(marks, MarksNow(fs), ch, i, s);
    res := Settle(fs, obj, pclst, fat, ch, i);
  }

  /** The end of remove_chain: the status of what is left. */
  method Settle(fs: Volume, obj: ObjectId, pclst: u32, ghost fat: seq<nat>, ghost ch: seq<nat>, ghost i: nat)
      returns (res: Fresult)
    requires Mounted(fs) && Rep(obj.Fields(), fat, ch) && obj.nFrag == 0 &&
             Sized(obj.objsize, fs.g.csize)
    requires i < |ch| && pclst == (if i == 0 then 0 else ch[i - 1]) && |fat| == fs.g.nFatent
    requires fs.Fat() == EndedBefore(obj.Fields(), fat, ch, i)
    modifies fs`disk, fs`wflag, fs`mirror, fs`winsect, fs.win, obj`stat
    ensures Mounted(fs) && fs.View() == old(fs.View()) && fs.Fat() == old(fs.Fat())
    ensures res == OK || (res == DISK_ERR && !fs.reliable)
    ensures res == OK ==> obj.stat == LeftStat(old(obj.Fields()), ch, i)
    ensures res == OK && i > 0 ==> Rep(obj.Fields(), fs.Fat(), ch[..i])
  {
    assert fs.g.nFatent <= EOC;
    ghost var o := obj.Fields();
    if pclst == 0 {
      obj.stat := 0;
      res := OK;
    } else {
      ShortLinks(o, fat, ch, i);
      hide FatVolume.Volume.View, FatVolume.Volume.Fat, FatVolume.Volume.Valid, Rep, EndedBefore, LinkedOn;
      ghost var joined;
      res, joined := UpdateStat(fs, obj, pclst, ch[..i]);
      RunPrefix(ch, i);
      if res == OK { ShortRep(o, fat, ch, i, joined); }
    }
  }

  lemma ShortLinks(o: Lazy, fat: seq<nat>, ch: seq<nat>, i: nat)
    requires Rep(o, fat, ch) && o.nFrag == 0 && 0 < i < |ch| && |fat| <= EOC
    ensures InRange(ch[..i], |fat|) && Distinct(ch[..i]) && o.sclust == ch[..i][0] && ch[..i][i - 1] == ch[i - 1] != 0
    ensures o.stat == 0 ==> LinkedOn(EndedBefore(o, fat, ch, i), ch[..i], 0, i - 1)
  {
    if o.stat == 0 {
      forall k | 0 <= k < i - 1 ensures EndedBefore(o, fat, ch, i)[ch[..i][k]] == ch[..i][k + 1] {
        assert ch[k] != ch[i - 1];
        assert fat[ch[k]] == ch[k + 1];
      }
    }
  }

  lemma RestExact(free: nat, marks: seq<nat>, marks': seq<nat>, ch: seq<nat>, i: nat)
    requires InRange(ch, |marks|) && Distinct(ch) && AllUsed(marks, ch) && i < |ch| && |marks| >= 2
    ensures Freed(marks, marks', ch[i..]) && ExactCount(free, marks) ==>
            ExactCount(Credit(free, |marks|, |ch| - i), marks')
  {
    if Freed(marks, marks', ch[i..]) && ExactCount(free, marks) { FreedExact(free, marks, marks', ch[i..]); }
  }

  /** Stopping before the last run leaves its clusters in use. */
  lemma FreedOrNot(marks: seq<nat>, marks': seq<nat>, ch: seq<nat>, i: nat, s: nat)
    requires i <= s < |ch| && AllUsed(marks, ch) && Distinct(ch)
    ensures Freed(marks, marks', ch[i..s]) ==> !Freed(marks, marks', ch[i..])
  {
    var last := ch[|ch| - 1];
    assert ch[i..][|ch| - 1 - i] == last;
    assert forall j | 0 <= j < s - i :: ch[i..s][j] == ch[i + j] && ch[i + j] != last;
  }
}
