/** Several exFAT objects on one volume: runs of create_chain and remove_chain, and writing an object's list out. */
module ExfatRun {
  import opened Bytes
  import opened Arith
  import opened FatVolume
  import opened Bitmap
  import opened LazyChain
  import opened Exfat
  import ChainSpec

  /** FAT, bitmap, free count and hint, and every object with its size and the list it stands for. */
  datatype World = World(fat: seq<nat>, marks: seq<nat>, free: nat, last: nat, objs: seq<Lazy>, sizes: seq<nat>,
    chains: seq<seq<nat>>)
  {
    predicate Shaped() {
      |objs| == |sizes| == |chains| && 3 <= |fat| == |marks| <= EOC
    }
  }

  /**
   * create_chain behind object `k`'s list, remove_chain from its element `i`, or fill_last_frag;
   * `size` is what the user of the call sets the size to after success.
   */
  datatype Op = Grow(k: nat, size: nat) | Cut(k: nat, i: nat, size: nat) | Flush(k: nat)

  ghost predicate ObjectOk(o: Lazy, fat: seq<nat>, ch: seq<nat>) {
    if ch == [] then o.nFrag == 0 && o.sclust == 0 else Rep(o, fat, ch)
  }

  /** A size that needs exactly `n` clusters. */
  predicate Needs(size: nat, n: nat, csize: nat)
    requires csize > 0
  {
    if n == 0 then size == 0 else size > 0 && Clen(size, csize) == n - 1
  }

  /**
   * Lists are disjoint, the marked clusters are exactly theirs and the reserved ones, and a count in range is exact.
   */
  ghost predicate Inv(w: World, csize: nat, reserved: set<nat>) {
    && w.Shaped() && csize > 0
    && (forall k | 0 <= k < |w.objs| ::
      ObjectOk(w.objs[k], w.fat, w.chains[k]) && Needs(w.sizes[k], |w.chains[k]|, csize))
    && ChainSpec.Disjoint(w.chains) && (forall c | c in reserved :: !ChainSpec.InSome(w.chains, c))
    && (forall c | 2 <= c < |w.marks| :: w.marks[c] != 0 <==> c in reserved || ChainSpec.InSome(w.chains, c))
    && ExactCount(w.free, w.marks) && ChainSpec.Sound(w.marks)
  }

  /** Requests that name an object, or a cluster of one whose list is on the FAT and does not end misleadingly. */
  ghost predicate Sensible(w: World, csize: nat, op: Op)
    requires w.Shaped()
  {
    csize > 0
    && match op
       case Grow(k, size) => k < |w.chains| && Needs(size, |w.chains[k]| + 1, csize)
       case Cut(k, i, size) =>
         && k < |w.chains| && i < |w.chains[k]| && Needs(size, i, csize)
         && w.objs[k].nFrag == 0 && InRange(w.chains[k], |w.fat|) && !MisleadingEnd(w.objs[k], w.fat, w.chains[k])
       case Flush(k) => k < |w.chains|
  }

  function Last(ch: seq<nat>): nat { if ch == [] then 0 else ch[|ch| - 1] }

  /**
   * Object and FAT once `r` is taken behind list `ch`; a last cluster that cannot be the object's leaves them alone.
   */
  function Entered(o: Lazy, fat: seq<nat>, ch: seq<nat>, r: nat): (p: (Lazy, seq<nat>))
    ensures |p.1| == |fat|
  {
    if ch == [] then (o.(stat := 2, sclust := r), fat)
    else if CanEndAt(o, fat, Last(ch)) then Append(o, fat, Last(ch), r)
    else (o, fat)
  }

  /** The bitmap with the clusters `gone` cleared. */
  function Cleared(marks: seq<nat>, gone: seq<nat>): (r: seq<nat>)
    ensures |r| == |marks|
  {
    seq(|marks|, c requires 0 <= c < |marks| => if c in gone then 0 else marks[c])
  }

  /** One call: what it does to FAT, bitmap, count and hint, to the object, and to the list it stands for. */
  ghost function Step(w: World, csize: nat, op: Op): (w': World)
    requires w.Shaped() && Sensible(w, csize, op)
    ensures w'.Shaped()
  {
    match op
    case Grow(k, size) =>
      var ch := w.chains[k];
      var r := Chosen(w.free, w.last, w.marks, Last(ch));
      if !(2 <= r < |w.marks|) then w
      else
        var (o, fat) := Entered(w.objs[k], w.fat, ch, r);
        World(fat, w.marks[r := 2], Charge(w.free, |w.marks|), r, w.objs[k := o], w.sizes[k := size],
          w.chains[k := ch + [r]])
    case Cut(k, i, size) =>
      var ch, o := w.chains[k], w.objs[k];
      World(EndedBefore(o, w.fat, ch, i), Cleared(w.marks, ch[i..]), Credit(w.free, |w.marks|, |ch| - i), w.last,
            w.objs[k := o.(stat := LeftStat(o, ch, i), sclust := if i == 0 then 0 else o.sclust)],
            w.sizes[k := size], w.chains[k := ch[..i]])
    case Flush(k) =>
      var ch, o := w.chains[k], w.objs[k];
      if ch != [] && o.nFrag <= Last(ch) < |w.fat| then
        w.(fat := FillLast(w.fat, Last(ch), o.nFrag, EOC), objs := w.objs[k := o.(nFrag := 0)])
      else w
  }

  // ---------- every step keeps the invariant ----------

  /** With an exact or unknown count, no cluster can be had exactly when all are marked. */
  lemma ChosenMeans(w: World, clst: nat)
    requires w.Shaped() && ExactCount(w.free, w.marks) && ChainSpec.Sound(w.marks)
    ensures var r := Chosen(w.free, w.last, w.marks, clst);
            && (r == 0 <==> ChainSpec.NoneFree(w.marks))
            && (r != 0 ==> 2 <= r < |w.marks| && w.marks[r] == 0 && w.free > 0)
  {
    var scl := if clst != 0 then clst else if w.last == 0 || w.last >= |w.marks| then 1 else w.last;
    FindIsComplete(w.marks, if 2 <= scl < |w.marks| then scl - 1 else 1);
    if w.free == 0 {
      forall c | 2 <= c < |w.marks| ensures w.marks[c] != 0 {
        if w.marks[c] == 0 { ChainSpec.ZerosPositive(w.marks, |w.marks|, c); }
      }
    }
  }

  lemma OtherObjects(w: World, fat': seq<nat>, k: nat, l: nat)
    requires |w.objs| == |w.chains| && k < |w.chains| && l < |w.chains| && k != l && ChainSpec.Disjoint(w.chains)
    requires ObjectOk(w.objs[l], w.fat, w.chains[l])
    requires |fat'| == |w.fat| && forall c | 0 <= c < |w.fat| && c !in w.chains[k] :: fat'[c] == w.fat[c]
    ensures ObjectOk(w.objs[l], fat', w.chains[l])
  {
    var ch := w.chains[l];
    if ch != [] {
      RepBounds(w.objs[l], w.fat, ch);
      forall i | 0 <= i < |ch| ensures ch[i] < |w.fat| && fat'[ch[i]] == w.fat[ch[i]] {
        assert ch[i] in w.chains[l];
        assert ch[i] !in w.chains[k];
      }
      RepFrame(w.objs[l], w.fat, fat', ch);
    }
  }

  lemma GrowKeeps(w: World, csize: nat, k: nat, size: nat, reserved: set<nat>)
    requires Inv(w, csize, reserved) && Sensible(w, csize, Grow(k, size))
    ensures Inv(Step(w, csize, Grow(k, size)), csize, reserved)
    ensures Step(w, csize, Grow(k, size)).chains == w.chains <==> ChainSpec.NoneFree(w.marks)
  {
    hide Rep, ExactCount, Chosen, Append, ChainSpec.Sound, ChainSpec.NoneFree, Charge, Clen, CanEndAt;
    var ch := w.chains[k];
    ChosenMeans(w, Last(ch));
    var r := Chosen(w.free, w.last, w.marks, Last(ch));
    if r != 0 {
      var w' := Step(w, csize, Grow(k, size));
      assert !ChainSpec.InSome(w.chains, r) && r !in reserved;
      EnteredRep(w.objs[k], w.fat, ch, r);
      TakenExact(w.free, w.marks, r);
      SoundMark(w.marks, r);
      forall l | 0 <= l < |w'.objs| ensures ObjectOk(w'.objs[l], w'.fat, w'.chains[l]) &&
        Needs(w'.sizes[l], |w'.chains[l]|, csize) {
        if l != k { OtherObjects(w, w'.fat, k, l); }
      }
      GrownLists(w.chains, k, r);
      assert w'.chains[k] != w.chains[k];
    }
  }

  lemma SoundMark(marks: seq<nat>, r: nat)
    requires ChainSpec.Sound(marks) && r < |marks|
    ensures ChainSpec.Sound(marks[r := 2])
  {
  }

  /** A cluster outside the list is appended to what the object stands for, and no other entry changes. */
  lemma EnteredRep(o: Lazy, fat: seq<nat>, ch: seq<nat>, r: nat)
    requires ObjectOk(o, fat, ch) && 2 <= r < |fat| && r !in ch
    ensures var (o', fat') := Entered(o, fat, ch, r);
            ObjectOk(o', fat', ch + [r]) && forall c | 0 <= c < |fat| && c !in ch :: fat'[c] == fat[c]
  {
    hide Rep, Append;
    if ch == [] {
      NewChainRep(fat, r, o.nCont);
      assert ch + [r] == [r];
    } else {
      AppendKeepsRep(o, fat, ch, r);
    }
  }

  /** Appending a cluster no list holds. */
  lemma GrownLists(chains: seq<seq<nat>>, k: nat, r: nat)
    requires k < |chains| && ChainSpec.Disjoint(chains) && !ChainSpec.InSome(chains, r)
    ensures ChainSpec.Disjoint(chains[k := chains[k] + [r]])
    ensures forall c :: ChainSpec.InSome(chains[k := chains[k] + [r]], c) <==> ChainSpec.InSome(chains, c) || c == r
  {
    var g := chains[k := chains[k] + [r]];
    forall l, m, c | 0 <= l < m < |g| && c in g[l] ensures c !in g[m] {
      assert c == r || c in chains[l];
    }
    forall c ensures ChainSpec.InSome(g, c) <==> ChainSpec.InSome(chains, c) || c == r {
      if ChainSpec.InSome(chains, c) {
        var l :| 0 <= l < |chains| && c in chains[l];
        assert c in g[l];
      }
      assert r in g[k];
    }
  }

  /** Dropping the end of one list. */
  lemma CutLists(chains: seq<seq<nat>>, k: nat, i: nat)
    requires k < |chains| && i < |chains[k]| && ChainSpec.Disjoint(chains) && Distinct(chains[k])
    ensures ChainSpec.Disjoint(chains[k := chains[k][..i]])
    ensures forall c :: ChainSpec.InSome(chains[k := chains[k][..i]], c) <==>
            ChainSpec.InSome(chains, c) && c !in chains[k][i..]
  {
    var ch, g := chains[k], chains[k := chains[k][..i]];
    assert forall c | c in ch[..i] :: c in ch;
    forall c ensures ChainSpec.InSome(g, c) <==> ChainSpec.InSome(chains, c) && c !in ch[i..] {
      Parts(ch, i, c);
      if ChainSpec.InSome(chains, c) && c !in ch[i..] {
        var l :| 0 <= l < |chains| && c in chains[l];
        assert c in g[l];
      }
      if ChainSpec.InSome(g, c) {
        var l :| 0 <= l < |g| && c in g[l];
        assert c in chains[l];
        assert l != k ==> c !in chains[k];
      }
    }
  }

  lemma Parts(ch: seq<nat>, i: nat, c: nat)
    requires i <= |ch| && Distinct(ch)
    ensures c in ch <==> c in ch[..i] || c in ch[i..]
    ensures !(c in ch[..i] && c in ch[i..])
  {
    assert ch == ch[..i] + ch[i..];
  }

  lemma CutKeeps(w: World, csize: nat, k: nat, i: nat, size: nat, reserved: set<nat>)
    requires Inv(w, csize, reserved) && Sensible(w, csize, Cut(k, i, size))
    ensures Inv(Step(w, csize, Cut(k, i, size)), csize, reserved)
  {
    hide Rep, ExactCount, MisleadingEnd, Credit, LeftStat, EndedBefore, Clen;
    var ch, w' := w.chains[k], Step(w, csize, Cut(k, i, size));
    UsedObject(w, csize, reserved, k);
    CutRep(w.objs[k], w.fat, ch, i);
    RestExact(w.free, w.marks, w'.marks, ch, i);
    forall l | 0 <= l < |w'.objs| ensures ObjectOk(w'.objs[l], w'.fat, w'.chains[l]) &&
      Needs(w'.sizes[l], |w'.chains[l]|, csize) {
      if l != k { OtherObjects(w, w'.fat, k, l); }
    }
    CutLists(w.chains, k, i);
    forall c | c in ch[i..] ensures ChainSpec.InSome(w.chains, c) && c !in reserved {
      Parts(ch, i, c);
      assert c in w.chains[k];
    }
  }

  /** What is left of a list is what the object stands for, and no other entry changes. */
  lemma CutRep(o: Lazy, fat: seq<nat>, ch: seq<nat>, i: nat)
    requires Rep(o, fat, ch) && o.nFrag == 0 && i < |ch| && |fat| <= EOC
    ensures InRange(ch, |fat|)
    ensures ObjectOk(o.(stat := LeftStat(o, ch, i), sclust := if i == 0 then 0 else o.sclust),
            EndedBefore(o, fat, ch, i), ch[..i])
    ensures forall c | 0 <= c < |fat| && c !in ch :: EndedBefore(o, fat, ch, i)[c] == fat[c]
  {
    hide Rep;
    RepBounds(o, fat, ch);
    if i > 0 {
      ShortRep(o, fat, ch, i, Run(ch, 0, i - 1));
      assert ch[i - 1] in ch;
    }
  }

  /** What Inv says of one object. */
  lemma UsedObject(w: World, csize: nat, reserved: set<nat>, k: nat)
    requires Inv(w, csize, reserved) && k < |w.objs|
    ensures AllUsed(w.marks, w.chains[k]) && ObjectOk(w.objs[k], w.fat, w.chains[k]) &&
            Needs(w.sizes[k], |w.chains[k]|, csize)
    ensures InRange(w.chains[k], |w.fat|) && Distinct(w.chains[k])
  {
    hide Rep, Clen;
    var ch := w.chains[k];
    if ch != [] {
      RepBounds(w.objs[k], w.fat, ch);
      forall i | 0 <= i < |ch| ensures ch[i] < |w.marks| && w.marks[ch[i]] != 0 {
        assert ch[i] in w.chains[k];
        assert ChainSpec.InSome(w.chains, ch[i]);
      }
    }
  }

  lemma FlushKeeps(w: World, csize: nat, k: nat, reserved: set<nat>)
    requires Inv(w, csize, reserved) && Sensible(w, csize, Flush(k))
    ensures Inv(Step(w, csize, Flush(k)), csize, reserved)
    ensures k < |w.objs| && Step(w, csize, Flush(k)).objs[k].nFrag == 0
  {
    hide Rep, ExactCount, FillLast, Clen;
    var ch, w' := w.chains[k], Step(w, csize, Flush(k));
    if ch != [] {
      RepBounds(w.objs[k], w.fat, ch);
      FlushedRep(w.objs[k], w.fat, ch);
      forall l | 0 <= l < |w'.objs| ensures ObjectOk(w'.objs[l], w'.fat, w'.chains[l]) &&
        Needs(w'.sizes[l], |w'.chains[l]|, csize) {
        if l != k { OtherObjects(w, w'.fat, k, l); }
      }
    }
  }

  lemma FlushedRep(o: Lazy, fat: seq<nat>, ch: seq<nat>)
    requires Rep(o, fat, ch) && |fat| <= EOC
    ensures ch != [] && o.nFrag <= Last(ch) < |fat|
    ensures var fat' := FillLast(fat, Last(ch), o.nFrag, EOC);
            Rep(o.(nFrag := 0), fat', ch) && forall c | 0 <= c < |fat| && c !in ch :: fat'[c] == fat[c]
  {
    RepBounds(o, fat, ch);
    if o.nFrag > 0 {
      hide Rep;
      FlushKeepsRep(o, fat, ch);
    }
  }

  lemma StepKeeps(w: World, csize: nat, op: Op, reserved: set<nat>)
    requires Inv(w, csize, reserved) && Sensible(w, csize, op)
    ensures Inv(Step(w, csize, op), csize, reserved)
  {
    hide Inv, Step, Sensible;
    match op
    case Grow(k, size) => GrowKeeps(w, csize, k, size, reserved);
    case Cut(k, i, size) => CutKeeps(w, csize, k, i, size, reserved);
    case Flush(k) => FlushKeeps(w, csize, k, reserved);
  }

  // ---------- whole runs ----------

  ghost predicate IsRun(w: World, csize: nat, ops: seq<Op>)
    requires w.Shaped()
    decreases |ops|
  {
    ops == [] || (Sensible(w, csize, ops[0]) && IsRun(Step(w, csize, ops[0]), csize, ops[1..]))
  }

  ghost function After(w: World, csize: nat, ops: seq<Op>): (w': World)
    requires w.Shaped() && IsRun(w, csize, ops)
    ensures w'.Shaped()
    decreases |ops|
  {
    if ops == [] then w else After(Step(w, csize, ops[0]), csize, ops[1..])
  }

  /** Over every run on any number of objects the lists stay disjoint, the marks exactly theirs, the count exact. */
  lemma {:induction false} RunKeeps(w: World, csize: nat, ops: seq<Op>, reserved: set<nat>)
    requires w.Shaped() && Inv(w, csize, reserved) && IsRun(w, csize, ops)
    ensures Inv(After(w, csize, ops), csize, reserved)
    decreases |ops|
  {
    hide Inv, Step, Sensible;
    if ops != [] {
      StepKeeps(w, csize, ops[0], reserved);
      RunKeeps(Step(w, csize, ops[0]), csize, ops[1..], reserved);
    }
  }

  // ---------- the same on a mounted volume ----------

  /** The volume holds the world's FAT, marks, count and hint. */
  ghost predicate Shows(fs: Volume, w: World)
    reads fs
    reads fs.win
  {
    && Mounted(fs) && fs.reliable && fs.Fat() == w.fat && MarksNow(fs) == w.marks
    && fs.freeClst == w.free && fs.lastClst == w.last
  }

  /** The objects in memory are those of the world. */
  ghost predicate InMemory(objs: seq<ObjectId>, w: World)
    reads objs
  {
    && |objs| == |w.objs| == |w.sizes| && (forall i, j | 0 <= i < j < |objs| :: objs[i] != objs[j])
    && forall k | 0 <= k < |objs| :: objs[k].Fields() == w.objs[k] && objs[k].objsize == w.sizes[k]
  }

  /** The size keeps get_fat's arithmetic within 32 bits. */
  lemma SizeFits(w: World, csize: nat, reserved: set<nat>, k: nat)
    requires Inv(w, csize, reserved) && k < |w.objs|
    ensures w.sizes[k] / 512 / csize < 0x1_0000_0000
  {
    UsedObject(w, csize, reserved, k);
    hide Inv, Rep;
    DistinctFit(w.chains[k], Below(|w.fat|));
    NeedsBound(w.sizes[k], |w.chains[k]|, csize);
  }

  lemma NeedsBound(size: nat, n: nat, csize: nat)
    requires csize > 0 && Needs(size, n, csize)
    ensures size / 512 / csize <= n
  {
    if n > 0 {
      QuotRem((size - 1) / 512, csize);
      assert csize * n == csize * (n - 1) + csize;
      DivMono(size / 512, csize * n, csize);
      RemainderIs(csize * n, csize, n, 0);
    }
  }

  /**
   * create_chain behind object `k`'s list; its start is entered when it is the first cluster, its size when a cluster
   * was had.
   */
  method PerformGrow(fs: Volume, objs: seq<ObjectId>, k: nat, size: nat, chains: seq<seq<nat>>, ghost w: World,
      ghost reserved: set<nat>) returns (chains': seq<seq<nat>>)
    requires fs.g.csize > 0 && Inv(w, fs.g.csize, reserved) && Shows(fs, w) && InMemory(objs, w) && chains == w.chains
    requires Sensible(w, fs.g.csize, Grow(k, size))
    modifies fs, fs.win, objs
    ensures var w' := Step(w, fs.g.csize, Grow(k, size)); Shows(fs, w') && InMemory(objs, w') && chains' == w'.chains
    ensures SameButMeta(fs.g, old(fs.View()), fs.View())
  {
    hide FatVolume.Volume.View, FatVolume.Volume.Fat, FatVolume.Volume.Valid, Rep, MarksOf, Bitmap.ExOk, ExactCount,
      ChainSpec.NoneFree, ChainSpec.Sound,
      Inv, Chosen, Append, SameButMeta, Clen;
    InvCounts(w, fs.g.csize, reserved);
    var ch, obj := chains[k], objs[k];
    UsedObject(w, fs.g.csize, reserved, k);
    SizeFits(w, fs.g.csize, reserved, k);
    ChosenMeans(w, Last(ch));
    LastInRange(ch, |w.fat|);
    var r := CreateChain(fs, obj, Last(ch), ch, if |ch| > 0 then |ch| - 1 else 0);
    chains' := chains;
    if r != 0 {
      if ch == [] { obj.sclust := r; }
      obj.objsize := size;
      chains' := chains[k := ch + [r]];
    }
  }

  lemma LastInRange(ch: seq<nat>, n: nat)
    requires InRange(ch, n) && n < 0x1_0000_0000
    ensures Last(ch) < 0x1_0000_0000 && (Last(ch) == 0 <==> ch == [])
  {
  }

  lemma InvCounts(w: World, csize: nat, reserved: set<nat>)
    requires Inv(w, csize, reserved)
    ensures w.Shaped() && ExactCount(w.free, w.marks) && ChainSpec.Sound(w.marks)
  {
  }

  /** remove_chain from element `i` of object `k`; its start is cleared when nothing is left. */
  method PerformCut(fs: Volume, objs: seq<ObjectId>, k: nat, i: nat, size: nat, chains: seq<seq<nat>>, ghost w: World,
      ghost reserved: set<nat>) returns (chains': seq<seq<nat>>)
    requires fs.g.csize > 0 && Inv(w, fs.g.csize, reserved) && Shows(fs, w) && InMemory(objs, w) && chains == w.chains
    requires Sensible(w, fs.g.csize, Cut(k, i, size))
    modifies fs, fs.win, objs
    ensures var w' := Step(w, fs.g.csize, Cut(k, i, size)); Shows(fs, w') && InMemory(objs, w') && chains' == w'.chains
    ensures SameButMeta(fs.g, old(fs.View()), fs.View())
  {
    hide FatVolume.Volume.View, FatVolume.Volume.Fat, FatVolume.Volume.Valid, Rep, MarksOf, Bitmap.ExOk, Freed,
      MisleadingEnd, Inv, SameButMeta, Clen,
      Credit, LeftStat, EndedBefore, Cleared;
    InvCounts(w, fs.g.csize, reserved);
    var ch, obj := chains[k], objs[k];
    UsedObject(w, fs.g.csize, reserved, k);
    SizeFits(w, fs.g.csize, reserved, k);
    var res := RemoveChain(fs, obj, ch[i], if i == 0 then 0 else ch[i - 1], ch, i);
    FreedIsCleared(w.marks, MarksNow(fs), ch[i..]);
    if i == 0 { obj.sclust := 0; }
    obj.objsize := size;
    chains' := chains[k := ch[..i]];
  }

  /** fill_last_frag for object `k`. */
  method PerformFlush(fs: Volume, objs: seq<ObjectId>, k: nat, chains: seq<seq<nat>>, ghost w: World,
      ghost reserved: set<nat>)
    requires fs.g.csize > 0 && Inv(w, fs.g.csize, reserved) && Shows(fs, w) && InMemory(objs, w) && chains == w.chains
    requires Sensible(w, fs.g.csize, Flush(k))
    modifies fs, fs.win, objs
    ensures var w' := Step(w, fs.g.csize, Flush(k)); Shows(fs, w') && InMemory(objs, w') && chains == w'.chains
    ensures SameButMeta(fs.g, old(fs.View()), fs.View())
  {
    hide FatVolume.Volume.View, FatVolume.Volume.Fat, FatVolume.Volume.Valid, Rep, MarksOf, Bitmap.ExOk, Inv,
      SameButMeta, Clen, FillLast;
    InvCounts(w, fs.g.csize, reserved);
    var ch, obj := chains[k], objs[k];
    UsedObject(w, fs.g.csize, reserved, k);
    SameMeta(fs.g, fs.View());
    if ch != [] {
      RepBounds(obj.Fields(), fs.Fat(), ch);
      var res := FillLastFrag(fs, obj, Last(ch), 0xFFFF_FFFF);
    }
  }

  lemma FreedIsCleared(marks: seq<nat>, marks': seq<nat>, gone: seq<nat>)
    requires Freed(marks, marks', gone)
    ensures marks' == Cleared(marks, gone)
  {
  }

  /**
   * Any run on a mounted volume with any number of objects: it follows the world, so the invariant holds, and nothing
   * outside FAT and bitmap changes.
   */
  method RunObjects(fs: Volume, objs: seq<ObjectId>, ops: seq<Op>, chains0: seq<seq<nat>>, ghost w0: World,
      ghost reserved: set<nat>) returns (chains: seq<seq<nat>>)
    requires fs.g.csize > 0 && Inv(w0, fs.g.csize, reserved) && Shows(fs, w0) && InMemory(objs, w0) &&
             chains0 == w0.chains
    requires IsRun(w0, fs.g.csize, ops)
    modifies fs, fs.win, objs
    ensures var w := After(w0, fs.g.csize, ops);
            Shows(fs, w) && InMemory(objs, w) && chains == w.chains && Inv(w, fs.g.csize, reserved)
    ensures SameButMeta(fs.g, old(fs.View()), fs.View())
  {
    hide FatVolume.Volume.View, FatVolume.Volume.Fat, FatVolume.Volume.Valid, MarksOf, Bitmap.ExOk, Inv, Step, Sensible,
      SameButMeta, InMemory;
    ghost var w, csize := w0, fs.g.csize;
    InvCounts(w, csize, reserved);
    SameMeta(fs.g, fs.View());
    chains := chains0;
    var i := 0;
    assert ops[0..] == ops;
    while i < |ops|
      invariant 0 <= i <= |ops| && Inv(w, csize, reserved) && w.Shaped() && Shows(fs, w) && InMemory(objs, w) &&
                chains == w.chains
      invariant IsRun(w, csize, ops[i..]) && After(w, csize, ops[i..]) == After(w0, csize, ops)
      invariant SameButMeta(fs.g, old(fs.View()), fs.View())
    {
      ghost var v := fs.View();
      RunStep(w, csize, ops, i);
      StepKeeps(w, csize, ops[i], reserved);
      match ops[i] {
        case Grow(k, size) => chains := PerformGrow(fs, objs, k, size, chains, w, reserved);
        case Cut(k, j, size) => chains := PerformCut(fs, objs, k, j, size, chains, w, reserved);
        case Flush(k) => PerformFlush(fs, objs, k, chains, w, reserved);
      }
      SameMetaTrans(fs.g, old(fs.View()), v, fs.View());
      w := Step(w, csize, ops[i]);
      i := i + 1;
    }
  }

  lemma RunStep(w: World, csize: nat, ops: seq<Op>, i: nat)
    requires i < |ops| && w.Shaped() && IsRun(w, csize, ops[i..])
    ensures Sensible(w, csize, ops[i]) && IsRun(Step(w, csize, ops[i]), csize, ops[i + 1..])
    ensures After(w, csize, ops[i..]) == After(Step(w, csize, ops[i]), csize, ops[i + 1..])
  {
    hide Step, Sensible;
    assert ops[i..][0] == ops[i] && ops[i..][1..] == ops[i + 1..];
  }

  // ---------- f_sync ----------

  /**
   * f_sync on exFAT, from a cursor that is in the last cluster if a fragment is pending there: a list that is not
   * contiguous
   * goes to the FAT exactly as it is; a contiguous one stays off it; no other entry changes.
   */
  method WriteOut(fs: Volume, obj: ObjectId, clust: u32, ghost ch: seq<nat>)
    requires Mounted(fs) && fs.reliable && Rep(obj.Fields(), fs.Fat(), ch) && (obj.nFrag != 0 ==> clust == ch[|ch| - 1])
    modifies fs`disk, fs`wflag, fs`mirror, fs`winsect, fs.win, obj`stat, obj`nFrag
    ensures Mounted(fs) && MarksNow(fs) == old(MarksNow(fs)) && Rep(obj.Fields(), fs.Fat(), ch) && obj.nFrag == 0
    ensures if old(obj.stat) == 2 then obj.stat == 2 && fs.Fat() == old(fs.Fat())
            else obj.stat == 0 && ChainSpec.Chain(fs.Fat(), ch)
    ensures forall c | 0 <= c < fs.g.nFatent && c !in ch :: fs.Fat()[c] == old(fs.Fat())[c]
    ensures SameButMeta(fs.g, old(fs.View()), fs.View()) && Parked(fs.g, old(fs.winsect), fs.winsect)
  {
    hide FatVolume.Volume.View, FatVolume.Volume.Fat, FatVolume.Volume.Valid, Rep, MarksNow, Bitmap.ExOk, SameButMeta,
      InBits, FillFirst;
    Numbers(fs.g);
    ghost var o, fat := obj.Fields(), fs.Fat();
    StatIs(o, fat, ch);
    RepBounds(o, fat, ch);
    if obj.stat != 2 { FinishLeavesChain(o, fat, ch); }
    if obj.stat == 3 { FillFirstLinks(o, fat, ch); }
    var res := FillFirstFrag(fs, obj);
    if obj.nFrag != 0 {
      ghost var v := fs.View();
      res := FillLastFrag(fs, obj, clust, 0xFFFF_FFFF);
      SameMetaTrans(fs.g, old(fs.View()), v, fs.View());
    }
    if o.stat != 2 { ChainIsRep(obj.Fields(), fs.Fat(), ch); }
  }

  /** A list that is wholly on the FAT. */
  lemma ChainIsRep(o: Lazy, fat: seq<nat>, ch: seq<nat>)
    requires ChainSpec.Chain(fat, ch) && o.stat == 0 && o.nFrag == 0 && o.sclust == ch[0] && Distinct(ch)
    ensures Rep(o, fat, ch)
  {
  }

  lemma StatIs(o: Lazy, fat: seq<nat>, ch: seq<nat>)
    requires Rep(o, fat, ch)
    ensures (o.stat == 0 || o.stat == 2 || o.stat == 3) && o.sclust >= 2 && ch != [] && o.sclust == ch[0] &&
            (o.stat == 2 ==> o.nFrag == 0)
  {
  }
}
