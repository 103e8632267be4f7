/** Two open files on one volume: what is done through one handle leaves the other's contents and position alone. */
module TwoFiles {
  import opened FatTable
  import opened FatVolume
  import opened FileData
  import opened FileSpace
  import opened FileAccess
  import opened FileRun
  import LazyChain
  import ChainSpec

  ghost predicate Disjoint(a: seq<nat>, b: seq<nat>) {
    forall c | c in a :: c !in b
  }

  /** Two handles that share nothing but the volume. */
  ghost predicate Neighbours(f: File, h: File)
    reads f, h
  {
    f != h && f.fs == h.fs && f.buf != h.buf && f.obj != h.obj && h.buf != f.fs.win && Disjoint(f.chain, h.chain)
  }

  /** A list grown by free clusters stays clear of another one. */
  lemma StayDisjoint(g: Geometry, fat: seq<nat>, p: Pool, p': Pool, own: seq<nat>, own': seq<nat>, o: LazyChain.Lazy,
      ch: seq<nat>)
    requires Linked(g, fat, p.table, o, ch) && Disjoint(own, ch) && Evolved(own, p, own', p')
    ensures Disjoint(own', ch)
  {
    hide Linked;
    forall c | c in own' ensures c !in ch {
      var i :| 0 <= i < |own'| && own'[i] == c;
      if i < |own| { assert own[i] == c; }
      if c in ch { ListUsed(g, fat, p.table, o, ch, c); }
    }
  }

  /** A list whose entries did not change is still linked. */
  lemma StayLinked(g: Geometry, fat: seq<nat>, table: seq<nat>, fat': seq<nat>, table': seq<nat>, o1: LazyChain.Lazy,
      own': seq<nat>, o: LazyChain.Lazy, ch: seq<nat>)
    requires Linked(g, fat, table, o, ch) && Linked(g, fat', table', o1, own') &&
             |fat'| == |fat| == |table| == |table'| && Disjoint(own', ch)
    requires forall c | 0 <= c < |fat| && c !in own' :: fat'[c] == fat[c] && table'[c] == table[c]
    ensures Linked(g, fat', table', o, ch)
  {
    LinkedRange(g, fat, table, o, ch);
    assert forall i | 0 <= i < |ch| :: ch[i] in ch && ch[i] !in own';
    if ch != [] {
      if g.kind.EXFAT? {
        LazyChain.RepFrame(o, fat, fat', ch);
      } else {
        ChainSpec.ChainKept(fat, fat', ch);
      }
    }
  }

  /** A file sector of one list is in no cluster of the other. */
  lemma NotOwn(g: Geometry, own: seq<nat>, ch: seq<nat>, q: nat)
    requires Placed(LayoutOf(g), ch, g.sectors) && Ci(LayoutOf(g), q) < |ch| && Disjoint(own, ch)
    ensures !Own(g, own, Loc(LayoutOf(g), ch, q))
  {
    LocIn(LayoutOf(g), ch, g.sectors, q);
    hide Ci, Co;
    var c, x := ch[Ci(LayoutOf(g), q)], Loc(LayoutOf(g), ch, q);
    assert c in ch && forall i | 0 <= i < |own| :: own[i] in own;
    if Own(g, own, x) {
      var i :| 0 <= i < |own| && own[i] >= 2 && InCluster(g, own[i], x);
      SameCluster(g, own[i], c, x);
      assert false;
    }
  }

  lemma SameCluster(g: Geometry, c: nat, e: nat, x: nat)
    requires c >= 2 && e >= 2 && g.csize > 0 && InCluster(g, c, x) && InCluster(g, e, x)
    ensures c == e
  {
    ClusterUnique(LayoutOf(g), c, x - ClusterBase(LayoutOf(g), c), e, x - ClusterBase(LayoutOf(g), e));
  }

  /** What a step beside `ch` keeps of it: its links, its place clear of the window, and its data. */
  lemma Undisturbed(fs: Volume, o1: LazyChain.Lazy, own: seq<nat>, own': seq<nat>, o: LazyChain.Lazy, ch: seq<nat>,
      a: Snap, p: Pool)
    requires Holds(fs, o1, own') && Aside(fs.g, own', a, SnapOf(fs)) && Evolved(own, p, own', PoolOf(fs))
    requires Linked(fs.g, FatOf(fs.g, Seen(a)), p.table, o, ch) && Placed(LayoutOf(fs.g), ch, fs.g.sectors) &&
             Disjoint(own, ch)
    requires forall q: nat | Ci(LayoutOf(fs.g), q) < |ch| :: Loc(LayoutOf(fs.g), ch, q) != a.winsect
    ensures Holds(fs, o, ch) && Disjoint(own', ch) && AgreeOn(LayoutOf(fs.g), ch, a.disk, fs.disk)
  {
    hide Ci, Co, Loc, Linked, Own, Evolved;
    var g, fat := fs.g, FatOf(fs.g, Seen(a));
    StayDisjoint(g, fat, p, PoolOf(fs), own, own', o, ch);
    FatsOf(fs);
    EvolvedFrame(own, p, own', PoolOf(fs));
    StayLinked(g, fat, p.table, fs.Fat(), TableOf(fs), o1, own', o, ch);
    LinkedRange(g, fat, p.table, o, ch);
    forall q: nat | Ci(LayoutOf(g), q) < |ch|
      ensures Loc(LayoutOf(g), ch, q) != fs.winsect && Loc(LayoutOf(g), ch, q) < |a.disk|
      ensures fs.disk[Loc(LayoutOf(g), ch, q)] == a.disk[Loc(LayoutOf(g), ch, q)]
    {
      LocApart(g, ch, q);
      NotOwn(g, own', ch, q);
      assert Seen(SnapOf(fs))[Loc(LayoutOf(g), ch, q)] == Seen(a)[Loc(LayoutOf(g), ch, q)];
    }
  }

  lemma EvolvedFrame(own: seq<nat>, p: Pool, own': seq<nat>, p': Pool)
    requires Evolved(own, p, own', p')
    ensures |p'.table| == |p.table| && forall c | 0 <= c < |p.table| && c !in own' :: p'.table[c] == p.table[c]
  {
  }

  /** What the other handle relies on, taken before the step. */
  lemma BeforeStep(h: File)
    requires h.Valid()
    ensures SnapOk(h.fs.g, SnapOf(h.fs)) &&
            Linked(h.fs.g, FatOf(h.fs.g, Seen(SnapOf(h.fs))), h.Table(), h.obj.Fields(), h.chain)
    ensures Placed(h.L(), h.chain, h.fs.g.sectors) && forall q: nat | Ci(h.L(), q) < |h.chain| ::
            Loc(h.L(), h.chain, q) != h.fs.winsect
    ensures |h.fs.disk| == h.fs.g.sectors
  {
    hide Ci, Loc, Linked;
  }

  /** One call through `f`, with `h` open beside it: `h` keeps its contents, position and clusters. */
  method DoBeside(f: File, h: File, cmd: Cmd) returns (r: Reply)
    requires f.Valid() && h.Valid() && Neighbours(f, h) && f.canRead && f.canWrite && Callable(cmd)
    modifies f, f.buf, f.fs, f.fs.win, f.obj
    ensures f.Valid() && h.Valid() && Neighbours(f, h)
    ensures Step(f.fs.g.kind, ClusterBytes(f.L()), old(StateOf(f)), cmd, r, StateOf(f))
    ensures h.Text() == old(h.Text()) && h.fptr == old(h.fptr) && h.chain == old(h.chain) && h.Space() == f.Space()
  {
    hide Ci, Co, Loc, Room, Content, Linked, Holds, Aside, Evolved, Step, TableOf, FileAccess.File.Tidy,
      FileAccess.File.Cursor, Tight;
    BeforeStep(h);
    h.SaneParts();
    SharedTable(f, h);
    ghost var a, p, d := SnapOf(f.fs), f.Space(), h.Disk();
    r := Do(f, cmd);
    SaneHolds(f);
    Undisturbed(f.fs, f.obj.Fields(), old(f.chain), f.chain, h.obj.Fields(), h.chain, a, p);
    HoldsPlaced(f.fs, h.obj.Fields(), h.chain);
    EffectiveAgrees(h.fs.g, h.chain, a.disk, h.fs.disk, h.dirty, h.sect, h.buf[..]);
    ContentSame(h.L(), d, h.Disk(), h.chain, h.objsize);
  }

  lemma SharedTable(f: File, h: File)
    requires f.Sane() && h.Sane() && f.fs == h.fs
    ensures f.Table() == h.Table() == TableOf(f.fs)
  {
  }

  lemma SaneHolds(f: File)
    requires f.Sane()
    ensures Holds(f.fs, f.obj.Fields(), f.chain) && f.Space() == PoolOf(f.fs)
  {
  }

  /** A call through the first or the second handle. */
  datatype Call = Call(second: bool, cmd: Cmd)

  /** The user's part of a state. */
  ghost predicate SameView(s: State, s': State) { s'.text == s.text && s'.at == s.at && s'.chain == s.chain }

  /** One call of an interleaving: a step of its own handle, nothing for the other; both draw on the same pool. */
  ghost predicate Turn(kind: Kind, cb: nat, call: Call, r: Reply, f: State, h: State, f': State, h': State) {
    && f.pool == h.pool && f'.pool == h'.pool
    && if call.second then Step(kind, cb, h, call.cmd, r, h') && SameView(f, f')
       else Step(kind, cb, f, call.cmd, r, f') && SameView(h, h')
  }

  /**
   * Any interleaving of calls on two handles with disjoint clusters: each sees its own contents change by its own calls
   * only.
   */
  method RunBoth(f: File, h: File, calls: seq<Call>)
      returns (replies: seq<Reply>, ghost fs: seq<State>, ghost hs: seq<State>)
    requires f.Valid() && h.Valid() && Neighbours(f, h) && Neighbours(h, f) && f.canRead && f.canWrite && h.canRead &&
             h.canWrite
    requires forall k | 0 <= k < |calls| :: Callable(calls[k].cmd)
    modifies f, f.buf, f.fs, f.fs.win, f.obj, h, h.buf, h.obj
    ensures f.Valid() && h.Valid() && Neighbours(f, h) && |replies| == |calls| && |fs| == |hs| == |calls| + 1
    ensures fs[0] == old(StateOf(f)) && hs[0] == old(StateOf(h)) && fs[|calls|] == StateOf(f) &&
            hs[|calls|] == StateOf(h)
    ensures forall k | 0 <= k < |calls| ::
              Turn(f.fs.g.kind, ClusterBytes(f.L()), calls[k], replies[k], fs[k], hs[k], fs[k + 1], hs[k + 1])
  {
    hide Step, FileAccess.File.Sane, FileAccess.File.Text, FileAccess.File.Table, FileAccess.File.Tidy,
      FileAccess.File.Cursor, Disjoint, Callable;
    ghost var kind, cb := f.fs.g.kind, ClusterBytes(f.L());
    SharedTable(f, h);
    replies, fs, hs := [], [StateOf(f)], [StateOf(h)];
    var i := 0;
    while i < |calls|
      invariant 0 <= i <= |calls| && |replies| == i && |fs| == |hs| == i + 1 && cb == ClusterBytes(f.L())
      invariant f.Valid() && h.Valid() && Neighbours(f, h) && Neighbours(h, f) && f.Space() == h.Space()
      invariant fs[0] == old(StateOf(f)) && hs[0] == old(StateOf(h)) && fs[i] == StateOf(f) && hs[i] == StateOf(h)
      invariant forall k | 0 <= k < i :: Turn(kind, cb, calls[k], replies[k], fs[k], hs[k], fs[k + 1], hs[k + 1])
    {
      var r;
      if calls[i].second {
        r := DoBeside(h, f, calls[i].cmd);
        DisjointBoth(h.chain, f.chain);
      } else {
        r := DoBeside(f, h, calls[i].cmd);
        DisjointBoth(f.chain, h.chain);
      }
      replies, fs, hs := replies + [r], fs + [StateOf(f)], hs + [StateOf(h)];
      i := i + 1;
    }
  }

  lemma DisjointBoth(a: seq<nat>, b: seq<nat>)
    requires Disjoint(a, b)
    ensures Disjoint(b, a)
  {
  }
}
