/**
 * Whole sessions on one read/write handle: any order of reads, writes and seeks is splice and slice on a byte sequence.
 */
module FileRun {
  import opened Arith
  import opened Bytes
  import opened FatTable
  import opened FileData
  import opened FileSpace
  import opened FileAccess
  import ChainSpec
  import Exfat

  /**
   * The file as its user sees it, contents and position, and the space it lives in: its clusters and where more come
   * from.
   */
  datatype State = State(text: seq<byte>, at: nat, chain: seq<nat>, pool: Pool)

  datatype Cmd = DoRead(n: nat) | DoWrite(data: seq<byte>) | DoSeek(ofs: nat)

  datatype Reply = Got(data: seq<byte>) | Put(count: nat) | Moved

  /** What every state of a file meets; `cb` is the size of a cluster in bytes. */
  ghost predicate Lawful(kind: Kind, cb: nat, s: State) {
    && s.at <= |s.text| <= MaxSize(kind) && |s.text| <= cb * |s.chain| && |s.pool.table| >= 3
    && (forall i, j | 0 <= i < j < |s.chain| :: s.chain[i] != s.chain[j])
    && forall i | 0 <= i < |s.chain| :: s.chain[i] < |s.pool.table| && s.pool.table[s.chain[i]] != 0
  }

  /** The user's view after `r` bytes of `data` went in. */
  predicate Spliced(s: State, data: seq<byte>, r: nat, s': State)
    requires s.at <= |s.text|
  {
    r <= |data| && s'.text == Splice(s.text, s.at, data[..r]) && s'.at == s.at + r
  }

  /** Stopped before `goal` only at the end of the last cluster, no other one to be had. */
  ghost predicate Reached(cb: nat, s': State, goal: nat) {
    s'.at <= goal && (s'.at < goal ==> Full(s'.pool) && s'.at == cb * |s'.chain|)
  }

  /**
   * What one call does. Reads, and seeks within the file, leave the pool alone; writes and other seeks take free
   * clusters only, and count them.
   */
  ghost predicate Step(kind: Kind, cb: nat, s: State, cmd: Cmd, r: Reply, s': State) {
    && Lawful(kind, cb, s) && Lawful(kind, cb, s')
    && match cmd
       case DoRead(n) =>
         && r.Got? && |r.data| == Min(n, |s.text| - s.at)
         && s' == s.(at := s.at + |r.data|) && r.data == s.text[s.at..s'.at]
       case DoWrite(data) =>
         && r.Put? && Spliced(s, data, r.count, s') && Evolved(s.chain, s.pool, s'.chain, s'.pool)
         && Reached(cb, s', WriteGoal(kind, s, data))
       case DoSeek(ofs) =>
         && r == Moved && (ofs <= |s.text| ==> s' == s.(at := ofs))
         && |s'.text| == (if s'.at > |s.text| then s'.at else |s.text|) && s'.text[..|s.text|] == s.text
         && Evolved(s.chain, s.pool, s'.chain, s'.pool) && Reached(cb, s', SeekGoal(kind, ofs))
  }

  /** Calls a caller can make, lengths and offsets being machine integers. */
  predicate Callable(cmd: Cmd) {
    match cmd
    case DoRead(_) => true
    case DoWrite(data) => |data| < 0x1_0000_0000
    case DoSeek(ofs) => ofs <= 0xFFFF_FFFF_FFFF_FFFF
  }

  /** Where the position goes when there is room: behind the data, but on FAT12/16/32 not past 4 GiB - 1. */
  function WriteGoal(kind: Kind, s: State, data: seq<byte>): nat {
    if kind.EXFAT? then s.at + |data| else Min(s.at + |data|, 0xFFFF_FFFF)
  }

  /** Where a seek goes when there is room: to its target, but on FAT12/16/32 not past 4 GiB - 1. */
  function SeekGoal(kind: Kind, ofs: nat): nat {
    if kind.EXFAT? then ofs else Min(ofs, 0xFFFF_FFFF)
  }

  /** `states` is the course of the session. */
  ghost predicate Session(kind: Kind, cb: nat, states: seq<State>, cmds: seq<Cmd>, replies: seq<Reply>) {
    && |states| == |cmds| + 1 == |replies| + 1
    && forall k | 0 <= k < |cmds| :: Step(kind, cb, states[k], cmds[k], replies[k], states[k + 1])
  }

  // ---------- how far a write or a seek gets ----------

  /** Clusters that can be had from a pool: the free ones, but no more than a count in range claims. */
  ghost function Available(p: Pool): nat {
    var z := ChainSpec.Zeros(p.table, |p.table|);
    if p.free <= |p.table| - 2 then Min(p.free, z) else z
  }

  /** How many bytes the file can hold at most: what its clusters and those it can have have room for. */
  ghost function Capacity(cb: nat, s: State): nat { cb * (|s.chain| + Available(s.pool)) }

  /** The same with every free cluster. */
  ghost function FreeCapacity(cb: nat,
      s: State): nat { cb * (|s.chain| + ChainSpec.Zeros(s.pool.table, |s.pool.table|)) }

  /** Taking free clusters lowers the number of free ones by as many. */
  lemma {:induction false} ZerosTaken(t: seq<nat>, t': seq<nat>, gone: seq<nat>)
    requires |t'| == |t| && (forall i | 0 <= i < |gone| :: 2 <= gone[i] < |t| && t[gone[i]] == 0 && t'[gone[i]] != 0)
    requires forall i, j | 0 <= i < j < |gone| :: gone[i] != gone[j]
    requires forall c | 0 <= c < |t| && c !in gone :: t'[c] == 0 <==> t[c] == 0
    ensures ChainSpec.Zeros(t, |t|) == ChainSpec.Zeros(t', |t|) + |gone|
    decreases |gone|
  {
    if gone == [] {
      ZerosSame(t, t', |t|);
    } else {
      var rest, c := gone[..|gone| - 1], gone[|gone| - 1];
      assert gone == rest + [c] && c !in rest;
      var t1 := t'[c := 0];
      forall i | 0 <= i < |rest| ensures t1[rest[i]] != 0 { assert rest[i] == gone[i]; }
      ZerosTaken(t, t1, rest);
      ChainSpec.ZerosUpdate(t', |t|, c, 0);
    }
  }

  lemma {:induction false} ZerosSame(t: seq<nat>, t': seq<nat>, k: nat)
    requires k <= |t| == |t'| && forall c | 0 <= c < |t| :: t'[c] == 0 <==> t[c] == 0
    ensures ChainSpec.Zeros(t, k) == ChainSpec.Zeros(t', k)
  {
    if k > 2 { ZerosSame(t, t', k - 1); }
  }

  lemma PoolTaken(kind: Kind, cb: nat, s: State, s': State)
    requires Lawful(kind, cb, s) && Lawful(kind, cb, s') && Evolved(s.chain, s.pool, s'.chain, s'.pool)
    ensures ChainSpec.Zeros(s.pool.table, |s.pool.table|) == ChainSpec.Zeros(s'.pool.table, |s'.pool.table|) +
            (|s'.chain| - |s.chain|)
  {
    var t, t', gone := s.pool.table, s'.pool.table, s'.chain[|s.chain|..];
    assert forall i | |s.chain| <= i < |s'.chain| :: s'.chain[i] == gone[i - |s.chain|];
    forall c | 0 <= c < |t| && c !in gone ensures t'[c] == 0 <==> t[c] == 0 {
      if c in s'.chain {
        var i :| 0 <= i < |s'.chain| && s'.chain[i] == c;
        assert s.chain[i] == c;
      }
    }
    ZerosTaken(t, t', gone);
  }

  /** A count that is exact or unknown stays so. */
  lemma ExactStays(kind: Kind, cb: nat, s: State, s': State)
    requires Lawful(kind, cb, s) && Lawful(kind, cb, s') && Evolved(s.chain, s.pool, s'.chain, s'.pool)
    ensures Exfat.ExactCount(s.pool.free, s.pool.table) ==> Exfat.ExactCount(s'.pool.free, s'.pool.table)
  {
    PoolTaken(kind, cb, s, s');
  }

  /** With such a count, what can be had is what is free. */
  lemma ExactAvailable(p: Pool)
    requires Exfat.ExactCount(p.free, p.table)
    ensures Available(p) == ChainSpec.Zeros(p.table, |p.table|)
  {
  }

  lemma {:induction false} NoZeros(t: seq<nat>, k: nat)
    requires ChainSpec.NoneFree(t) && k <= |t|
    ensures ChainSpec.Zeros(t, k) == 0
  {
    if k > 2 { NoZeros(t, k - 1); }
  }

  /** Growth takes at most what can be had, and all of it once the pool is full. */
  lemma Growth(kind: Kind, cb: nat, s: State, s': State)
    requires Lawful(kind, cb, s) && Lawful(kind, cb, s') && Evolved(s.chain, s.pool, s'.chain, s'.pool)
    ensures |s'.chain| - |s.chain| <= Available(s.pool)
    ensures Full(s'.pool) ==> |s'.chain| - |s.chain| == Available(s.pool)
  {
    PoolTaken(kind, cb, s, s');
    if ChainSpec.NoneFree(s'.pool.table) { NoZeros(s'.pool.table, |s'.pool.table|); }
  }

  lemma Stop(kind: Kind, cb: nat, s: State, s': State, goal: nat)
    requires Lawful(kind, cb, s) && Lawful(kind, cb, s') && Evolved(s.chain, s.pool, s'.chain, s'.pool) &&
             Reached(cb, s', goal)
    ensures s'.at == Min(goal, Capacity(cb, s))
  {
    hide Available, Full, Evolved;
    Growth(kind, cb, s, s');
    EvolvedPrefix(s.chain, s.pool, s'.chain, s'.pool);
    MulMono(cb, |s'.chain|, |s.chain| + Available(s.pool));
  }

  /** f_write stores exactly what the FAT limit and the clusters that can be had allow. */
  lemma WriteExact(kind: Kind, cb: nat, s: State, data: seq<byte>, r: Reply, s': State)
    requires Step(kind, cb, s, DoWrite(data), r, s')
    ensures r.Put? && s.at + r.count == Min(WriteGoal(kind, s, data), Capacity(cb, s))
  {
    hide Capacity, Full, Evolved, Reached, Lawful, WriteGoal;
    Stop(kind, cb, s, s', WriteGoal(kind, s, data));
  }

  /** f_lseek gets exactly as far as its limit and the clusters that can be had allow. */
  lemma SeekExact(kind: Kind, cb: nat, s: State, ofs: nat, r: Reply, s': State)
    requires Step(kind, cb, s, DoSeek(ofs), r, s')
    ensures s'.at == Min(SeekGoal(kind, ofs), Capacity(cb, s))
  {
    hide Capacity, Full, Evolved, Reached, Lawful, SeekGoal;
    Stop(kind, cb, s, s', SeekGoal(kind, ofs));
  }

  /**
   * Over a session an exact or unknown count stays so, and with it every write is short only for want of free clusters
   * or at the FAT limit.
   */
  lemma {:induction false} SessionExact(kind: Kind, cb: nat, states: seq<State>, cmds: seq<Cmd>, replies: seq<Reply>,
      k: nat)
    requires Session(kind, cb, states, cmds, replies) && k < |states| &&
             Exfat.ExactCount(states[0].pool.free, states[0].pool.table)
    ensures Exfat.ExactCount(states[k].pool.free, states[k].pool.table)
    ensures k < |cmds| && cmds[k].DoWrite? ==>
              var s := states[k];
              && replies[k].Put?
              && s.at + replies[k].count ==
                 Min(WriteGoal(kind, s, cmds[k].data), FreeCapacity(cb, s))
  {
    hide Step, Exfat.ExactCount, Available, WriteGoal;
    if k > 0 {
      SessionExact(kind, cb, states, cmds, replies, k - 1);
      StepExact(kind, cb, states[k - 1], cmds[k - 1], replies[k - 1], states[k]);
    }
    if k < |cmds| && cmds[k].DoWrite? {
      WriteExact(kind, cb, states[k], cmds[k].data, replies[k], states[k + 1]);
      ExactAvailable(states[k].pool);
    }
  }

  lemma StepExact(kind: Kind, cb: nat, s: State, cmd: Cmd, r: Reply, s': State)
    requires Step(kind, cb, s, cmd, r, s') && Exfat.ExactCount(s.pool.free, s.pool.table)
    ensures Exfat.ExactCount(s'.pool.free, s'.pool.table)
  {
    hide Exfat.ExactCount, Evolved, Full, Lawful;
    if !cmd.DoRead? { ExactStays(kind, cb, s, s'); }
  }

  // ---------- the calls are such steps ----------

  ghost function StateOf(f: File): State
    requires f.Valid()
    reads f, f.buf, f.fs, f.fs.win, f.obj
  {
    State(f.Text(), f.fptr, f.chain, f.Space())
  }

  lemma InFile(f: File)
    requires f.Valid()
    ensures f.fptr <= f.objsize == |f.Text()| <= MaxSize(f.fs.g.kind) &&
            Lawful(f.fs.g.kind, ClusterBytes(f.L()), StateOf(f))
    ensures f.fs.g.csize > 0 && Start(f.L(), |f.chain|) == ClusterBytes(f.L()) * |f.chain|
  {
    hide Linked, Content, Loc, Co, Tight;
    f.SaneBasics();
    f.SaneParts();
    RoomBytes(f.L(), |f.chain|, f.objsize);
    forall i | 0 <= i < |f.chain| ensures f.chain[i] < |f.Table()| && f.Table()[f.chain[i]] != 0 {
      ListUsed(f.fs.g, f.fs.Fat(), TableOf(f.fs), f.obj.Fields(), f.chain, f.chain[i]);
    }
  }

  lemma RoomBytes(l: Layout, n: nat, size: nat)
    requires l.csize > 0 && Room(l, n, size)
    ensures size <= ClusterBytes(l) * n
  {
    if size > 0 {
      var q := (size - 1) / 512;
      QuotRem(q, l.csize);
      MulMono(l.csize, q / l.csize + 1, n);
      assert l.csize * (q / l.csize + 1) == l.csize * (q / l.csize) + l.csize;
      assert ClusterBytes(l) * n == 512 * (l.csize * n);
    }
  }

  /** One call. */
  method Do(f: File, cmd: Cmd) returns (r: Reply)
    requires f.Valid() && f.canRead && f.canWrite && Callable(cmd)
    modifies f, f.buf, f.fs, f.fs.win, f.obj
    ensures f.Valid() && Step(f.fs.g.kind, ClusterBytes(f.L()), old(StateOf(f)), cmd, r, StateOf(f))
    ensures Aside(f.fs.g, f.chain, old(SnapOf(f.fs)), SnapOf(f.fs)) &&
            Evolved(old(f.chain), old(f.Space()), f.chain, f.Space())
  {
    hide Splice, FileAccess.File.Sane, FileAccess.File.Text, FileAccess.File.Table, Evolved, Full, Aside, SnapOf, Start,
      Lawful, ClusterBytes;
    InFile(f);
    f.SaneSnap();
    AsideRefl(f.fs.g, f.chain, SnapOf(f.fs));
    EvolvedRefl(f.chain, f.Space());
    match cmd
    case DoRead(n) =>
      var res, data := f.Read(n);
      InFile(f);
      r := Got(data);
    case DoWrite(data) =>
      var res, bw := f.Write(data);
      InFile(f);
      r := Put(bw);
    case DoSeek(ofs) =>
      f.Seek(ofs);
      InFile(f);
      r := Moved;
  }

  /** Any sequence of calls. */
  method Run(f: File, cmds: seq<Cmd>) returns (replies: seq<Reply>, ghost states: seq<State>)
    requires f.Valid() && f.canRead && f.canWrite && (forall k | 0 <= k < |cmds| :: Callable(cmds[k]))
    modifies f, f.buf, f.fs, f.fs.win, f.obj
    ensures f.Valid() && Session(f.fs.g.kind, ClusterBytes(f.L()), states, cmds, replies)
    ensures states[0] == old(StateOf(f)) && states[|cmds|] == StateOf(f)
  {
    hide Step, StateOf, FileAccess.File.Valid, Callable, ClusterBytes;
    ghost var kind, cb := f.fs.g.kind, ClusterBytes(f.L());
    replies, states := [], [StateOf(f)];
    var i := 0;
    while i < |cmds|
      invariant 0 <= i <= |cmds| && f.Valid() && |states| == i + 1 && |replies| == i && cb == ClusterBytes(f.L())
      invariant forall k | 0 <= k < i :: Step(kind, cb, states[k], cmds[k], replies[k], states[k + 1])
      invariant states[0] == old(StateOf(f)) && states[i] == StateOf(f)
    {
      var r := Do(f, cmds[i]);
      states := states + [StateOf(f)];
      replies := replies + [r];
      i := i + 1;
    }
  }
}
