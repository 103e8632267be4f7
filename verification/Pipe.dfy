/**
 * Pipes: two ends with reference counts, threads inside transfers, deferred reclamation, and the bytes that pass
 * through.
 */
module Pipe {
  import opened Bytes
  import opened Arith

  const CAPACITY: nat := 65536
  const ATOMIC_MAX: nat := 4096

  /**
   * One end: its vfs node's refcount, its share of pipe_info (read_fds or write_fds), its pipe_specific, and how often
   * it was freed.
   */
  datatype Side = Side(refs: int, count: int, active: int, pending: bool, specFrees: nat, nodeFrees: nat)

  datatype Pipe = Pipe(buf: seq<byte>, r: Side, w: Side, active: int, pending: bool, frees: nat)

  /** `write` selects the end. */
  function Of(p: Pipe, write: bool): Side {
    if write then p.w else p.r
  }

  function With(p: Pipe, write: bool, s: Side): Pipe {
    if write then p.(w := s) else p.(r := s)
  }

  // ---------- steps on the counters ----------

  /** fd_dup. */
  function DupOf(p: Pipe, write: bool): Pipe {
    var s := Of(p, write);
    With(p, write, s.(refs := s.refs + 1, count := s.count + 1))
  }

  /** pipefs_enter. */
  function EnterOf(p: Pipe, write: bool): Pipe {
    var s := Of(p, write);
    With(p, write, s.(active := s.active + 1)).(active := p.active + 1)
  }

  /** pipefs_leave with the frees it decides. */
  function LeaveOf(p: Pipe, write: bool): Pipe {
    var s := Of(p, write);
    var active := s.active - 1;
    var freeSpec := s.pending && active == 0;
    var freePipe := p.pending && p.active - 1 == 0 && p.r.count == 0 && p.w.count == 0;
    var s' := s.(active := active, specFrees := s.specFrees + if freeSpec then 1 else 0,
                 nodeFrees := s.nodeFrees + if freeSpec && s.refs == 0 then 1 else 0);
    With(p, write, s').(active := p.active - 1, frees := p.frees + if freePipe then 1 else 0)
  }

  /** pipefs_close with the frees it decides; the handle is still there. */
  function PipefsClose(p: Pipe, write: bool): Pipe {
    var s := Of(p, write);
    var count := if s.count > 0 then s.count - 1 else s.count;
    var s' := s.(count := count, pending := s.pending || (count == 0 && s.active != 0),
                 specFrees := s.specFrees + if count == 0 && s.active == 0 then 1 else 0);
    var p' := With(p, write, s');
    var last := p'.r.count == 0 && p'.w.count == 0;
    p'.(pending := p.pending || (last && p.active != 0), frees := p.frees + if last && p.active == 0 then 1 else 0)
  }

  /** The pipe branch of vfs_close. */
  function CloseOf(p: Pipe, write: bool): Pipe {
    var s := Of(p, write);
    var p0 := With(p, write, s.(refs := s.refs - 1));
    if s.specFrees != 0 then p0
    else
      var p1 := PipefsClose(p0, write);
      var s1 := Of(p1, write);
      if s1.refs != 0 then p1
      else if s.active > 0 then With(p1, write, s1.(pending := true))
      else With(p1, write, s1.(nodeFrees := s1.nodeFrees + 1))
  }

  // ---------- what the counters must mean ----------

  function One(b: bool): nat {
    if b then 1 else 0
  }

  /** An end is gone exactly when it has no descriptors and nobody inside, and was then freed once. */
  predicate SideOk(s: Side) {
    && s.refs == s.count >= 0 && s.active >= 0
    && (s.active > 0 ==> s.pending == (s.count == 0)) && (s.count > 0 ==> !s.pending)
    && s.specFrees == s.nodeFrees == One(s.count == 0 && s.active == 0)
  }

  predicate Life(p: Pipe) {
    && SideOk(p.r) && SideOk(p.w) && p.active == p.r.active + p.w.active
    && (p.active > 0 ==> p.pending == (p.r.count == 0 && p.w.count == 0))
    && (p.r.count > 0 || p.w.count > 0 ==> !p.pending)
    && p.frees == One(p.r.count == 0 && p.w.count == 0 && p.active == 0)
  }

  lemma CreatedLife(p: Pipe)
    requires p.r == p.w == Side(1, 1, 0, false, 0, 0) && p.active == 0 && !p.pending && p.frees == 0
    ensures Life(p)
  {
  }

  lemma DupLife(p: Pipe, write: bool)
    requires Life(p) && Of(p, write).count > 0
    ensures Life(DupOf(p, write))
  {
  }

  lemma EnterLife(p: Pipe, write: bool)
    requires Life(p) && Of(p, write).count > 0
    ensures Life(EnterOf(p, write))
  {
  }

  lemma LeaveLife(p: Pipe, write: bool)
    requires Life(p) && Of(p, write).active > 0
    ensures Life(LeaveOf(p, write))
  {
  }

  lemma CloseLife(p: Pipe, write: bool)
    requires Life(p) && Of(p, write).count > 0
    ensures Life(CloseOf(p, write)) && Of(CloseOf(p, write), write).count == Of(p, write).count - 1
  {
  }

  // ---------- the whole system ----------

  /** Bytes moved by one locked transfer of operation `op`. */
  datatype Chunk = Chunk(op: nat, bytes: seq<byte>)

  /** A pipefs_read or pipefs_write call. `data` is the caller's bytes, or for a read the bytes it got. */
  datatype Op = Op(write: bool, data: seq<byte>, size: nat, moved: nat, at: nat, inside: bool, over: bool, eof: bool)

  datatype Sys = Sys(p: Pipe, fds: map<nat, bool>, ops: map<nat, Op>, sent: seq<Chunk>, taken: seq<Chunk>)

  datatype Step =
    | Dup(fd: nat, fresh_fd: nat)
    | Close(fd: nat)
    | StartRead(op: nat, fd: nat, size: nat)
    | StartWrite(op: nat, fd: nat, data: seq<byte>)
    | TryRead(op: nat)
    | TryWrite(op: nat)
    | GiveUp(op: nat)
    | Leave(op: nat)

  /** A descriptor is used while it is open; a call transfers, gives up (would block, interrupted) and leaves. */
  predicate Enabled(s: Sys, step: Step) {
    match step
    case Dup(fd, fd') => fd in s.fds && fd' !in s.fds
    case Close(fd) => fd in s.fds
    case StartRead(op, fd, size) => fd in s.fds && !s.fds[fd] && op !in s.ops && size > 0
    case StartWrite(op, fd, _) => fd in s.fds && s.fds[fd] && op !in s.ops
    case TryRead(op) => op in s.ops && s.ops[op].inside && !s.ops[op].over && !s.ops[op].write
    case TryWrite(op) =>
      op in s.ops && s.ops[op].inside && !s.ops[op].over && s.ops[op].write && s.ops[op].moved < |s.ops[op].data|
    case GiveUp(op) => op in s.ops && s.ops[op].inside && !s.ops[op].over
    case Leave(op) =>
      op in s.ops && s.ops[op].inside && (s.ops[op].over || (s.ops[op].write && s.ops[op].moved == |s.ops[op].data|))
  }

  /** The locked section of pipefs_read. */
  function ReadBy(s: Sys, id: nat): Sys
    requires id in s.ops
  {
    var o := s.ops[id];
    if |s.p.buf| > 0 then
      var n := Min(o.size, |s.p.buf|);
      s.(p := s.p.(buf := s.p.buf[n..]), taken := s.taken + [Chunk(id, s.p.buf[..n])],
         ops := s.ops[id := o.(data := s.p.buf[..n], moved := n, over := true)])
    else if s.p.w.count == 0 then s.(ops := s.ops[id := o.(over := true, eof := true)])
    else s
  }

  /** How much the locked section of pipe_write_inner moves; 0 means wait. */
  function Accepts(used: nat, rest: nat, atomic: bool): (n: nat)
    requires used <= CAPACITY
    ensures n <= rest && used + n <= CAPACITY
    ensures n == if atomic && used + rest > 0x1_0000 then 0 else Min(rest, 0x1_0000 - used)
  {
    var available := CAPACITY - used;
    if available > 0 && (!atomic || available >= rest) then if atomic then rest else Min(rest, available) else 0
  }

  function WriteBy(s: Sys, id: nat): Sys
    requires id in s.ops && s.ops[id].moved < |s.ops[id].data| && |s.p.buf| <= CAPACITY
  {
    var o := s.ops[id];
    var n := Accepts(|s.p.buf|, |o.data| - o.moved, |o.data| <= ATOMIC_MAX);
    if s.p.r.count == 0 then s.(ops := s.ops[id := o.(over := true)])
    else if n == 0 then s
    else
      var bytes := o.data[o.moved..o.moved + n];
      s.(p := s.p.(buf := s.p.buf + bytes), sent := s.sent + [Chunk(id, bytes)],
         ops := s.ops[id := o.(moved := o.moved + n, at := |s.sent|)])
  }

  function Next(s: Sys, step: Step): Sys
    requires Enabled(s, step) && |s.p.buf| <= CAPACITY
  {
    match step
    case Dup(fd, fd') => s.(p := DupOf(s.p, s.fds[fd]), fds := s.fds[fd' := s.fds[fd]])
    case Close(fd) => s.(p := CloseOf(s.p, s.fds[fd]), fds := s.fds - {fd})
    case StartRead(op, fd, size) =>
      s.(p := EnterOf(s.p, false), ops := s.ops[op := Op(false, [], Min(size, CAPACITY), 0, 0, true, false, false)])
    case StartWrite(op, fd, data) =>
      s.(p := EnterOf(s.p, true), ops := s.ops[op := Op(true, data, |data|, 0, 0, true, false, false)])
    case TryRead(op) => ReadBy(s, op)
    case TryWrite(op) => WriteBy(s, op)
    case GiveUp(op) => s.(ops := s.ops[op := s.ops[op].(over := true)])
    case Leave(op) => s.(p := LeaveOf(s.p, s.ops[op].write), ops := s.ops[op := s.ops[op].(inside := false)])
  }

  // ---------- census: counters count what exists ----------

  function Fds(fds: map<nat, bool>, write: bool): set<nat> {
    set fd | fd in fds && fds[fd] == write
  }

  function Inside(ops: map<nat, Op>, write: bool): set<nat> {
    set id | id in ops && ops[id].inside && ops[id].write == write
  }

  predicate Counted(s: Sys, write: bool) {
    |Fds(s.fds, write)| == Of(s.p, write).count && |Inside(s.ops, write)| == Of(s.p, write).active
  }

  predicate Census(s: Sys) {
    Counted(s, false) && Counted(s, true)
  }

  /** Cardinality of a set given by its members. */
  lemma OneMore(a: set<nat>, b: set<nat>, x: nat)
    requires x !in a && x in b && forall y :: y in b <==> y in a || y == x
    ensures |b| == |a| + 1
  {
    assert b == a + {x};
  }

  lemma FdsAdd(fds: map<nat, bool>, fd: nat, write: bool, e: bool)
    requires fd !in fds
    ensures |Fds(fds[fd := write], e)| == |Fds(fds, e)| + One(e == write)
  {
    if e == write {
      OneMore(Fds(fds, e), Fds(fds[fd := write], e), fd);
    } else {
      assert Fds(fds[fd := write], e) == Fds(fds, e);
    }
  }

  lemma FdsDrop(fds: map<nat, bool>, fd: nat, e: bool)
    requires fd in fds
    ensures |Fds(fds, e)| == |Fds(fds - {fd}, e)| + One(e == fds[fd])
  {
    if e == fds[fd] {
      OneMore(Fds(fds - {fd}, e), Fds(fds, e), fd);
    } else {
      assert Fds(fds, e) == Fds(fds - {fd}, e);
    }
  }

  lemma InsideAdd(ops: map<nat, Op>, id: nat, o: Op, e: bool)
    requires id !in ops && o.inside
    ensures |Inside(ops[id := o], e)| == |Inside(ops, e)| + One(e == o.write)
  {
    if e == o.write {
      OneMore(Inside(ops, e), Inside(ops[id := o], e), id);
    } else {
      assert Inside(ops[id := o], e) == Inside(ops, e);
    }
  }

  lemma InsideDrop(ops: map<nat, Op>, id: nat, o: Op, e: bool)
    requires id in ops && ops[id].inside && !o.inside
    ensures |Inside(ops, e)| == |Inside(ops[id := o], e)| + One(e == ops[id].write)
  {
    if e == ops[id].write {
      OneMore(Inside(ops[id := o], e), Inside(ops, e), id);
    } else {
      assert Inside(ops, e) == Inside(ops[id := o], e);
    }
  }

  lemma InsideSame(ops: map<nat, Op>, id: nat, o: Op, e: bool)
    requires id in ops && ops[id].inside && o.inside && o.write == ops[id].write
    ensures Inside(ops[id := o], e) == Inside(ops, e)
  {
  }

  /** A member makes its set's count positive. */
  lemma Occupied(s: Sys, e: bool, x: nat)
    requires Census(s) && (x in Fds(s.fds, e) || x in Inside(s.ops, e))
    ensures x in Fds(s.fds, e) ==> Of(s.p, e).count > 0
    ensures x in Inside(s.ops, e) ==> Of(s.p, e).active > 0
  {
    assert x in Fds(s.fds, e) ==> |Fds(s.fds, e)| > 0;
    assert x in Inside(s.ops, e) ==> |Inside(s.ops, e)| > 0;
  }

  // ---------- conservation and order ----------

  function Flat(chunks: seq<Chunk>): seq<byte> {
    if chunks == [] then [] else Flat(chunks[..|chunks| - 1]) + chunks[|chunks| - 1].bytes
  }

  /** The bytes of one operation, in order. */
  function FlatOf(chunks: seq<Chunk>, id: nat): seq<byte> {
    if chunks == [] then []
    else FlatOf(chunks[..|chunks| - 1], id) + if chunks[|chunks| - 1].op == id then chunks[|chunks| - 1].bytes else []
  }

  lemma FlatPush(chunks: seq<Chunk>, c: Chunk, id: nat)
    ensures Flat(chunks + [c]) == Flat(chunks) + c.bytes
    ensures FlatOf(chunks + [c], id) == FlatOf(chunks, id) + if c.op == id then c.bytes else []
  {
    assert (chunks + [c])[..|chunks|] == chunks;
  }

  lemma {:induction false} FlatOfNone(chunks: seq<Chunk>, id: nat)
    requires forall k | 0 <= k < |chunks| :: chunks[k].op != id
    ensures FlatOf(chunks, id) == []
  {
    if chunks != [] {
      FlatOfNone(chunks[..|chunks| - 1], id);
    }
  }

  predicate Known(chunks: seq<Chunk>, ops: map<nat, Op>, write: bool) {
    forall k | 0 <= k < |chunks| :: chunks[k].op in ops && ops[chunks[k].op].write == write
  }

  /** What a call has moved so far is a prefix of its data, in order; a short write moves as one piece or not at all. */
  predicate OpOk(o: Op, id: nat, sent: seq<Chunk>, taken: seq<Chunk>) {
    && o.moved <= |o.data| && (!o.write ==>
      o.moved == |o.data| && (!o.over ==> o.moved == 0) && (o.eof ==> o.over && o.moved == 0) && o.size > 0)
    && FlatOf(if o.write then sent else taken, id) == o.data[..o.moved]
    && (o.write && |o.data| <= 0x1000 && o.moved > 0 ==>
      o.moved == |o.data| && o.at < |sent| && sent[o.at] == Chunk(id, o.data))
  }

  predicate Stream(s: Sys) {
    && |s.p.buf| <= CAPACITY && Flat(s.sent) == Flat(s.taken) + s.p.buf
    && Known(s.sent, s.ops, true) && Known(s.taken, s.ops, false)
    && forall id | id in s.ops :: OpOk(s.ops[id], id, s.sent, s.taken)
  }

  predicate Inv(s: Sys) {
    Life(s.p) && Census(s) && Stream(s)
  }

  // ---------- every step keeps the stream ----------

  lemma StartKeepsStream(s: Sys, id: nat, o: Op)
    requires Stream(s) && id !in s.ops && o.moved == 0 && (o.write || (o.data == [] && !o.over && !o.eof && o.size > 0))
    ensures Stream(s.(ops := s.ops[id := o]))
  {
    FlatOfNone(s.sent, id);
    FlatOfNone(s.taken, id);
  }

  lemma ReadKeepsStream(s: Sys, id: nat)
    requires Stream(s) && Enabled(s, TryRead(id))
    ensures Stream(ReadBy(s, id))
  {
    hide Flat, FlatOf;
    var s', o := ReadBy(s, id), s.ops[id];
    if |s.p.buf| > 0 {
      var n := Min(o.size, |s.p.buf|);
      var c := Chunk(id, s.p.buf[..n]);
      FlatPush(s.taken, c, id);
      assert s.p.buf == c.bytes + s.p.buf[n..];
      forall x | x in s'.ops
        ensures OpOk(s'.ops[x], x, s'.sent, s'.taken)
      {
        assert x != id ==> OpOk(s.ops[x], x, s.sent, s.taken);
        FlatPush(s.taken, c, x);
      }
    }
  }

  /** Another call's chunk changes nothing for this one. */
  lemma OtherOk(o: Op, id: nat, sent: seq<Chunk>, taken: seq<Chunk>, c: Chunk)
    requires OpOk(o, id, sent, taken) && c.op != id
    ensures OpOk(o, id, sent + [c], taken)
  {
    FlatPush(sent, c, id);
  }

  /** The writer's own next chunk. */
  lemma WriterOk(o: Op, id: nat, sent: seq<Chunk>, taken: seq<Chunk>, used: nat)
    requires OpOk(o, id, sent, taken) && o.write && o.moved < |o.data| && used <= CAPACITY
    ensures var n := Accepts(used, |o.data| - o.moved, |o.data| <= ATOMIC_MAX);
            n > 0 ==> OpOk(o.(moved := o.moved + n, at := |sent|), id, sent + [Chunk(id, o.data[o.moved..o.moved + n])],
              taken)
  {
    hide FlatOf, Flat;
    var n := Accepts(used, |o.data| - o.moved, |o.data| <= ATOMIC_MAX);
    var c := Chunk(id, o.data[o.moved..o.moved + n]);
    FlatPush(sent, c, id);
    assert o.data[..o.moved] + c.bytes == o.data[..o.moved + n];
    assert o.moved == 0 && n == |o.data| ==> c.bytes == o.data;
  }

  lemma WriteKeepsStream(s: Sys, id: nat)
    requires Stream(s) && Enabled(s, TryWrite(id))
    ensures Stream(WriteBy(s, id))
  {
    hide Flat, FlatOf, OpOk, Accepts;
    var s', o := WriteBy(s, id), s.ops[id];
    var n := Accepts(|s.p.buf|, |o.data| - o.moved, |o.data| <= ATOMIC_MAX);
    if s.p.r.count == 0 {
      OverOk(o, id, s.sent, s.taken);
    } else if n > 0 {
      var c := Chunk(id, o.data[o.moved..o.moved + n]);
      FlatPush(s.sent, c, id);
      WriterOk(o, id, s.sent, s.taken, |s.p.buf|);
      forall x | x in s.ops && x != id
        ensures OpOk(s.ops[x], x, s'.sent, s'.taken)
      {
        OtherOk(s.ops[x], x, s.sent, s.taken, c);
      }
    }
  }

  /** Ending a write, or leaving, keeps what was moved. */
  lemma OverOk(o: Op, id: nat, sent: seq<Chunk>, taken: seq<Chunk>)
    requires OpOk(o, id, sent, taken)
    ensures OpOk(o.(over := true), id, sent, taken)
    ensures OpOk(o.(inside := false), id, sent, taken)
  {
  }

  // ---------- every step keeps the invariant ----------

  lemma OpsSwap(s: Sys, id: nat, o: Op)
    requires Stream(s) && id in s.ops && o.write == s.ops[id].write && OpOk(o, id, s.sent, s.taken)
    ensures Stream(s.(ops := s.ops[id := o]))
  {
    hide OpOk, Flat;
  }

  lemma StepKeepsStream(s: Sys, step: Step)
    requires Stream(s) && Enabled(s, step)
    ensures Stream(Next(s, step))
  {
    hide Stream, OpOk;
    StreamOps(s);
    match step
    case Dup(fd, fd') => StreamSame(s, s.(p := DupOf(s.p, s.fds[fd]), fds := s.fds[fd' := s.fds[fd]]));
    case Close(fd) => StreamSame(s, s.(p := CloseOf(s.p, s.fds[fd]), fds := s.fds - {fd}));
    case StartRead(id, fd, size) =>
      var o := Op(false, [], Min(size, CAPACITY), 0, 0, true, false, false);
      StartKeepsStream(s, id, o);
      StreamSame(s.(ops := s.ops[id := o]), Next(s, step));
    case StartWrite(id, fd, data) =>
      var o := Op(true, data, |data|, 0, 0, true, false, false);
      StartKeepsStream(s, id, o);
      StreamSame(s.(ops := s.ops[id := o]), Next(s, step));
    case TryRead(id) => ReadKeepsStream(s, id);
    case TryWrite(id) => WriteKeepsStream(s, id);
    case GiveUp(id) =>
      OverOk(s.ops[id], id, s.sent, s.taken);
      OpsSwap(s, id, s.ops[id].(over := true));
    case Leave(id) =>
      var o := s.ops[id].(inside := false);
      OverOk(s.ops[id], id, s.sent, s.taken);
      OpsSwap(s, id, o);
      StreamSame(s.(ops := s.ops[id := o]), Next(s, step));
  }

  lemma StreamOps(s: Sys)
    requires Stream(s)
    ensures |s.p.buf| <= CAPACITY && forall id | id in s.ops :: OpOk(s.ops[id], id, s.sent, s.taken)
  {
  }

  lemma StreamSame(s: Sys, s': Sys)
    requires Stream(s) && s'.p.buf == s.p.buf && s'.ops == s.ops && s'.sent == s.sent && s'.taken == s.taken
    ensures Stream(s')
  {
  }

  lemma FdCounts(s: Sys, step: Step)
    requires Inv(s) && Enabled(s, step) && (step.Dup? || step.Close?)
    ensures Life(Next(s, step).p) && Census(Next(s, step))
  {
    hide Stream, OpOk, Life, Fds, Inside, CloseOf;
    Members(s, step);
    match step
    case Dup(fd, fd') =>
      DupLife(s.p, s.fds[fd]);
      FdsAdd(s.fds, fd', s.fds[fd], false);
      FdsAdd(s.fds, fd', s.fds[fd], true);
    case Close(fd) =>
      CloseLife(s.p, s.fds[fd]);
      CloseOther(s.p, s.fds[fd]);
      FdsDrop(s.fds, fd, false);
      FdsDrop(s.fds, fd, true);
  }

  lemma CallCounts(s: Sys, step: Step)
    requires Inv(s) && Enabled(s, step) && (step.StartRead? || step.StartWrite? || step.Leave?)
    ensures Life(Next(s, step).p) && Census(Next(s, step))
  {
    hide Stream, OpOk, Life, Fds, Inside;
    Members(s, step);
    var id := step.op;
    if step.Leave? {
      LeaveLife(s.p, s.ops[id].write);
      InsideDrop(s.ops, id, s.ops[id].(inside := false), false);
      InsideDrop(s.ops, id, s.ops[id].(inside := false), true);
    } else {
      EnterLife(s.p, step.StartWrite?);
      InsideAdd(s.ops, id, Next(s, step).ops[id], false);
      InsideAdd(s.ops, id, Next(s, step).ops[id], true);
    }
  }

  lemma TransferCounts(s: Sys, step: Step)
    requires Inv(s) && Enabled(s, step) && (step.TryRead? || step.TryWrite? || step.GiveUp?)
    ensures Life(Next(s, step).p) && Census(Next(s, step))
  {
    hide Stream, OpOk, Life, Fds, Inside, Accepts;
    Members(s, step);
    SameCounts(s.p, Next(s, step).p);
    InsideSame(s.ops, step.op, Next(s, step).ops[step.op], false);
    InsideSame(s.ops, step.op, Next(s, step).ops[step.op], true);
  }

  /** The descriptor or the call a step works with is counted. */
  lemma Members(s: Sys, step: Step)
    requires Inv(s) && Enabled(s, step)
    ensures |s.p.buf| <= CAPACITY
    ensures step.Dup? || step.Close? || step.StartRead? || step.StartWrite? ==> Of(s.p, s.fds[step.fd]).count > 0
    ensures step.TryRead? || step.TryWrite? || step.GiveUp? || step.Leave? ==> Of(s.p, s.ops[step.op].write).active > 0
  {
    if step.Dup? || step.Close? || step.StartRead? || step.StartWrite? {
      Occupied(s, s.fds[step.fd], step.fd);
    } else {
      Occupied(s, s.ops[step.op].write, step.op);
    }
  }

  lemma CloseOther(p: Pipe, write: bool)
    ensures Of(CloseOf(p, write), !write) == Of(p, !write) && Of(CloseOf(p, write), write).active == Of(p, write).active
  {
  }

  lemma SameCounts(p: Pipe, p': Pipe)
    requires Life(p) && p' == p.(buf := p'.buf)
    ensures Life(p')
  {
  }

  lemma StepKeepsInv(s: Sys, step: Step)
    requires Inv(s) && Enabled(s, step)
    ensures Inv(Next(s, step))
  {
    hide Life, Census, Stream, Next;
    StepKeepsStream(s, step);
    match step
    case Dup(_, _) => FdCounts(s, step);
    case Close(_) => FdCounts(s, step);
    case StartRead(_, _, _) => CallCounts(s, step);
    case StartWrite(_, _, _) => CallCounts(s, step);
    case Leave(_) => CallCounts(s, step);
    case _ => TransferCounts(s, step);
  }

  // ---------- whole runs ----------

  /** pipe2: two descriptors, two nodes of refcount 1. */
  predicate Created(s: Sys) {
    && s.p == Pipe([], Side(1, 1, 0, false, 0, 0), Side(1, 1, 0, false, 0, 0), 0, false, 0)
    && |Fds(s.fds, false)| == |Fds(s.fds, true)| == 1 && s.ops == map[] && s.sent == [] && s.taken == []
  }

  lemma CreatedInv(s: Sys)
    requires Created(s)
    ensures Inv(s)
  {
    CreatedLife(s.p);
    assert Inside(s.ops, false) == {} && Inside(s.ops, true) == {};
  }

  /** Any interleaving of steps. */
  predicate Path(ss: seq<Sys>, steps: seq<Step>) {
    && |ss| == |steps| + 1
    && forall k | 0 <= k < |steps| ::
      Enabled(ss[k], steps[k]) && |ss[k].p.buf| <= CAPACITY && ss[k + 1] == Next(ss[k], steps[k])
  }

  lemma {:induction false} PathKeepsInv(ss: seq<Sys>, steps: seq<Step>, k: nat)
    requires Path(ss, steps) && k < |ss| && Inv(ss[0])
    ensures Inv(ss[k])
  {
    hide Inv, Next, Enabled;
    if k > 0 {
      PathKeepsInv(ss, steps, k - 1);
      StepKeepsInv(ss[k - 1], steps[k - 1]);
    }
  }

  predicate Busy(s: Sys, write: bool) {
    Fds(s.fds, write) != {} || Inside(s.ops, write) != {}
  }

  /**
   * Reclamation over every run: the counts are the node refcounts and the live descriptors; each end's spec and node
   * are freed once, exactly when no descriptor and no caller is left on it; the buffer once, exactly when both are
   * gone.
   */
  lemma ReclaimedOnce(ss: seq<Sys>, steps: seq<Step>, k: nat)
    requires Path(ss, steps) && k < |ss| && Created(ss[0])
    ensures var s := ss[k];
            && s.p.r.refs == s.p.r.count == |Fds(s.fds, false)| && s.p.w.refs == s.p.w.count == |Fds(s.fds, true)|
            && s.p.r.specFrees == s.p.r.nodeFrees == One(!Busy(s, false)) && s.p.w.specFrees == s.p.w.nodeFrees ==
              One(!Busy(s, true))
            && s.p.frees == One(!Busy(s, false) && !Busy(s, true))
  {
    CreatedInv(ss[0]);
    PathKeepsInv(ss, steps, k);
    CountsMean(ss[k]);
  }

  lemma CountsMean(s: Sys)
    requires Inv(s)
    ensures s.p.r.refs == s.p.r.count == |Fds(s.fds, false)| && s.p.w.refs == s.p.w.count == |Fds(s.fds, true)|
    ensures s.p.r.specFrees == s.p.r.nodeFrees == One(!Busy(s, false)) && s.p.w.specFrees == s.p.w.nodeFrees ==
            One(!Busy(s, true))
    ensures s.p.frees == One(!Busy(s, false) && !Busy(s, true))
  {
    hide Stream, Fds, Inside;
    forall e: bool
      ensures (Fds(s.fds, e) == {} <==> Of(s.p, e).count == 0) && (Inside(s.ops, e) == {} <==> Of(s.p, e).active == 0)
    {
      assert |Fds(s.fds, e)| == 0 <==> Fds(s.fds, e) == {};
      assert |Inside(s.ops, e)| == 0 <==> Inside(s.ops, e) == {};
    }
    assert Of(s.p, false) == s.p.r && Of(s.p, true) == s.p.w;
  }

  /** The end a step works on. */
  function EndOf(s: Sys, step: Step): bool
    requires Enabled(s, step)
  {
    if step.Dup? || step.Close? || step.StartRead? || step.StartWrite? then s.fds[step.fd] else s.ops[step.op].write
  }

  /** No step works on anything already freed. */
  lemma StepsTouchLive(ss: seq<Sys>, steps: seq<Step>, k: nat)
    requires Path(ss, steps) && k < |steps| && Created(ss[0])
    ensures var s := ss[k]; var e := EndOf(s, steps[k]);
            s.p.frees == 0 && Of(s.p, e).specFrees == 0 && Of(s.p, e).nodeFrees == 0
  {
    hide Next;
    CreatedInv(ss[0]);
    PathKeepsInv(ss, steps, k);
    Members(ss[k], steps[k]);
  }

  /**
   * Conservation and order over every run: what was accepted is what was read followed by the buffer; each call's
   * bytes are an in-order prefix of its data; an accepted short write is one contiguous piece.
   */
  lemma BytesConserved(ss: seq<Sys>, steps: seq<Step>, k: nat)
    requires Path(ss, steps) && k < |ss| && Created(ss[0])
    ensures Flat(ss[k].sent) == Flat(ss[k].taken) + ss[k].p.buf && |ss[k].p.buf| <= 0x1_0000
    ensures forall id | id in ss[k].ops :: OpOk(ss[k].ops[id], id, ss[k].sent, ss[k].taken)
  {
    hide OpOk, Flat;
    CreatedInv(ss[0]);
    PathKeepsInv(ss, steps, k);
  }

  /** A read returns nothing exactly when the buffer is empty and no write descriptor is open. */
  lemma ReadZero(s: Sys, id: nat)
    requires Inv(s) && Enabled(s, TryRead(id))
    ensures var o := Next(s, TryRead(id)).ops[id];
            (o.over && o.data == [] <==> s.p.buf == [] && Fds(s.fds, true) == {}) && (o.eof <==> o.over && o.data == [])
  {
    CountsMean(s);
    assert OpOk(s.ops[id], id, s.sent, s.taken);
  }

  /** Some caller inside still has bytes to write. */
  predicate WriterLeft(s: Sys) {
    exists id | id in s.ops ::
      s.ops[id].inside && s.ops[id].write && !s.ops[id].over && s.ops[id].moved < |s.ops[id].data|
  }

  /** Bytes can still be accepted although no write descriptor is open: a writer is inside, and somebody may read. */
  ghost predicate CanGrow(s: Sys) {
    WriterLeft(s) && Fds(s.fds, false) != {}
  }

  lemma EofStep(s: Sys, step: Step)
    requires Inv(s) && Enabled(s, step) && Fds(s.fds, true) == {} && !CanGrow(s)
    ensures var s' := Next(s, step); s'.sent == s.sent && Fds(s'.fds, true) == {} && !CanGrow(s')
  {
    hide CloseOf, LeaveOf, Stream, Life;
    Members(s, step);
    CountsMean(s);
    assert forall fd | fd in s.fds :: fd in Fds(s.fds, true) || (!s.fds[fd] && fd in Fds(s.fds, false));
    if Fds(s.fds, false) == {} { assert s.fds == map[]; }
  }

  /** After end of file nothing is ever accepted, unless a writer is inside and a read descriptor open. */
  lemma {:induction false} EofFinal(ss: seq<Sys>, steps: seq<Step>, k: nat)
    requires Path(ss, steps) && k < |ss| && Inv(ss[0]) && Fds(ss[0].fds, true) == {} && !CanGrow(ss[0])
    ensures ss[k].sent == ss[0].sent && Fds(ss[k].fds, true) == {} && !CanGrow(ss[k])
  {
    hide Inv, Next, Enabled, CanGrow;
    if k > 0 {
      EofFinal(ss, steps, k - 1);
      PathKeepsInv(ss, steps, k - 1);
      EofStep(ss[k - 1], steps[k - 1]);
    }
  }

  /** With an unfinished writer inside, a read can report end of file and bytes still arrive after it. */
  lemma EofNotFinal(s: Sys, id: nat)
    requires Inv(s) && s.p.buf == [] && Fds(s.fds, true) == {} && Fds(s.fds, false) != {}
    requires id in s.ops && s.ops[id].inside && s.ops[id].write && !s.ops[id].over && s.ops[id].moved < |s.ops[id].data|
    ensures Enabled(s, TryWrite(id)) && |Next(s, TryWrite(id)).sent| == |s.sent| + 1 &&
            Next(s, TryWrite(id)).p.buf != []
  {
    CountsMean(s);
  }

  /** Some continuation from `s` accepts bytes. */
  ghost predicate Grows(s: Sys) {
    exists ss: seq<Sys>, steps: seq<Step>, k: nat :: Path(ss, steps) && k < |ss| && ss[0] == s && ss[k].sent != s.sent
  }

  /**
   * When a reader is told end of file, bytes can follow if and only if a writer is inside and a read descriptor open.
   */
  lemma EofExact(s: Sys)
    requires Inv(s) && s.p.buf == [] && Fds(s.fds, true) == {}
    ensures Grows(s) <==> CanGrow(s)
  {
    hide Inv, Fds;
    if Grows(s) {
      var ss: seq<Sys>, steps: seq<Step>, k: nat :| Path(ss, steps) && k < |ss| && ss[0] == s && ss[k].sent != s.sent;
      if !CanGrow(s) { EofFinal(ss, steps, k); }
    }
    if CanGrow(s) {
      var id :| id in s.ops && s.ops[id].inside && s.ops[id].write && !s.ops[id].over &&
        s.ops[id].moved < |s.ops[id].data|;
      EofNotFinal(s, id);
      var s' := Next(s, TryWrite(id));
      assert Path([s, s'], [TryWrite(id)]) && [s, s'][1].sent != s.sent;
    }
  }

  /** A fresh pipe with descriptors 0 and 1. */
  function Opened(): Sys {
    Sys(Pipe([], Side(1, 1, 0, false, 0, 0), Side(1, 1, 0, false, 0, 0), 0, false, 0), map[0 := false, 1 := true],
      map[], [], [])
  }

  /** One run: a writer enters, its descriptor is closed, a reader is told end of file, and then the byte arrives. */
  lemma EofWitness() returns (ss: seq<Sys>, steps: seq<Step>)
    ensures Path(ss, steps) && |ss| == 6 && Created(ss[0])
    ensures 2 in ss[4].ops && ss[4].ops[2].eof && ss[4].sent == [] && ss[5].sent == [Chunk(1, [7])]
  {
    var s0 := Opened();
    assert Fds(s0.fds, false) == {0} && Fds(s0.fds, true) == {1};
    steps := [StartWrite(1, 1, [7]), Close(1), StartRead(2, 0, 1), TryRead(2), TryWrite(1)];
    var s1 := Next(s0, steps[0]);
    var s2 := Next(s1, steps[1]);
    assert s2.p.w.count == 0 && s2.p.r.count == 1 && s2.p.buf == [];
    var s3 := Next(s2, steps[2]);
    var s4 := Next(s3, steps[3]);
    assert s4.ops[1].data == [7] && s4.ops[1].moved == 0 && s4.p.buf == [] && s4.sent == [];
    assert Accepts(0, 1, true) == 1 && [7][0..1] == [7];
    var s5 := Next(s4, steps[4]);
    assert s5.sent == [Chunk(1, s4.ops[1].data[0..1])];
    ss := [s0, s1, s2, s3, s4, s5];
  }
}
