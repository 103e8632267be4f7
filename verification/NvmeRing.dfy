/** One NVMe queue pair: driver and controller sharing a submission ring and a phase-tagged completion ring. */
module NvmeRing {
  import opened Bytes

  datatype Sqe = Sqe(cid: nat, body: nat)

  datatype Cqe = Cqe(cid: nat, sqHead: nat, phase: bool, status: nat, dw0: nat)

  /** Ring memory, the driver's nvme_queue_t fields, and what the controller keeps: doorbells and its own indices. */
  datatype Ring = Ring(
    depth: nat, sq: seq<Sqe>, cq: seq<Cqe>,
    sqTail: nat, sqHead: nat, cqHead: nat, cqPhase: bool,
    sqDoorbell: nat, cqDoorbell: nat, fetchHead: nat, cqTail: nat, postPhase: bool)
  {
    predicate Shaped() {
      depth >= 2 && |sq| == depth && |cq| == depth && sqTail < depth && cqHead < depth && fetchHead < depth &&
        cqTail < depth
    }
  }

  function After(i: nat, depth: nat): nat
    requires depth > 0
  {
    (i + 1) % depth
  }

  // ---------- driver ----------

  predicate SqFull(q: Ring)
    requires q.Shaped()
  {
    After(q.sqTail, q.depth) == q.sqHead
  }

  /** nvme_submit_cmd when the queue is not full. */
  function Submit(q: Ring, cmd: Sqe): (r: Ring)
    requires q.Shaped()
    ensures r.Shaped()
  {
    var next := After(q.sqTail, q.depth);
    q.(sq := q.sq[q.sqTail := cmd], sqTail := next, sqDoorbell := next)
  }

  /** The phase test: the entry at cqHead is new. */
  predicate HasCompletion(q: Ring)
    requires q.Shaped()
  {
    q.cq[q.cqHead].phase == q.cqPhase
  }

  /** The locked part of one round of nvme_process_queue_completions, when the phase test succeeds. */
  function Take(q: Ring): (r: Ring)
    requires q.Shaped()
    ensures r.Shaped()
  {
    var wraps := q.cqHead + 1 >= q.depth;
    var head := if wraps then 0 else q.cqHead + 1;
    q.(sqHead := q.cq[q.cqHead].sqHead, cqHead := head, cqPhase := if wraps then !q.cqPhase
      else q.cqPhase, cqDoorbell := head)
  }

  // ---------- controller ----------

  function Fetch(q: Ring): (r: Ring)
    requires q.Shaped()
    ensures r.Shaped()
  {
    q.(fetchHead := After(q.fetchHead, q.depth))
  }

  predicate CqFull(q: Ring)
    requires q.Shaped()
  {
    After(q.cqTail, q.depth) == q.cqDoorbell
  }

  function Post(q: Ring, cid: nat, status: nat, dw0: nat): (r: Ring)
    requires q.Shaped()
    ensures r.Shaped()
  {
    var tail := After(q.cqTail, q.depth);
    q.(cq := q.cq[q.cqTail := Cqe(cid, q.fetchHead, q.postPhase, status, dw0)],
       cqTail := tail, postPhase := if tail == 0 then !q.postPhase else q.postPhase)
  }

  // ---------- histories ----------

  /**
   * What happened so far: all accepted commands, all entries the controller read, all posted and all consumed
   * completions.
   */
  datatype World = World(q: Ring, submitted: seq<Sqe>, got: seq<Sqe>, posted: seq<Cqe>, heads: seq<nat>, seen: seq<Cqe>)

  datatype Step = DoSubmit(cmd: Sqe) | DoFetch | DoPost(cid: nat, status: nat, dw0: nat) | DoTake

  /**
   * The controller fetches only what the doorbell shows, posts at most one entry per fetched command and never to a
   * full queue.
   */
  predicate Enabled(w: World, s: Step)
    requires w.q.Shaped()
  {
    match s
    case DoSubmit(_) => true
    case DoFetch => w.q.fetchHead != w.q.sqDoorbell
    case DoPost(_, _, _) => |w.posted| < |w.got| && !CqFull(w.q)
    case DoTake => true
  }

  function Next(w: World, s: Step): (w': World)
    requires w.q.Shaped()
    ensures w'.q.Shaped()
  {
    match s
    case DoSubmit(cmd) => if SqFull(w.q) then w else w.(q := Submit(w.q, cmd), submitted := w.submitted + [cmd])
    case DoFetch => w.(q := Fetch(w.q), got := w.got + [w.q.sq[w.q.fetchHead]])
    case DoPost(cid, status, dw0) =>
      var q' := Post(w.q, cid, status, dw0);
      w.(q := q', posted := w.posted + [q'.cq[w.q.cqTail]], heads := w.heads + [|w.got|])
    case DoTake => if HasCompletion(w.q) then w.(q := Take(w.q), seen := w.seen + [w.q.cq[w.q.cqHead]]) else w
  }

  /** nvme_init_queue: everything zero, the driver expecting phase 1. */
  predicate Initial(w: World) {
    && w.q.Shaped() && w.submitted == [] && w.got == [] && w.posted == [] && w.heads == [] && w.seen == []
    && w.q.sqTail == w.q.sqHead == w.q.cqHead == w.q.sqDoorbell == w.q.cqDoorbell == w.q.fetchHead == w.q.cqTail == 0
    && w.q.cqPhase && w.q.postPhase && forall j | 0 <= j < w.q.depth :: !w.q.cq[j].phase
  }

  // ---------- counting modulo the depth ----------

  function Slot(i: nat, depth: nat): nat
    requires depth > 0
  {
    i % depth
  }

  /** Phase tag of the `i`-th completion: inverted on every lap of the ring. */
  function Phase(i: nat, depth: nat): bool
    requires depth > 0
  {
    i / depth % 2 == 0
  }

  lemma SlotNext(i: nat, depth: nat)
    requires depth > 1
    ensures Slot(i, depth) < depth && After(Slot(i, depth), depth) == Slot(i + 1, depth)
    ensures Slot(i + 1, depth) == if Slot(i, depth) + 1 == depth then 0 else Slot(i, depth) + 1
    ensures Phase(i + 1, depth) == if Slot(i, depth) + 1 == depth then !Phase(i, depth) else Phase(i, depth)
  {
    var a, x := i / depth, i % depth;
    assert i == depth * a + x;
    if x + 1 == depth {
      assert i + 1 == depth * (a + 1) + 0;
      RemainderIs(i + 1, depth, a + 1, 0);
      RemainderIs(x + 1, depth, 1, 0);
    } else {
      RemainderIs(i + 1, depth, a, x + 1);
      RemainderIs(x + 1, depth, 0, x + 1);
    }
  }

  /** Within one lap slots do not repeat. */
  lemma SlotDistinct(i: nat, j: nat, depth: nat)
    requires depth > 0 && i < j < i + depth
    ensures Slot(i, depth) != Slot(j, depth)
  {
    var a, x, b, y := i / depth, i % depth, j / depth, j % depth;
    assert i == depth * a + x && j == depth * b + y;
    assert b - a >= 1 ==> depth * (b - a) >= depth;
    assert b - a <= 0 ==> depth * (b - a) <= 0;
    assert depth * (b - a) == j - i + x - y;
  }

  /** One lap later: same slot, inverted phase. */
  lemma SlotLap(i: nat, depth: nat)
    requires depth > 0
    ensures Slot(i + depth, depth) == Slot(i, depth) && Phase(i + depth, depth) == !Phase(i, depth)
  {
    var a, x := i / depth, i % depth;
    assert i + depth == depth * (a + 1) + x;
    RemainderIs(i + depth, depth, a + 1, x);
  }

  lemma SlotSmall(i: nat, depth: nat)
    requires i < depth
    ensures Slot(i, depth) == i && Phase(i, depth)
  {
    RemainderIs(i, depth, 0, i);
  }

  /** Two counters less than a lap apart share a slot exactly when they are equal. */
  lemma SameSlot(i: nat, j: nat, depth: nat)
    requires depth > 0 && i <= j < i + depth
    ensures Slot(i, depth) == Slot(j, depth) <==> i == j
  {
    if i < j { SlotDistinct(i, j, depth); }
  }

  /** A ring whose counters are `i <= j` is full exactly when one lap minus one slot is in use. */
  lemma FullSlots(i: nat, j: nat, depth: nat)
    requires depth > 1 && i <= j < i + depth
    ensures After(Slot(j, depth), depth) == Slot(i, depth) <==> j - i == depth - 1
  {
    SlotNext(j, depth);
    if j - i == depth - 1 {
      SlotLap(i, depth);
    } else {
      SlotDistinct(i, j + 1, depth);
    }
  }

  // ---------- the invariant ----------

  /**
   * How many commands the driver knows to have left the submission ring: what the last consumed completion reported.
   */
  function KnownFetched(w: World): (h: nat)
    requires |w.seen| <= |w.heads|
  {
    if |w.seen| == 0 then 0 else w.heads[|w.seen| - 1]
  }

  predicate Ordered(heads: seq<nat>, bound: nat) {
    && (forall i | 0 <= i < |heads| :: heads[i] <= bound)
    && (forall i, j | 0 <= i <= j < |heads| :: heads[i] <= heads[j])
  }

  /** The driver's stale bound trails the controller, and neither ring holds more than depth - 1 live entries. */
  predicate Counts(w: World) {
    && w.q.Shaped()
    && |w.seen| <= |w.posted| == |w.heads| && |w.posted| <= |w.got| <= |w.submitted|
    && KnownFetched(w) <= |w.got|
    && |w.submitted| - KnownFetched(w) < w.q.depth && |w.posted| - |w.seen| < w.q.depth
    && Ordered(w.heads, |w.got|)
  }

  /** Every index is its counter modulo the depth, every phase the parity of the lap. */
  predicate Indices(w: World)
    requires Counts(w)
  {
    var d := w.q.depth;
    && w.q.sqTail == w.q.sqDoorbell == Slot(|w.submitted|, d) && w.q.fetchHead == Slot(|w.got|, d)
    && w.q.sqHead == Slot(KnownFetched(w), d)
    && w.q.cqHead == w.q.cqDoorbell == Slot(|w.seen|, d) && w.q.cqTail == Slot(|w.posted|, d)
    && w.q.cqPhase == Phase(|w.seen|, d) && w.q.postPhase == Phase(|w.posted|, d)
  }

  /** Commands not yet fetched are intact in the submission ring; what was fetched is what was submitted. */
  predicate SqHolds(q: Ring, submitted: seq<Sqe>, got: seq<Sqe>)
    requires q.Shaped()
  {
    && |got| <= |submitted| && got == submitted[..|got|]
    && forall i | |got| <= i < |submitted| :: Slot(i, q.depth) < q.depth && q.sq[Slot(i, q.depth)] == submitted[i]
  }

  /** The last lap of completions is in the completion ring, slots never written keep phase 0. */
  predicate CqHolds(q: Ring, posted: seq<Cqe>)
    requires q.Shaped()
  {
    && (forall i | 0 <= i < |posted| && |posted| - q.depth <= i ::
      Slot(i, q.depth) < q.depth && q.cq[Slot(i, q.depth)] == posted[i])
    && (forall j | |posted| <= j < q.depth :: !q.cq[j].phase)
  }

  predicate Tagged(posted: seq<Cqe>, heads: seq<nat>, depth: nat)
    requires depth > 0 && |posted| == |heads|
  {
    forall i | 0 <= i < |posted| :: posted[i].phase == Phase(i, depth) && posted[i].sqHead == Slot(heads[i], depth)
  }

  predicate Inv(w: World) {
    && Counts(w) && Indices(w)
    && SqHolds(w.q, w.submitted, w.got) && CqHolds(w.q, w.posted) && Tagged(w.posted, w.heads, w.q.depth)
    && w.seen == w.posted[..|w.seen|]
  }

  // ---------- the tests each party makes mean what they should ----------

  lemma SqFullMeaning(w: World)
    requires Inv(w)
    ensures SqFull(w.q) <==> |w.submitted| - KnownFetched(w) == w.q.depth - 1
  {
    FullSlots(KnownFetched(w), |w.submitted|, w.q.depth);
  }

  lemma CqFullMeaning(w: World)
    requires Inv(w)
    ensures CqFull(w.q) <==> |w.posted| - |w.seen| == w.q.depth - 1
  {
    FullSlots(|w.seen|, |w.posted|, w.q.depth);
  }

  lemma SqEmptyMeaning(w: World)
    requires Inv(w)
    ensures w.q.fetchHead == w.q.sqDoorbell <==> |w.got| == |w.submitted|
  {
    SameSlot(|w.got|, |w.submitted|, w.q.depth);
  }

  /**
   * The phase test succeeds exactly when some posted completion is not consumed, and then it reads the oldest of them.
   */
  lemma PhaseTest(w: World)
    requires Inv(w)
    ensures HasCompletion(w.q) <==> |w.seen| < |w.posted|
    ensures HasCompletion(w.q) ==> w.q.cq[w.q.cqHead] == w.posted[|w.seen|]
  {
    hide Slot, Phase, CqHolds, Tagged, SqHolds, Ordered;
    EntryAtHead(w.q, w.posted, w.heads, |w.seen|);
  }

  /**
   * The entry at the slot of counter `c`: completion `c` if it was posted, else one whose phase tag is of the lap
   * before.
   */
  lemma EntryAtHead(q: Ring, posted: seq<Cqe>, heads: seq<nat>, c: nat)
    requires q.Shaped() && CqHolds(q, posted) && |heads| == |posted| && Tagged(posted, heads, q.depth) &&
             c <= |posted| < c + q.depth
    ensures Slot(c, q.depth) < q.depth
    ensures c < |posted| ==> q.cq[Slot(c, q.depth)] == posted[c] && posted[c].phase == Phase(c, q.depth)
    ensures c == |posted| ==> q.cq[Slot(c, q.depth)].phase != Phase(c, q.depth)
  {
    hide Slot, Phase;
    var d := q.depth;
    SlotNext(c, d);
    if c < |posted| {
      assert q.cq[Slot(c, d)] == posted[c];
    } else if c < d {
      SlotSmall(c, d);
    } else {
      SlotLap(c - d, d);
      assert q.cq[Slot(c - d, d)] == posted[c - d];
    }
  }

  // ---------- every step keeps the invariant ----------

  lemma InitialInv(w: World)
    requires Initial(w)
    ensures Inv(w)
  {
    SlotSmall(0, w.q.depth);
  }

  lemma SubmitKeepsSq(q: Ring, submitted: seq<Sqe>, got: seq<Sqe>, cmd: Sqe)
    requires q.Shaped() && SqHolds(q, submitted, got) && q.sqTail == Slot(|submitted|, q.depth) &&
             |submitted| - |got| < q.depth - 1
    ensures SqHolds(Submit(q, cmd), submitted + [cmd], got)
  {
    hide Slot, Phase;
    var q', d, n := Submit(q, cmd), q.depth, |submitted|;
    forall i | |got| <= i < n + 1
      ensures Slot(i, d) < d && q'.sq[Slot(i, d)] == (submitted + [cmd])[i]
    {
      if i < n { SlotDistinct(i, n, d); }
    }
  }

  lemma SubmitKeepsInv(w: World, cmd: Sqe)
    requires Inv(w)
    ensures Inv(Next(w, DoSubmit(cmd)))
  {
    hide Slot, Phase, SqHolds;
    SqFullMeaning(w);
    if !SqFull(w.q) {
      SlotNext(|w.submitted|, w.q.depth);
      SubmitKeepsSq(w.q, w.submitted, w.got, cmd);
    }
  }

  lemma FetchKeepsInv(w: World)
    requires Inv(w) && Enabled(w, DoFetch)
    ensures Inv(Next(w, DoFetch))
  {
    hide Slot, Phase;
    SqEmptyMeaning(w);
    var w', d, n := Next(w, DoFetch), w.q.depth, |w.got|;
    SlotNext(n, d);
    assert w.q.sq[Slot(n, d)] == w.submitted[n];
    assert w'.got == w.submitted[..n + 1];
  }

  lemma PostKeepsCq(q: Ring, posted: seq<Cqe>, cid: nat, status: nat, dw0: nat)
    requires q.Shaped() && CqHolds(q, posted) && q.cqTail == Slot(|posted|, q.depth)
    ensures var q' := Post(q, cid, status, dw0); CqHolds(q', posted + [q'.cq[q.cqTail]])
  {
    hide Slot, Phase;
    var q', d, n := Post(q, cid, status, dw0), q.depth, |posted|;
    var posted' := posted + [q'.cq[q.cqTail]];
    forall i | 0 <= i < n + 1 && n + 1 - d <= i
      ensures Slot(i, d) < d && q'.cq[Slot(i, d)] == posted'[i]
    {
      if i < n { SlotDistinct(i, n, d); }
    }
    forall j | n + 1 <= j < d
      ensures !q'.cq[j].phase
    {
      SlotSmall(n, d);
    }
  }

  lemma PostKeepsInv(w: World, cid: nat, status: nat, dw0: nat)
    requires Inv(w) && Enabled(w, DoPost(cid, status, dw0))
    ensures Inv(Next(w, DoPost(cid, status, dw0)))
  {
    hide Slot, Phase, CqHolds;
    CqFullMeaning(w);
    SlotNext(|w.posted|, w.q.depth);
    PostKeepsCq(w.q, w.posted, cid, status, dw0);
  }

  lemma TakeKeepsInv(w: World)
    requires Inv(w)
    ensures Inv(Next(w, DoTake))
  {
    hide Slot, Phase;
    PhaseTest(w);
    if HasCompletion(w.q) {
      var w', d, n := Next(w, DoTake), w.q.depth, |w.seen|;
      SlotNext(n, d);
      assert w'.seen == w.posted[..n + 1];
    }
  }

  lemma StepKeepsInv(w: World, s: Step)
    requires Inv(w) && Enabled(w, s)
    ensures Inv(Next(w, s))
  {
    match s
    case DoSubmit(cmd) => SubmitKeepsInv(w, cmd);
    case DoFetch => FetchKeepsInv(w);
    case DoPost(cid, status, dw0) => PostKeepsInv(w, cid, status, dw0);
    case DoTake => TakeKeepsInv(w);
  }

  // ---------- whole runs ----------

  /** `ws` is a run of the two parties in any interleaving. */
  predicate IsRun(ws: seq<World>, steps: seq<Step>) {
    && |ws| == |steps| + 1 && Initial(ws[0])
    && forall k | 0 <= k < |steps| :: ws[k].q.Shaped() && Enabled(ws[k], steps[k]) && ws[k + 1] == Next(ws[k], steps[k])
  }

  lemma {:induction false} RunKeepsInv(ws: seq<World>, steps: seq<Step>, k: nat)
    requires IsRun(ws, steps) && k < |ws|
    ensures Inv(ws[k])
  {
    if k == 0 {
      InitialInv(ws[0]);
    } else {
      RunKeepsInv(ws, steps, k - 1);
      StepKeepsInv(ws[k - 1], steps[k - 1]);
    }
  }

  /**
   * Safety of every interleaving: the controller reads exactly the accepted commands in order (no slot is overwritten
   * before it is fetched), and the driver consumes exactly the posted completions in order, never one twice.
   */
  lemma RingSafety(ws: seq<World>, steps: seq<Step>, k: nat)
    requires IsRun(ws, steps) && k < |ws|
    ensures ws[k].q.Shaped()
    ensures ws[k].got <= ws[k].submitted && ws[k].seen <= ws[k].posted && |ws[k].seen| <= |ws[k].heads|
    ensures HasCompletion(ws[k].q) <==> |ws[k].seen| < |ws[k].posted|
    ensures SqFull(ws[k].q) <==> |ws[k].submitted| - KnownFetched(ws[k]) == ws[k].q.depth - 1
  {
    RunKeepsInv(ws, steps, k);
    InvMeans(ws[k]);
  }

  lemma InvMeans(w: World)
    requires Inv(w)
    ensures w.got <= w.submitted && w.seen <= w.posted && |w.seen| <= |w.heads|
    ensures HasCompletion(w.q) <==> |w.seen| < |w.posted|
    ensures SqFull(w.q) <==> |w.submitted| - KnownFetched(w) == w.q.depth - 1
  {
    PhaseTest(w);
    SqFullMeaning(w);
  }

  /** A submission touches no slot that holds a command the controller has still to fetch. */
  lemma NoOverwrite(ws: seq<World>, steps: seq<Step>, k: nat, i: nat)
    requires IsRun(ws, steps) && k < |steps| && steps[k].DoSubmit?
    requires |ws[k].got| <= i < |ws[k].submitted|
    ensures var s := Slot(i, ws[k].q.depth);
            s < ws[k].q.depth && ws[k + 1].q.sq[s] == ws[k].submitted[i] == ws[k].q.sq[s]
  {
    RunKeepsInv(ws, steps, k);
    RunKeepsInv(ws, steps, k + 1);
    assert ws[k + 1] == Next(ws[k], steps[k]);
  }
}
