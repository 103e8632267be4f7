/** The driver's mutable side: queue memory, the requests table, and the loops that work on them. */
module NvmeDriver {
  import opened NvmeRing
  import opened NvmeCid

  class QueuePair {
    const depth: nat
    const sq: array<Sqe>
    const cq: array<Cqe>
    var sqTail: nat
    var sqHead: nat
    var cqHead: nat
    var cqPhase: bool
    var sqDoorbell: nat
    var cqDoorbell: nat

    /** Memory and fields are the driver's part of `q`. */
    ghost predicate Shows(q: Ring)
      reads this, sq, cq
    {
      && q.Shaped() && q.depth == depth && sq[..] == q.sq && cq[..] == q.cq
      && sqTail == q.sqTail && sqHead == q.sqHead && cqHead == q.cqHead && cqPhase == q.cqPhase
      && sqDoorbell == q.sqDoorbell && cqDoorbell == q.cqDoorbell
    }

    /** nvme_init_queue. */
    constructor (depth: nat, zeroSqe: Sqe, zeroCqe: Cqe)
      requires depth >= 2 && !zeroCqe.phase
      ensures fresh(sq) && fresh(cq) && this.depth == depth
      ensures forall w: World ::
              Initial(w) && w.q.depth == depth && w.q.sq == seq(depth, _ => zeroSqe) &&
              w.q.cq == seq(depth, _ => zeroCqe) ==>
                Shows(w.q)
    {
      this.depth := depth;
      sq := new Sqe[depth](_ => zeroSqe);
      cq := new Cqe[depth](_ => zeroCqe);
      sqTail, sqHead, cqHead, cqPhase, sqDoorbell, cqDoorbell := 0, 0, 0, true, 0, 0;
      new;
      assert sq[..] == seq(depth, _ => zeroSqe);
      assert cq[..] == seq(depth, _ => zeroCqe);
    }

    /**
     * nvme_submit_cmd: refuses exactly when the known part of the ring is full, otherwise appends to what the
     * controller will fetch.
     */
    method SubmitCmd(cmd: Sqe, ghost w: World) returns (r: int)
      requires Inv(w) && Shows(w.q)
      modifies this`sqTail, this`sqDoorbell, sq
      ensures Inv(Next(w, DoSubmit(cmd))) && Shows(Next(w, DoSubmit(cmd)).q)
      ensures r == if |w.submitted| - KnownFetched(w) == depth - 1 then -1 else 0
      ensures Next(w, DoSubmit(cmd)).submitted == if r == 0 then w.submitted + [cmd] else w.submitted
    {
      hide Inv;
      InvShape(w);
      SqFullMeaning(w);
      SubmitKeepsInv(w, cmd);
      var tail := sqTail;
      var next := (tail + 1) % depth;
      if next == sqHead {
        r := -1;
      } else {
        sq[tail] := cmd;
        sqTail := next;
        sqDoorbell := next;
        r := 0;
      }
    }

    /** The locked part of one round: consumes the oldest unconsumed completion, if there is one. */
    method TakeNext(ghost w: World) returns (found: bool, cqe: Cqe)
      requires Inv(w) && Shows(w.q)
      modifies this`sqHead, this`cqHead, this`cqPhase, this`cqDoorbell
      ensures Inv(Next(w, DoTake)) && Shows(Next(w, DoTake).q)
      ensures |w.seen| <= |w.posted| && found == (|w.seen| < |w.posted|) == HasCompletion(w.q)
      ensures found ==> cqe == w.posted[|w.seen|] && Next(w, DoTake).seen == w.seen + [cqe]
    {
      hide Inv;
      InvShape(w);
      PhaseTest(w);
      TakeKeepsInv(w);
      cqe := cq[cqHead];
      found := cqe.phase == cqPhase;
      if found {
        sqHead := cqe.sqHead;
        cqHead := cqHead + 1;
        if cqHead >= depth {
          cqHead := 0;
          cqPhase := !cqPhase;
        }
        cqDoorbell := cqHead;
      }
    }
  }

  lemma SearchStep(requests: seq<Slot>, pos: nat, i: nat)
    requires |requests| == MAX_REQUESTS && i < MAX_REQUESTS && requests[(pos + i) % MAX_REQUESTS].Held?
    ensures Search(requests, (pos + i) % MAX_REQUESTS, MAX_REQUESTS - i) ==
            Search(requests, (pos + i + 1) % MAX_REQUESTS, MAX_REQUESTS - i - 1)
  {
    assert ((pos + i) % MAX_REQUESTS + 1) % MAX_REQUESTS == (pos + i + 1) % MAX_REQUESTS;
  }

  lemma SearchStop(requests: seq<Slot>, at: nat, n: nat)
    requires |requests| == MAX_REQUESTS && at < MAX_REQUESTS && (n == 0 || requests[at].Free?)
    ensures Search(requests, at, n) == if n == 0 then MAX_REQUESTS else at
  {
  }

  class Requests {
    const slots: array<Slot>
    var pos: nat

    ghost predicate Shows(requests: seq<Slot>, at: nat)
      reads this, slots
    {
      slots.Length == MAX_REQUESTS && slots[..] == requests && pos == at && at < MAX_REQUESTS
    }

    constructor ()
      ensures fresh(slots) && Shows(seq(MAX_REQUESTS, _ => Free), 0)
    {
      slots := new Slot[MAX_REQUESTS](_ => Free);
      pos := 0;
      new;
      assert slots[..] == seq(MAX_REQUESTS, _ => Free);
    }

    /** nvme_alloc_cid: the first free slot in cyclic order from pos, 0xFFFF exactly when every slot is held. */
    method AllocCid(token: nat) returns (cid: nat)
      requires slots.Length == MAX_REQUESTS && pos < MAX_REQUESTS
      modifies this`pos, slots
      ensures cid == 0xFFFF <==> forall c | 0 <= c < MAX_REQUESTS :: old(slots[..])[c].Held?
      ensures cid == 0xFFFF ==> slots[..] == old(slots[..]) && pos == old(pos)
      ensures cid != 0xFFFF ==>
              cid < MAX_REQUESTS && old(slots[..])[cid].Free? && cid == Search(old(slots[..]), old(pos), MAX_REQUESTS)
      ensures cid != 0xFFFF ==> slots[..] == old(slots[..])[cid := Held(token)]
      ensures cid != 0xFFFF ==> pos == if cid == 0xFF then 0 else cid + 1
      ensures cid != 0xFFFF ==> forall c | 0 <= c < MAX_REQUESTS && old(slots[..])[c].Free? ::
              Steps(old(pos), cid) <= Steps(old(pos), c)
    {
      hide Search;
      ghost var was := slots[..];
      forall c | 0 <= c < MAX_REQUESTS && was[c].Free? && Search(was, pos, MAX_REQUESTS) < MAX_REQUESTS
        ensures Steps(pos, Search(was, pos, MAX_REQUESTS)) <= Steps(pos, c)
      {
        SearchNearest(was, pos, MAX_REQUESTS, c);
      }
      SearchComplete(was, pos);
      cid := pos;
      var i := 0;
      while i < MAX_REQUESTS && slots[cid].Held?
        invariant 0 <= i <= MAX_REQUESTS && pos == old(pos) && cid == (pos + i) % MAX_REQUESTS
        invariant slots[..] == was && Search(was, pos, MAX_REQUESTS) == Search(was, cid, MAX_REQUESTS - i)
      {
        SearchStep(was, pos, i);
        i := i + 1;
        cid := (pos + i) % MAX_REQUESTS;
      }
      SearchStop(was, cid, MAX_REQUESTS - i);
      if i == MAX_REQUESTS {
        cid := 0xFFFF;
      } else {
        slots[cid] := Held(token);
        pos := (cid + 1) % MAX_REQUESTS;
      }
    }

    /** nvme_release_cid. */
    method ReleaseCid(cid: nat)
      requires slots.Length == MAX_REQUESTS
      modifies slots
      ensures slots[..] == if cid < MAX_REQUESTS then old(slots[..])[cid := Free] else old(slots[..])
    {
      if cid < MAX_REQUESTS {
        slots[cid] := Free;
      }
    }

    /** nvme_complete_request: empties the slot first, so only one caller finds the callback there. */
    method CompleteRequest(cid: nat, success: bool, result: nat) returns (calls: seq<Call>)
      requires slots.Length == MAX_REQUESTS
      modifies slots
      ensures slots[..] == if cid < MAX_REQUESTS then old(slots[..])[cid := Free] else old(slots[..])
      ensures calls == if cid < MAX_REQUESTS &&
              old(slots[..])[cid].Held? then [Call(old(slots[..])[cid].token, success, result)] else []
    {
      calls := [];
      if cid < MAX_REQUESTS {
        var req := slots[cid];
        slots[cid] := Free;
        if req.Held? {
          calls := [Call(req.token, success, result)];
        }
      }
    }
  }

  /** What a drain of queue `x` leaves alone. */
  ghost predicate OnlyQueue(h: Host, h': Host, x: nat)
    requires x < |h.qs|
  {
    && |h'.qs| == |h.qs| && (forall y | 0 <= y < |h.qs| && y != x :: h'.qs[y] == h.qs[y])
    && h'.qs[x].w.posted == h.qs[x].w.posted && h'.qs[x].w.submitted == h.qs[x].w.submitted
    && h'.qs[x].codes == h.qs[x].codes
    && h'.hands == h.hands && h'.pending == h.pending && h'.pos == h.pos
  }

  lemma OnlyQueueRefl(h: Host, x: nat)
    requires x < |h.qs|
    ensures OnlyQueue(h, h, x)
  {
  }

  lemma RoundOnly(h: Host, t: nat, x: nat)
    requires HostInv(h) && x < |h.qs| && t !in h.pending && HasCompletion(h.qs[x].w.q)
    ensures var l := h.qs[x];
            && |l.w.seen| < |l.w.posted|
            && var h1 := ConsumeOn(h, t, x); var cqe := l.w.posted[|l.w.seen|];
            && HostInv(h1) && Shaped(h1) && t in h1.pending && h1.qs[x].w == Next(l.w, DoTake)
            && h1.requests == h.requests
            && var h2 := CompleteBy(h1, t);
            && HostInv(h2) && OnlyQueue(h, h2, x) && h2.qs[x].w == Next(l.w, DoTake)
            && cqe.cid < MAX_REQUESTS && h.requests[cqe.cid].Held?
            && h2.requests == h.requests[cqe.cid := Free] && h2.pos == h.pos && |h2.qs| == |h.qs|
            && h2.log == h.log + [Call(h.requests[cqe.cid].token, Success(cqe.status), cqe.dw0)]
            && |l.codes| == |l.w.posted| && (Success(cqe.status) <==> l.codes[|l.w.seen|].Good())
  {
    hide QueueOk, HandsOk, PendingOk, LogOk, HasCompletion, Take;
    ConsumeHere(h, t, x);
    ConsumeKeeps(h, t, x);
    var h1 := ConsumeOn(h, t, x);
    PendingHeld(h1, t);
    CompleteKeeps(h1, t);
    TakeReads(h, x);
    assert h1.pending - {t} == h.pending;
  }

  lemma TakeReads(h: Host, x: nat)
    requires HostInv(h) && x < |h.qs| && HasCompletion(h.qs[x].w.q)
    ensures var w := h.qs[x].w; |w.seen| < |w.posted| && Next(w, DoTake).seen == w.seen + [w.posted[|w.seen|]]
  {
    assert QueueOk(h.qs[x], x, h.requests, h.home, h.pending, h.from);
    PhaseTest(h.qs[x].w);
  }

  /**
   * nvme_process_queue_completions with the controller quiet: consumes every posted completion in order, runs one
   * callback for each with that completion's own status, and frees exactly the identifiers they carried.
   */
  method ProcessCompletions(q: QueuePair, table: Requests, ghost h: Host, ghost x: nat, ghost t: nat)
    returns (count: nat, calls: seq<Call>, ghost h': Host)
    requires HostInv(h) && x < |h.qs| && t !in h.pending
    requires q.Shows(h.qs[x].w.q) && table.Shows(h.requests, h.pos)
    modifies q`sqHead, q`cqHead, q`cqPhase, q`cqDoorbell, table.slots
    ensures HostInv(h') && OnlyQueue(h, h', x) && h'.qs[x].w.seen == h.qs[x].w.posted
    ensures q.Shows(h'.qs[x].w.q) && table.Shows(h'.requests, h'.pos)
    ensures h'.log == h.log + calls && count == |calls| == |h.qs[x].w.posted| - |h.qs[x].w.seen|
    ensures |h.qs[x].codes| == |h.qs[x].w.posted|
    ensures forall j | 0 <= j < |calls| :: Tells(h.qs[x], |h.qs[x].w.seen| + j, calls[j])
  {
    hide HostInv, Inv;
    HostQueue(h, x);
    count, calls, h' := 0, [], h;
    var more := true;
    while more
      invariant HostInv(h') && OnlyQueue(h, h', x) && t !in h'.pending
      invariant q.Shows(h'.qs[x].w.q) && table.Shows(h'.requests, h'.pos)
      invariant h'.log == h.log + calls && count == |calls| == |h'.qs[x].w.seen| - |h.qs[x].w.seen|
      invariant !more ==> h'.qs[x].w.seen == h'.qs[x].w.posted
      invariant forall j | 0 <= j < |calls| :: Tells(h.qs[x], |h.qs[x].w.seen| + j, calls[j])
      decreases more, |h'.qs[x].w.posted| - |h'.qs[x].w.seen|
    {
      var new_calls;
      more, new_calls, h' := CompletionRound(q, table, h', x, t);
      HostQueue(h', x);
      calls := calls + new_calls;
      count := count + |new_calls|;
    }
  }

  /**
   * A callback's flag and result are what the controller posted as completion `k`: success only for code and type 0.
   */
  ghost predicate Tells(l: Line, k: nat, call: Call) {
    && k < |l.codes| && k < |l.w.posted| && call.result == l.w.posted[k].dw0
    && (call.success <==> l.codes[k].sc == 0 && l.codes[k].sct == 0)
  }

  /** One round: take a completion, then complete its request. */
  method CompletionRound(q: QueuePair, table: Requests, ghost h: Host, ghost x: nat, ghost t: nat)
    returns (found: bool, calls: seq<Call>, ghost h': Host)
    requires HostInv(h) && x < |h.qs| && t !in h.pending
    requires q.Shows(h.qs[x].w.q) && table.Shows(h.requests, h.pos)
    modifies q`sqHead, q`cqHead, q`cqPhase, q`cqDoorbell, table.slots
    ensures HostInv(h') && OnlyQueue(h, h', x)
    ensures q.Shows(h'.qs[x].w.q) && table.Shows(h'.requests, h'.pos)
    ensures found == (|h.qs[x].w.seen| < |h.qs[x].w.posted|)
    ensures h'.log == h.log + calls && |calls| == (if found then 1 else 0)
    ensures found ==> Tells(h.qs[x], |h.qs[x].w.seen|, calls[0])
    ensures |h'.qs[x].w.seen| == |h.qs[x].w.seen| + |calls| && (!found ==> h'.qs[x].w.seen == h.qs[x].w.posted)
  {
    hide HostInv, Inv, OnlyQueue, HasCompletion, CompleteBy, ConsumeOn;
    HostQueue(h, x);
    OnlyQueueRefl(h, x);
    var cqe;
    found, cqe := q.TakeNext(h.qs[x].w);
    calls, h' := [], h;
    if found {
      RoundOnly(h, t, x);
      calls := table.CompleteRequest(cqe.cid, Success(cqe.status), cqe.dw0);
      h' := CompleteBy(ConsumeOn(h, t, x), t);
    }
  }

  lemma HostQueue(h: Host, x: nat)
    requires HostInv(h) && x < |h.qs|
    ensures Shaped(h) && Inv(h.qs[x].w) && |h.qs[x].w.seen| <= |h.qs[x].w.posted| == |h.qs[x].codes| &&
            h.qs[x].w.seen == h.qs[x].w.posted[..|h.qs[x].w.seen|]
  {
    hide Inv;
    assert QueueOk(h.qs[x], x, h.requests, h.home, h.pending, h.from);
    InvShape(h.qs[x].w);
  }
}
