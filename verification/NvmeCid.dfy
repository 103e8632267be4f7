/** Command identifiers shared by the admin and I/O queues: every live command owns its slot of requests[]. */
module NvmeCid {
  import opened NvmeRing
  import opened Arith
  import opened Bytes

  /** A slot of requests[]; `token` names the call of nvme_alloc_cid whose callback and context it carries. */
  datatype Slot = Free | Held(token: nat)

  const MAX_REQUESTS: nat := 256

  /** A thread between nvme_alloc_cid and nvme_submit_cmd (or nvme_release_cid). */
  datatype Hand = Hand(cid: nat, token: nat)

  /** Completion number `k` of queue `x`. */
  datatype Source = Source(x: nat, k: nat)

  /** One callback invocation. */
  datatype Call = Call(token: nat, success: bool, result: nat)

  /** What became of a submitted command; bookkeeping only, apart from the controller's Waiting. */
  datatype Fate =
    | Waiting
    | Answered(k: nat)
    | Taken(k: nat, thread: nat)
    | Called(k: nat, call: nat)

  datatype Home = InHand(thread: nat) | Sent(x: nat, i: nat) | Dropped

  /** A queue pair with the token and fate of each submitted command and the command each completion answers. */
  datatype Line = Line(w: World, tokens: seq<nat>, fate: seq<Fate>, answers: seq<nat>, codes: seq<Code>)

  /** How the controller ended a command: status code, status code type, and the other bits of the status field. */
  datatype Code = Code(sc: nat, sct: nat, rest: nat)
  {
    predicate Ok() { sc < 0x100 && sct < 8 }

    /** The status field of a completion, without its phase bit. */
    function Field(): nat { sc + 0x100 * sct + 0x800 * rest }

    /** The command succeeded. */
    predicate Good() { sc == 0 && sct == 0 }
  }

  datatype Host = Host(
    requests: seq<Slot>, pos: nat, hands: map<nat, Hand>, qs: seq<Line>, pending: map<nat, Source>,
    log: seq<Call>, from: seq<Source>, home: seq<Home>)

  // ---------- nvme_alloc_cid ----------

  /** The scan: up to `n` slots starting at `at`, in cyclic order; `MAX_REQUESTS` if all are held. */
  function Search(requests: seq<Slot>, at: nat, n: nat): (cid: nat)
    requires |requests| == MAX_REQUESTS && at < MAX_REQUESTS
    ensures cid <= MAX_REQUESTS
    ensures cid < MAX_REQUESTS ==> requests[cid].Free?
    decreases n
  {
    if n == 0 then MAX_REQUESTS
    else if requests[at].Free? then at
    else Search(requests, (at + 1) % MAX_REQUESTS, n - 1)
  }

  /** A free slot within `n` steps of `at` is enough for the scan to succeed. */
  lemma {:induction false} SearchFinds(requests: seq<Slot>, at: nat, n: nat, d: nat)
    requires |requests| == MAX_REQUESTS && at < MAX_REQUESTS && d < n && requests[(at + d) % MAX_REQUESTS].Free?
    ensures Search(requests, at, n) < MAX_REQUESTS
    decreases n
  {
    if !requests[at].Free? {
      assert d > 0;
      assert ((at + 1) % MAX_REQUESTS + (d - 1)) % MAX_REQUESTS == (at + d) % MAX_REQUESTS;
      SearchFinds(requests, (at + 1) % MAX_REQUESTS, n - 1, d - 1);
    }
  }

  /** How far a scan from `at` has to go to reach slot `c`. */
  function Steps(at: nat, c: nat): int { if c >= at then c - at else c - at + 256 }

  /** What the scan finds is the nearest free slot upwards from its start. */
  lemma {:induction false} SearchNearest(requests: seq<Slot>, at: nat, n: nat, c: nat)
    requires |requests| == MAX_REQUESTS && at < MAX_REQUESTS && n <= MAX_REQUESTS &&
             Search(requests, at, n) < MAX_REQUESTS
    requires c < MAX_REQUESTS && requests[c].Free?
    ensures Steps(at, Search(requests, at, n)) <= Steps(at, c) && Steps(at, Search(requests, at, n)) < n
    decreases n
  {
    if !requests[at].Free? {
      var next := if at + 1 < 256 then at + 1 else 0;
      assert (at + 1) % MAX_REQUESTS == next;
      SearchNearest(requests, next, n - 1, c);
    }
  }

  /** The full scan fails exactly when no slot is free, wherever it starts. */
  lemma SearchComplete(requests: seq<Slot>, at: nat)
    requires |requests| == MAX_REQUESTS && at < MAX_REQUESTS
    ensures Search(requests, at, MAX_REQUESTS) == MAX_REQUESTS <==> forall c | 0 <= c < MAX_REQUESTS ::
            requests[c].Held?
  {
    if c :| 0 <= c < MAX_REQUESTS && requests[c].Free? {
      var d := if c >= at then c - at else c + MAX_REQUESTS - at;
      assert (at + d) % MAX_REQUESTS == c;
      SearchFinds(requests, at, MAX_REQUESTS, d);
    }
  }

  // ---------- steps ----------

  datatype Move =
    | Alloc(thread: nat)
    | Release(thread: nat)
    | Send(thread: nat, x: nat, body: nat)
    | FetchOn(x: nat)
    | Answer(x: nat, i: nat, code: Code, dw0: nat)
    | Consume(thread: nat, x: nat)
    | Complete(thread: nat)

  /** Status code and status code type both zero; `status` is the field without its phase bit. */
  predicate Success(status: nat) {
    status % 256 == 0 && status / 256 % 8 == 0
  }

  /** The driver's reading of the field is that both are zero. */
  lemma SuccessIff(c: Code)
    requires c.Ok()
    ensures Success(c.Field()) <==> c.Good()
  {
    RemainderIs(c.Field(), 0x100, c.sct + 8 * c.rest, c.sc);
    RemainderIs(c.sct + 8 * c.rest, 8, c.rest, c.sct);
  }

  predicate LineShaped(l: Line) {
    && l.w.q.Shaped() && |l.tokens| == |l.fate| == |l.w.submitted| && |l.answers| == |l.codes| == |l.w.posted|
    && |l.w.got| <= |l.w.submitted| && |l.w.seen| <= |l.w.posted|
    && (forall k | 0 <= k < |l.answers| :: l.answers[k] < |l.fate|)
  }

  predicate Shaped(h: Host) {
    && |h.requests| == MAX_REQUESTS && h.pos < MAX_REQUESTS
    && (forall x | 0 <= x < |h.qs| :: LineShaped(h.qs[x]))
    && (forall t | t in h.hands :: h.hands[t].cid < MAX_REQUESTS && h.hands[t].token < |h.home|)
    && (forall t | t in h.pending :: h.pending[t].x < |h.qs| && h.pending[t].k < |h.qs[h.pending[t].x].w.seen|)
  }

  /** The controller answers a fetched command once and never posts to a full ring; threads move in program order. */
  predicate CanMove(h: Host, m: Move)
    requires Shaped(h)
  {
    match m
    case Alloc(t) => t !in h.hands
    case Release(t) => t in h.hands
    case Send(t, x, _) => t in h.hands && x < |h.qs|
    case FetchOn(x) => x < |h.qs| && Enabled(h.qs[x].w, DoFetch)
    case Answer(x, i, code, _) =>
      code.Ok() && x < |h.qs| && i < |h.qs[x].w.got| && h.qs[x].fate[i].Waiting? && !CqFull(h.qs[x].w.q)
    case Consume(t, x) => t !in h.pending && x < |h.qs|
    case Complete(t) => t in h.pending
  }

  function AllocTo(h: Host, t: nat): Host
    requires Shaped(h)
  {
    var cid := Search(h.requests, h.pos, MAX_REQUESTS);
    if cid == MAX_REQUESTS then h
    else
      h.(requests := h.requests[cid := Held(|h.home|)], pos := (cid + 1) % MAX_REQUESTS,
         hands := h.hands[t := Hand(cid, |h.home|)], home := h.home + [InHand(t)])
  }

  function ReleaseOf(h: Host, t: nat): Host
    requires Shaped(h) && t in h.hands
  {
    var hand := h.hands[t];
    h.(requests := h.requests[hand.cid := Free], hands := h.hands - {t}, home := h.home[hand.token := Dropped])
  }

  function LineSend(l: Line, cmd: Sqe, token: nat): Line
    requires LineShaped(l)
  {
    l.(w := Next(l.w, DoSubmit(cmd)), tokens := l.tokens + [token], fate := l.fate + [Waiting])
  }

  /** nvme_submit_cmd; on a full queue the thread still holds its command and releases it next. */
  function SendFrom(h: Host, t: nat, x: nat, body: nat): Host
    requires Shaped(h) && t in h.hands && x < |h.qs|
  {
    var l, hand := h.qs[x], h.hands[t];
    if SqFull(l.w.q) then h
    else
      h.(qs := h.qs[x := LineSend(l, Sqe(hand.cid, body), hand.token)], hands := h.hands - {t},
         home := h.home[hand.token := Sent(x, |l.tokens|)])
  }

  function LineFetch(l: Line): Line
    requires LineShaped(l)
  {
    l.(w := Next(l.w, DoFetch))
  }

  function LineAnswer(l: Line, i: nat, code: Code, dw0: nat): Line
    requires LineShaped(l) && i < |l.w.got|
  {
    l.(w := Next(l.w, DoPost(l.w.got[i].cid, code.Field(), dw0)), fate := l.fate[i := Answered(|l.answers|)],
       answers := l.answers + [i], codes := l.codes + [code])
  }

  function LineTake(l: Line, t: nat): Line
    requires LineShaped(l) && |l.w.seen| < |l.answers|
  {
    l.(w := Next(l.w, DoTake), fate := l.fate[l.answers[|l.w.seen|] := Taken(|l.w.seen|, t)])
  }

  /** The locked part of nvme_process_queue_completions. */
  function ConsumeOn(h: Host, t: nat, x: nat): Host
    requires Shaped(h) && x < |h.qs|
  {
    var l := h.qs[x];
    if !HasCompletion(l.w.q) || |l.w.seen| == |l.answers| then h
    else h.(qs := h.qs[x := LineTake(l, t)], pending := h.pending[t := Source(x, |l.w.seen|)])
  }

  function LineCall(l: Line, k: nat, j: nat): Line
    requires LineShaped(l) && k < |l.answers|
  {
    l.(fate := l.fate[l.answers[k] := Called(k, j)])
  }

  /** nvme_complete_request with the identifier the thread read from its completion. */
  function CompleteBy(h: Host, t: nat): Host
    requires Shaped(h) && t in h.pending
  {
    var s := h.pending[t];
    var l := h.qs[s.x];
    var cqe := l.w.seen[s.k];
    if cqe.cid >= MAX_REQUESTS || h.requests[cqe.cid].Free? then h.(pending := h.pending - {t})
    else
      h.(requests := h.requests[cqe.cid := Free], pending := h.pending - {t},
        qs := h.qs[s.x := LineCall(l, s.k, |h.log|)],
         log := h.log + [Call(h.requests[cqe.cid].token, Success(cqe.status), cqe.dw0)], from := h.from + [s])
  }

  function Go(h: Host, m: Move): Host
    requires Shaped(h) && CanMove(h, m)
  {
    match m
    case Alloc(t) => AllocTo(h, t)
    case Release(t) => ReleaseOf(h, t)
    case Send(t, x, body) => SendFrom(h, t, x, body)
    case FetchOn(x) => h.(qs := h.qs[x := LineFetch(h.qs[x])])
    case Answer(x, i, code, dw0) => h.(qs := h.qs[x := LineAnswer(h.qs[x], i, code, dw0)])
    case Consume(t, x) => ConsumeOn(h, t, x)
    case Complete(t) => CompleteBy(h, t)
  }

  // ---------- the invariant ----------

  predicate Live(f: Fate) {
    !f.Called?
  }

  /** Completion `k` answers command `answers[k]` with that command's identifier, and nothing else answers it. */
  predicate LineOk(l: Line) {
    && LineShaped(l) && Inv(l.w)
    && (forall k | 0 <= k < |l.answers| ::
          && l.answers[k] < |l.w.got| && l.w.posted[k].cid == l.w.submitted[l.answers[k]].cid
          && l.codes[k].Ok() && l.w.posted[k].status == l.codes[k].Field()
          && !l.fate[l.answers[k]].Waiting? && l.fate[l.answers[k]].k == k
          && (l.fate[l.answers[k]].Answered? <==> |l.w.seen| <= k))
    && (forall i | 0 <= i < |l.fate| ::
      l.fate[i].Waiting? || (l.fate[i].k < |l.answers| && l.answers[l.fate[i].k] == i))
  }

  /** Every live command's identifier is in range and its slot carries exactly that command's callback. */
  predicate LiveHeld(l: Line, requests: seq<Slot>)
    requires LineShaped(l) && |requests| == MAX_REQUESTS
  {
    forall i | 0 <= i < |l.fate| && Live(l.fate[i]) ::
      l.w.submitted[i].cid < MAX_REQUESTS && requests[l.w.submitted[i].cid] == Held(l.tokens[i])
  }

  predicate Homes(l: Line, x: nat, home: seq<Home>) {
    forall i | 0 <= i < |l.tokens| :: l.tokens[i] < |home| && home[l.tokens[i]] == Sent(x, i)
  }

  /** The thread a taken command names holds its completion. */
  predicate TakenIs(l: Line, x: nat, pending: map<nat, Source>) {
    forall i | 0 <= i < |l.fate| && l.fate[i].Taken? ::
      l.fate[i].thread in pending && pending[l.fate[i].thread] == Source(x, l.fate[i].k)
  }

  /** The callback a called command names was made for its completion. */
  predicate CalledIs(l: Line, x: nat, from: seq<Source>) {
    forall i | 0 <= i < |l.fate| && l.fate[i].Called? ::
      l.fate[i].call < |from| && from[l.fate[i].call] == Source(x, l.fate[i].k)
  }

  predicate QueueOk(l: Line, x: nat, requests: seq<Slot>, home: seq<Home>, pending: map<nat, Source>, from: seq<Source>)
    requires |requests| == MAX_REQUESTS
  {
    LineOk(l) && LiveHeld(l, requests) && Homes(l, x, home) && TakenIs(l, x, pending) && CalledIs(l, x, from)
  }

  predicate HandsOk(hands: map<nat, Hand>, requests: seq<Slot>, home: seq<Home>) {
    forall t | t in hands ::
      && hands[t].cid < |requests| && requests[hands[t].cid] == Held(hands[t].token)
      && hands[t].token < |home| && home[hands[t].token] == InHand(t)
  }

  predicate PendingOk(pending: map<nat, Source>, qs: seq<Line>)
    requires forall x | 0 <= x < |qs| :: LineShaped(qs[x])
  {
    forall t | t in pending ::
      pending[t].x < |qs| && pending[t].k < |qs[pending[t].x].w.seen| && TakenBy(qs[pending[t].x], pending[t].k, t)
  }

  predicate TakenBy(l: Line, k: nat, t: nat)
    requires LineShaped(l) && k < |l.w.seen|
  {
    l.fate[l.answers[k]] == Taken(k, t)
  }

  /** Callback `j` was made for completion `k`, with its command's token and the completion's own status. */
  predicate Explains(l: Line, k: nat, j: nat, call: Call)
    requires LineShaped(l)
  {
    && k < |l.w.seen| && l.fate[l.answers[k]] == Called(k, j)
    && call == Call(l.tokens[l.answers[k]], l.codes[k].Good(), l.w.seen[k].dw0)
  }

  predicate LogOk(log: seq<Call>, from: seq<Source>, qs: seq<Line>)
    requires forall x | 0 <= x < |qs| :: LineShaped(qs[x])
  {
    |log| == |from| && forall j | 0 <= j < |log| :: from[j].x < |qs| && Explains(qs[from[j].x], from[j].k, j, log[j])
  }

  predicate HostInv(h: Host) {
    && Shaped(h)
    && (forall x | 0 <= x < |h.qs| :: QueueOk(h.qs[x], x, h.requests, h.home, h.pending, h.from))
    && HandsOk(h.hands, h.requests, h.home) && PendingOk(h.pending, h.qs) && LogOk(h.log, h.from, h.qs)
  }

  // ---------- every step keeps it ----------

  lemma InvShape(w: World)
    requires Inv(w)
    ensures w.q.Shaped() && |w.seen| <= |w.posted| <= |w.got| <= |w.submitted| && |w.posted| == |w.heads|
    ensures w.got == w.submitted[..|w.got|] && w.seen == w.posted[..|w.seen|]
  {
  }

  lemma OkShape(l: Line)
    ensures LineOk(l) ==> LineShaped(l)
  {
  }

  // ---------- one queue's own part ----------

  lemma SendKeepsLine(l: Line, cmd: Sqe, token: nat)
    requires LineOk(l) && !SqFull(l.w.q)
    ensures LineOk(LineSend(l, cmd, token))
  {
    hide Inv, Submit, SqFull;
    InvShape(l.w);
    SubmitKeepsInv(l.w, cmd);
  }

  lemma FetchKeepsLine(l: Line)
    requires LineOk(l) && Enabled(l.w, DoFetch)
    ensures LineOk(LineFetch(l))
  {
    hide Inv;
    InvShape(l.w);
    FetchKeepsInv(l.w);
    InvShape(LineFetch(l).w);
  }

  /** While a fetched command waits, fewer completions were posted than commands fetched. */
  lemma RoomToAnswer(l: Line, i: nat)
    requires LineOk(l) && i < |l.w.got| && l.fate[i].Waiting?
    ensures |l.w.posted| < |l.w.got|
  {
    hide Inv;
    forall j, k | 0 <= j < k < |l.answers|
      ensures l.answers[j] != l.answers[k]
    {
      assert l.fate[l.answers[j]].k == j && l.fate[l.answers[k]].k == k;
    }
    DistinctFit(l.answers, Below(|l.w.got|) - {i});
  }

  lemma AnswerKeepsLine(l: Line, i: nat, code: Code, dw0: nat)
    requires LineOk(l) && code.Ok() && i < |l.w.got| && l.fate[i].Waiting? && !CqFull(l.w.q)
    ensures LineOk(LineAnswer(l, i, code, dw0))
  {
    hide Inv, CqFull;
    RoomToAnswer(l, i);
    InvShape(l.w);
    PostKeepsInv(l.w, l.w.got[i].cid, code.Field(), dw0);
  }

  lemma TakeKeepsLine(l: Line, t: nat)
    requires LineOk(l) && |l.w.seen| < |l.answers| && HasCompletion(l.w.q)
    ensures LineOk(LineTake(l, t))
  {
    hide Inv, HasCompletion;
    TakeKeepsInv(l.w);
    InvShape(LineTake(l, t).w);
  }

  lemma CallKeepsLine(l: Line, k: nat, j: nat)
    requires LineOk(l) && k < |l.w.seen|
    ensures LineOk(LineCall(l, k, j))
  {
    hide Inv;
    InvShape(l.w);
  }

  // ---------- every step keeps the whole invariant ----------

  lemma AllocKeeps(h: Host, t: nat)
    requires HostInv(h) && CanMove(h, Alloc(t))
    ensures HostInv(AllocTo(h, t))
  {
    hide LineOk, PendingOk, LogOk, TakenIs, CalledIs, Search;
    var h' := AllocTo(h, t);
    forall x | 0 <= x < |h'.qs|
      ensures QueueOk(h'.qs[x], x, h'.requests, h'.home, h'.pending, h'.from)
    {
      assert QueueOk(h.qs[x], x, h.requests, h.home, h.pending, h.from);
    }
  }

  lemma ReleaseKeeps(h: Host, t: nat)
    requires HostInv(h) && CanMove(h, Release(t))
    ensures HostInv(ReleaseOf(h, t))
  {
    hide LineOk, PendingOk, LogOk, TakenIs, CalledIs;
    var h', hand := ReleaseOf(h, t), h.hands[t];
    forall x | 0 <= x < |h'.qs|
      ensures QueueOk(h'.qs[x], x, h'.requests, h'.home, h'.pending, h'.from)
    {
      assert QueueOk(h.qs[x], x, h.requests, h.home, h.pending, h.from);
    }
  }

  /** `l'` continues `l` as far as taken completions and made callbacks can see. */
  predicate Continues(l: Line, l': Line)
    requires LineShaped(l) && LineShaped(l')
  {
    && |l.fate| <= |l'.fate| && l.w.seen <= l'.w.seen && l.answers <= l'.answers && l.codes <= l'.codes
    && l.tokens <= l'.tokens
    && forall i | 0 <= i < |l.fate| && (l.fate[i].Taken? || l.fate[i].Called?) :: l'.fate[i] == l.fate[i]
  }

  lemma PendingStays(pending: map<nat, Source>, qs: seq<Line>, x: nat, l': Line)
    requires (forall y | 0 <= y < |qs| :: LineShaped(qs[y])) && PendingOk(pending, qs)
    requires x < |qs| && LineShaped(l') && Continues(qs[x], l')
    ensures PendingOk(pending, qs[x := l'])
  {
    forall t | t in pending
      ensures var q := qs[x := l'][pending[t].x]; pending[t].k < |q.w.seen| && TakenBy(q, pending[t].k, t)
    {
      assert TakenBy(qs[pending[t].x], pending[t].k, t);
    }
  }

  lemma LogStays(log: seq<Call>, from: seq<Source>, qs: seq<Line>, x: nat, l': Line)
    requires (forall y | 0 <= y < |qs| :: LineShaped(qs[y])) && LogOk(log, from, qs)
    requires x < |qs| && LineShaped(l') && Continues(qs[x], l')
    ensures LogOk(log, from, qs[x := l'])
  {
    forall j | 0 <= j < |log|
      ensures Explains(qs[x := l'][from[j].x], from[j].k, j, log[j])
    {
      assert Explains(qs[from[j].x], from[j].k, j, log[j]);
    }
  }

  lemma SentHere(l: Line, x: nat, hand: Hand, body: nat, requests: seq<Slot>, home: seq<Home>, pending: map<nat,
      Source>, from: seq<Source>)
    requires |requests| == MAX_REQUESTS && QueueOk(l, x, requests, home, pending, from) && !SqFull(l.w.q)
    requires hand.cid < MAX_REQUESTS && requests[hand.cid] == Held(hand.token) && hand.token < |home| &&
             home[hand.token].InHand?
    ensures var l' := LineSend(l, Sqe(hand.cid, body), hand.token);
            && LineShaped(l') && Continues(l, l')
            && QueueOk(l', x, requests, home[hand.token := Sent(x, |l.tokens|)], pending, from)
  {
    hide LineOk, SqFull, Submit, Inv;
    OkShape(l);
    OkShape(LineSend(l, Sqe(hand.cid, body), hand.token));
    SendKeepsLine(l, Sqe(hand.cid, body), hand.token);
  }

  lemma SendKeeps(h: Host, t: nat, x: nat, body: nat)
    requires HostInv(h) && CanMove(h, Send(t, x, body))
    ensures HostInv(SendFrom(h, t, x, body))
  {
    hide LineOk, LineSend, PendingOk, LogOk, SqFull, LiveHeld, TakenIs, CalledIs, Continues;
    var h', l, hand := SendFrom(h, t, x, body), h.qs[x], h.hands[t];
    if !SqFull(l.w.q) {
      assert QueueOk(l, x, h.requests, h.home, h.pending, h.from);
      SentHere(l, x, hand, body, h.requests, h.home, h.pending, h.from);
      var l' := LineSend(l, Sqe(hand.cid, body), hand.token);
      PendingStays(h.pending, h.qs, x, l');
      LogStays(h.log, h.from, h.qs, x, l');
      forall y | 0 <= y < |h'.qs|
        ensures QueueOk(h'.qs[y], y, h'.requests, h'.home, h'.pending, h'.from)
      {
        assert QueueOk(h.qs[y], y, h.requests, h.home, h.pending, h.from);
      }
    }
  }

  lemma FetchHere(l: Line, x: nat, requests: seq<Slot>, home: seq<Home>, pending: map<nat, Source>, from: seq<Source>)
    requires |requests| == MAX_REQUESTS && QueueOk(l, x, requests, home, pending, from) && Enabled(l.w, DoFetch)
    ensures var l' := LineFetch(l); LineShaped(l') && Continues(l, l') && QueueOk(l', x, requests, home, pending, from)
  {
    hide LineOk, Inv;
    OkShape(l);
    OkShape(LineFetch(l));
    FetchKeepsLine(l);
  }

  lemma AnswerHere(l: Line, x: nat, i: nat, code: Code, dw0: nat, requests: seq<Slot>, home: seq<Home>,
      pending: map<nat, Source>, from: seq<Source>)
    requires |requests| == MAX_REQUESTS && QueueOk(l, x, requests, home, pending, from)
    requires code.Ok() && i < |l.w.got| && l.fate[i].Waiting? && !CqFull(l.w.q)
    ensures var l' := LineAnswer(l, i, code, dw0);
            LineShaped(l') && Continues(l, l') && QueueOk(l', x, requests, home, pending, from)
  {
    hide LineOk, Inv, CqFull, Post;
    OkShape(l);
    OkShape(LineAnswer(l, i, code, dw0));
    AnswerKeepsLine(l, i, code, dw0);
  }

  /** Fetching and answering change one queue only. */
  lemma SwapKeeps(h: Host, x: nat, l': Line)
    requires HostInv(h) && x < |h.qs| && LineShaped(l') && Continues(h.qs[x], l')
    requires QueueOk(l', x, h.requests, h.home, h.pending, h.from)
    ensures HostInv(h.(qs := h.qs[x := l']))
  {
    hide QueueOk, PendingOk, LogOk, HandsOk, Continues;
    OkBounds(h, l', x);
    PendingStays(h.pending, h.qs, x, l');
    LogStays(h.log, h.from, h.qs, x, l');
  }

  lemma OkBounds(h: Host, l': Line, x: nat)
    requires Shaped(h) && x < |h.qs| && LineShaped(l') && Continues(h.qs[x], l')
    ensures Shaped(h.(qs := h.qs[x := l']))
  {
  }

  lemma ConsumeHere(h: Host, t: nat, x: nat)
    requires HostInv(h) && CanMove(h, Consume(t, x)) && HasCompletion(h.qs[x].w.q)
    ensures |h.qs[x].w.seen| < |h.qs[x].answers|
    ensures var l, l' := h.qs[x], LineTake(h.qs[x], t);
            && LineShaped(l') && Continues(l, l') && |l'.w.seen| == |l.w.seen| + 1 && TakenBy(l', |l.w.seen|, t)
            && QueueOk(l', x, h.requests, h.home, h.pending[t := Source(x, |l.w.seen|)], h.from)
  {
    hide LineOk, Inv, HasCompletion, Take, PendingOk, LogOk, HandsOk;
    var l := h.qs[x];
    assert QueueOk(l, x, h.requests, h.home, h.pending, h.from);
    OkPhase(l);
    TakeKeepsLine(l, t);
    OkShape(LineTake(l, t));
  }

  lemma OkPhase(l: Line)
    requires LineOk(l)
    ensures LineShaped(l) && (HasCompletion(l.w.q) ==> |l.w.seen| < |l.answers|)
    ensures |l.w.seen| < |l.answers| ==> l.fate[l.answers[|l.w.seen|]].Answered?
  {
    PhaseTest(l.w);
  }

  lemma ConsumeKeeps(h: Host, t: nat, x: nat)
    requires HostInv(h) && CanMove(h, Consume(t, x))
    ensures HostInv(ConsumeOn(h, t, x))
  {
    hide LineOk, LineTake, HasCompletion, LiveHeld, Homes, CalledIs, LogOk, HandsOk, PendingOk, Continues, TakenBy;
    var h', l := ConsumeOn(h, t, x), h.qs[x];
    if HasCompletion(l.w.q) {
      ConsumeHere(h, t, x);
      var l' := LineTake(l, t);
      OkBounds(h, l', x);
      PendingStays(h.pending, h.qs, x, l');
      PendingMore(h.pending, h'.qs, t, Source(x, |l.w.seen|));
      LogStays(h.log, h.from, h.qs, x, l');
      BoundsMore(h.(qs := h'.qs), t, Source(x, |l.w.seen|));
      forall y | 0 <= y < |h'.qs|
        ensures QueueOk(h'.qs[y], y, h'.requests, h'.home, h'.pending, h'.from)
      {
        assert QueueOk(h.qs[y], y, h.requests, h.home, h.pending, h.from);
      }
    }
  }

  lemma PendingMore(pending: map<nat, Source>, qs: seq<Line>, t: nat, s: Source)
    requires (forall y | 0 <= y < |qs| :: LineShaped(qs[y])) && PendingOk(pending, qs)
    requires s.x < |qs| && s.k < |qs[s.x].w.seen| && TakenBy(qs[s.x], s.k, t)
    ensures PendingOk(pending[t := s], qs)
  {
  }

  lemma BoundsMore(h: Host, t: nat, s: Source)
    requires Shaped(h) && s.x < |h.qs| && s.k < |h.qs[s.x].w.seen|
    ensures Shaped(h.(pending := h.pending[t := s]))
  {
  }

  /** The identifier in a taken completion is that of a live command, whose slot holds its own token. */
  lemma PendingHeld(h: Host, t: nat)
    requires HostInv(h) && t in h.pending
    ensures var s := h.pending[t]; var l := h.qs[s.x]; var i := l.answers[s.k];
            && TakenBy(l, s.k, t) && l.w.seen[s.k].cid == l.w.submitted[i].cid < MAX_REQUESTS
            && h.requests[l.w.seen[s.k].cid] == Held(l.tokens[i]) && l.tokens[i] < |h.home|
            && h.home[l.tokens[i]] == Sent(s.x, i)
            && (Success(l.w.seen[s.k].status) <==> l.codes[s.k].Good())
  {
    hide Inv, HandsOk, LogOk, CalledIs;
    var s := h.pending[t];
    var l := h.qs[s.x];
    assert QueueOk(l, s.x, h.requests, h.home, h.pending, h.from);
    InvShape(l.w);
    SuccessIff(l.codes[s.k]);
  }

  /** Freeing the slot of command `i` of queue `x` leaves every other live command its own. */
  lemma FreedElsewhere(l: Line, y: nat, requests: seq<Slot>, home: seq<Home>, cid: nat, token: nat, x: nat, i: nat)
    requires LineShaped(l) && |requests| == MAX_REQUESTS && LiveHeld(l, requests) && Homes(l, y, home)
    requires cid < MAX_REQUESTS && requests[cid] == Held(token) && token < |home| && home[token] == Sent(x, i)
    requires y != x || (i < |l.fate| && !Live(l.fate[i]))
    ensures LiveHeld(l, requests[cid := Free])
  {
  }

  lemma CallHere(l: Line, x: nat, k: nat, t: nat, requests: seq<Slot>, home: seq<Home>, pending: map<nat, Source>,
      from: seq<Source>)
    requires |requests| == MAX_REQUESTS && QueueOk(l, x, requests, home, pending, from)
    requires k < |l.w.seen| && TakenBy(l, k, t) && t in pending
    ensures var l', cid := LineCall(l, k, |from|), l.w.seen[k].cid;
            && LineShaped(l') && cid < MAX_REQUESTS
            && QueueOk(l', x, requests[cid := Free], home, pending - {t}, from + [Source(x, k)])
  {
    hide LineOk, Inv;
    OkAnswer(l, k);
    CallKeepsLine(l, k, |from|);
    FreedElsewhere(LineCall(l, k, |from|), x, requests, home, l.w.seen[k].cid, l.tokens[l.answers[k]], x, l.answers[k]);
    assert forall i | 0 <= i < |l.fate| && l.fate[i].Taken? && i != l.answers[k] :: l.fate[i].thread != t;
  }

  lemma OkAnswer(l: Line, k: nat)
    requires LineOk(l) && k < |l.w.seen|
    ensures LineShaped(l) && l.w.seen[k].cid == l.w.submitted[l.answers[k]].cid
    ensures forall i | 0 <= i < |l.fate| && !l.fate[i].Waiting? && i != l.answers[k] :: l.fate[i].k != k
  {
  }

  /** The other threads' completions and the earlier callbacks do not mention the command called now. */
  lemma CallElsewhere(h: Host, t: nat)
    requires HostInv(h) && t in h.pending
    ensures var s := h.pending[t]; var l' := LineCall(h.qs[s.x], s.k, |h.log|); var qs' := h.qs[s.x := l'];
            && LineShaped(l') && (forall y | 0 <= y < |qs'| :: LineShaped(qs'[y]))
            && PendingOk(h.pending - {t}, qs') && LogOk(h.log, h.from, qs')
  {
    hide LineOk, LiveHeld, Homes, HandsOk, TakenIs, CalledIs;
    PendingHeld(h, t);
    var s := h.pending[t];
    var l := h.qs[s.x];
    var l' := LineCall(l, s.k, |h.log|);
    forall u | u in h.pending && u != t
      ensures var q := h.qs[s.x := l'][h.pending[u].x];
              LineShaped(q) && h.pending[u].k < |q.w.seen| && TakenBy(q, h.pending[u].k, u)
    {
      assert TakenBy(h.qs[h.pending[u].x], h.pending[u].k, u);
    }
    forall j | 0 <= j < |h.log|
      ensures var q := h.qs[s.x := l'][h.from[j].x]; LineShaped(q) && Explains(q, h.from[j].k, j, h.log[j])
    {
      assert Explains(h.qs[h.from[j].x], h.from[j].k, j, h.log[j]);
    }
  }

  lemma CompleteQueues(h: Host, t: nat)
    requires HostInv(h) && t in h.pending
    ensures var h' := CompleteBy(h, t);
            && |h'.requests| == MAX_REQUESTS && |h'.qs| == |h.qs|
            && forall y | 0 <= y < |h'.qs| :: QueueOk(h'.qs[y], y, h'.requests, h'.home, h'.pending, h'.from)
  {
    hide LineOk, HandsOk, PendingOk, LogOk;
    PendingHeld(h, t);
    var h', s := CompleteBy(h, t), h.pending[t];
    var l := h.qs[s.x];
    assert QueueOk(l, s.x, h.requests, h.home, h.pending, h.from);
    CallHere(l, s.x, s.k, t, h.requests, h.home, h.pending, h.from);
    LogLength(h);
    forall y | 0 <= y < |h'.qs|
      ensures QueueOk(h'.qs[y], y, h'.requests, h'.home, h'.pending, h'.from)
    {
      assert QueueOk(h.qs[y], y, h.requests, h.home, h.pending, h.from);
      if y != s.x {
        FreedElsewhere(h.qs[y], y, h.requests, h.home, l.w.seen[s.k].cid, l.tokens[l.answers[s.k]], s.x,
          l.answers[s.k]);
      }
    }
  }

  lemma LogLength(h: Host)
    requires HostInv(h)
    ensures |h.log| == |h.from|
  {
  }

  lemma CompleteKeeps(h: Host, t: nat)
    requires HostInv(h) && t in h.pending
    ensures HostInv(CompleteBy(h, t))
    ensures |CompleteBy(h, t).log| == |h.log| + 1
  {
    hide QueueOk, TakenBy;
    PendingHeld(h, t);
    CallElsewhere(h, t);
    CompleteQueues(h, t);
    var h', s := CompleteBy(h, t), h.pending[t];
    assert Explains(h'.qs[s.x], s.k, |h.log|, h'.log[|h.log|]);
    assert HandsOk(h'.hands, h'.requests, h'.home);
  }

  lemma MoveKeeps(h: Host, m: Move)
    requires HostInv(h) && CanMove(h, m)
    ensures HostInv(Go(h, m))
  {
    hide QueueOk, HandsOk, PendingOk, LogOk;
    match m
    case Alloc(t) => AllocKeeps(h, t);
    case Release(t) => ReleaseKeeps(h, t);
    case Send(t, x, body) => SendKeeps(h, t, x, body);
    case FetchOn(x) =>
      FetchHere(h.qs[x], x, h.requests, h.home, h.pending, h.from);
      SwapKeeps(h, x, LineFetch(h.qs[x]));
    case Answer(x, i, code, dw0) =>
      AnswerHere(h.qs[x], x, i, code, dw0, h.requests, h.home, h.pending, h.from);
      SwapKeeps(h, x, LineAnswer(h.qs[x], i, code, dw0));
    case Consume(t, x) => ConsumeKeeps(h, t, x);
    case Complete(t) => CompleteKeeps(h, t);
  }

  // ---------- whole runs ----------

  predicate Fresh(h: Host) {
    && |h.requests| == MAX_REQUESTS && (forall c | 0 <= c < MAX_REQUESTS :: h.requests[c].Free?) && h.pos == 0
    && h.hands == map[] && h.pending == map[] && h.log == [] && h.from == [] && h.home == []
    && forall x | 0 <= x < |h.qs| ::
      Initial(h.qs[x].w) && h.qs[x].tokens == [] && h.qs[x].fate == [] && h.qs[x].answers == [] &&
      h.qs[x].codes == []
  }

  lemma FreshInv(h: Host)
    requires Fresh(h)
    ensures HostInv(h)
  {
    hide Inv;
    forall x | 0 <= x < |h.qs|
      ensures QueueOk(h.qs[x], x, h.requests, h.home, h.pending, h.from)
    {
      InitialInv(h.qs[x].w);
    }
  }

  /** Any interleaving of submitting threads, completing threads and the controller, on any number of queues. */
  predicate IsHostRun(hs: seq<Host>, moves: seq<Move>) {
    && |hs| == |moves| + 1 && Fresh(hs[0])
    && forall n | 0 <= n < |moves| :: Shaped(hs[n]) && CanMove(hs[n], moves[n]) && hs[n + 1] == Go(hs[n], moves[n])
  }

  lemma {:induction false} HostRunKeeps(hs: seq<Host>, moves: seq<Move>, n: nat)
    requires IsHostRun(hs, moves) && n < |hs|
    ensures HostInv(hs[n])
  {
    hide HostInv, Go, Fresh;
    if n == 0 {
      FreshInv(hs[0]);
    } else {
      HostRunKeeps(hs, moves, n - 1);
      MoveKeeps(hs[n - 1], moves[n - 1]);
    }
  }

  predicate InFlight(h: Host, x: nat, i: nat) {
    x < |h.qs| && i < |h.qs[x].fate| && i < |h.qs[x].w.submitted| && Live(h.qs[x].fate[i])
  }

  function CidAt(h: Host, x: nat, i: nat): nat
    requires InFlight(h, x, i)
  {
    h.qs[x].w.submitted[i].cid
  }

  /** In-flight commands, on whichever queues, carry different identifiers, and each identifier's slot is taken. */
  lemma DistinctCids(h: Host, x: nat, i: nat, y: nat, j: nat)
    requires HostInv(h) && InFlight(h, x, i) && InFlight(h, y, j) && (x, i) != (y, j)
    ensures CidAt(h, x, i) != CidAt(h, y, j)
    ensures CidAt(h, x, i) < MAX_REQUESTS && h.requests[CidAt(h, x, i)].Held?
  {
    hide LineOk, HandsOk, PendingOk, LogOk;
    assert QueueOk(h.qs[x], x, h.requests, h.home, h.pending, h.from);
    assert QueueOk(h.qs[y], y, h.requests, h.home, h.pending, h.from);
    assert h.home[h.qs[x].tokens[i]] == Sent(x, i) && h.home[h.qs[y].tokens[j]] == Sent(y, j);
  }

  /** No call of nvme_alloc_cid has its callback run twice. */
  lemma CallbackOnce(h: Host, j: nat, k: nat)
    requires HostInv(h) && j < k < |h.log|
    ensures h.log[j].token != h.log[k].token
  {
    hide HandsOk, PendingOk, LiveHeld, TakenIs;
    var a, b := h.from[j], h.from[k];
    assert Explains(h.qs[a.x], a.k, j, h.log[j]) && Explains(h.qs[b.x], b.k, k, h.log[k]);
    assert QueueOk(h.qs[a.x], a.x, h.requests, h.home, h.pending, h.from);
    assert QueueOk(h.qs[b.x], b.x, h.requests, h.home, h.pending, h.from);
    var i, i' := h.qs[a.x].answers[a.k], h.qs[b.x].answers[b.k];
    assert h.home[h.qs[a.x].tokens[i]] == Sent(a.x, i) && h.home[h.qs[b.x].tokens[i']] == Sent(b.x, i');
  }

  /** Callback `j` belongs to one submitted command and carries what the controller posted for that very command. */
  predicate Accounted(h: Host, j: nat)
    requires Shaped(h) && j < |h.log|
  {
    exists x: nat, k: nat | x < |h.qs| && k < |h.qs[x].w.posted| :: Owns(h.qs[x], k, h.log[j])
  }

  predicate Owns(l: Line, k: nat, call: Call)
    requires LineShaped(l) && k < |l.w.posted|
  {
    && l.w.posted[k].cid == l.w.submitted[l.answers[k]].cid
    && call == Call(l.tokens[l.answers[k]], l.codes[k].sc == 0 && l.codes[k].sct == 0, l.w.posted[k].dw0)
  }

  /**
   * Over every run: commands in flight have distinct identifiers held in requests[]; callbacks never repeat; each one
   * reports the completion of its own command; a completion consumed from a ring is reported or about to be.
   */
  lemma CidSafety(hs: seq<Host>, moves: seq<Move>, n: nat)
    requires IsHostRun(hs, moves) && n < |hs|
    ensures Shaped(hs[n])
    ensures forall x: nat, i: nat, y: nat, j: nat | InFlight(hs[n], x, i) && InFlight(hs[n], y, j) &&
            (x, i) != (y, j) ::
              CidAt(hs[n], x, i) != CidAt(hs[n], y, j) && CidAt(hs[n], x, i) < MAX_REQUESTS &&
                hs[n].requests[CidAt(hs[n], x, i)].Held?
    ensures forall j, k | 0 <= j < k < |hs[n].log| :: hs[n].log[j].token != hs[n].log[k].token
    ensures forall j: nat | j < |hs[n].log| :: Accounted(hs[n], j)
    ensures forall x: nat, k: nat | x < |hs[n].qs| && k < |hs[n].qs[x].w.seen| :: Reported(hs[n], x, k)
  {
    hide HostInv, Accounted, Reported, InFlight;
    HostRunKeeps(hs, moves, n);
    HostShape(hs[n]);
    forall x: nat, i: nat, y: nat, j: nat | InFlight(hs[n], x, i) && InFlight(hs[n], y, j) && (x, i) != (y, j)
      ensures CidAt(hs[n], x, i) != CidAt(hs[n], y, j) && CidAt(hs[n], x, i) < MAX_REQUESTS &&
              hs[n].requests[CidAt(hs[n], x, i)].Held?
    {
      DistinctCids(hs[n], x, i, y, j);
    }
    forall j, k | 0 <= j < k < |hs[n].log|
      ensures hs[n].log[j].token != hs[n].log[k].token
    {
      CallbackOnce(hs[n], j, k);
    }
    forall j: nat | j < |hs[n].log|
      ensures Accounted(hs[n], j)
    {
      CallbackAccounts(hs[n], j);
    }
    forall x: nat, k: nat | x < |hs[n].qs| && k < |hs[n].qs[x].w.seen|
      ensures Reported(hs[n], x, k)
    {
      SeenReported(hs[n], x, k);
    }
  }

  lemma HostShape(h: Host)
    requires HostInv(h)
    ensures Shaped(h)
  {
  }

  lemma CallbackAccounts(h: Host, j: nat)
    requires HostInv(h) && j < |h.log|
    ensures Accounted(h, j)
  {
    hide HandsOk, PendingOk, LiveHeld, TakenIs, CalledIs, Inv;
    var s := h.from[j];
    var l := h.qs[s.x];
    assert QueueOk(l, s.x, h.requests, h.home, h.pending, h.from);
    assert Explains(l, s.k, j, h.log[j]);
    InvShape(l.w);
    assert Owns(h.qs[s.x], s.k, h.log[j]);
  }

  /** Completion `k` of queue `x` is in some thread's hands, or its callback was made. */
  predicate Reported(h: Host, x: nat, k: nat) {
    (exists t | t in h.pending :: h.pending[t] == Source(x, k)) ||
      (exists j | 0 <= j < |h.from| :: h.from[j] == Source(x, k))
  }

  lemma SeenReported(h: Host, x: nat, k: nat)
    requires HostInv(h) && x < |h.qs| && k < |h.qs[x].w.seen|
    ensures Reported(h, x, k)
  {
    hide HandsOk, PendingOk, LogOk, LiveHeld, Homes, Inv;
    assert QueueOk(h.qs[x], x, h.requests, h.home, h.pending, h.from);
    assert !h.qs[x].fate[h.qs[x].answers[k]].Answered?;
  }
}
