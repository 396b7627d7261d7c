/**
 The multiplexer of client/connection.go as a state machine. One step is one thing a goroutine
 does between two points where another goroutine can run: a sender takes a token, tests the
 connected flag, enqueues its request; the event loop runs one arm of its select, takes a token
 back, or makes one turn of a cleanup loop; the listener queues a response; someone asks for exit.
 */
module ConnectionProtocol {

  const OUTGOING_CAPACITY: nat := 25
  const INCOMING_CAPACITY: nat := 25

  datatype Response = Response(txnId: string, txnStatus: string) {
    predicate Completed() {
      txnStatus == "completed"
    }
  }

  /** A wrapped request; the handle stands for the identity of the wrapper object. */
  datatype Request = Request(handle: nat, txnId: string)

  /** What arrives on the result or the error channel of a request. */
  datatype Delivery = Result(response: Response) | Error

  /** A sender inside sendRequest: holding a token, then past the connected test. */
  datatype Sender = Reserved(txnId: string) | Cleared(txnId: string)

  /** Where the event loop goroutine is: in the select, about to take a token back after a completed
      response, in the first or second cleanup loop, or done. */
  datatype Loop = Selecting | Releasing | Draining | Failing | Stopped

  /** The fields of cheshireConn, and below them history: deliveries by request, the requests that
      were overwritten in the requests map, those enqueued after the first cleanup loop had ended,
      and the number of tokens whose holder is gone without giving them back. */
  datatype State = State(
    maxInFlight: nat,
    tokens: nat,
    senders: map<nat, Sender>,
    outgoing: seq<Request>,
    requests: map<string, Request>,
    incoming: seq<Response>,
    exits: nat,
    connected: bool,
    loop: Loop,
    nextHandle: nat,
    log: map<Request, seq<Delivery>>,
    displaced: set<Request>,
    late: set<Request>,
    lost: nat)

  datatype Event =
    | TakeToken(sid: nat, txnId: string)
    | CheckConnected(sid: nat)
    | Enqueue(sid: nat)
    | Arrive(response: Response)
    | SignalExit
    | Respond
    | Release
    | Dispatch
    | Exit
    | Drain
    | DrainDone
    | FailOne(key: string)
    | FailDone

  function Initial(maxInFlight: nat): State {
    State(maxInFlight, 0, map[], [], map[], [], 0, true, Selecting, 0, map[], {}, {}, 0)
  }

  predicate Enabled(s: State, e: Event) {
    match e
    case TakeToken(sid, _) => s.tokens < s.maxInFlight && sid !in s.senders
    case CheckConnected(sid) => sid in s.senders && s.senders[sid].Reserved?
    case Enqueue(sid) => sid in s.senders && s.senders[sid].Cleared? && |s.outgoing| < OUTGOING_CAPACITY
    case Arrive(_) => |s.incoming| < INCOMING_CAPACITY
    case SignalExit => true
    case Respond => s.loop.Selecting? && s.incoming != []
    case Release => s.loop.Releasing? && s.tokens > 0
    case Dispatch => s.loop.Selecting? && s.outgoing != []
    case Exit => s.loop.Selecting? && s.exits > 0
    case Drain => s.loop.Draining? && s.outgoing != []
    case DrainDone => s.loop.Draining? && s.outgoing == []
    case FailOne(key) => s.loop.Failing? && key in s.requests
    case FailDone => s.loop.Failing? && s.requests == map[]
  }

  function Deliver(log: map<Request, seq<Delivery>>, q: Request, d: Delivery): map<Request, seq<Delivery>> {
    log[q := (if q in log then log[q] else []) + [d]]
  }

  function Apply(s: State, e: Event): State
    requires Enabled(s, e)
  {
    match e
    case TakeToken(sid, txnId) =>
      s.(tokens := s.tokens + 1, senders := s.senders[sid := Reserved(txnId)])
    case CheckConnected(sid) =>
      if s.connected then
        s.(senders := s.senders[sid := Cleared(s.senders[sid].txnId)])
      else
        s.(senders := s.senders - {sid}, lost := s.lost + 1)
    case Enqueue(sid) =>
      var q := Request(s.nextHandle, s.senders[sid].txnId);
      s.(senders := s.senders - {sid},
         outgoing := s.outgoing + [q],
         nextHandle := s.nextHandle + 1,
         log := s.log[q := []],
         late := if s.loop.Failing? || s.loop.Stopped? then s.late + {q} else s.late)
    case Arrive(response) =>
      s.(incoming := s.incoming + [response])
    case SignalExit =>
      s.(exits := s.exits + 1)
    case Respond =>
      var r := s.incoming[0];
      var s := s.(incoming := s.incoming[1..]);
      if r.txnId !in s.requests then s
      else
        var s := s.(log := Deliver(s.log, s.requests[r.txnId], Result(r)));
        if r.Completed() then s.(requests := s.requests - {r.txnId}, loop := Releasing) else s
    case Release =>
      s.(tokens := s.tokens - 1, loop := Selecting)
    case Dispatch =>
      var q := s.outgoing[0];
      var overwrites := q.txnId in s.requests;
      s.(outgoing := s.outgoing[1..],
         requests := s.requests[q.txnId := q],
         displaced := if overwrites then s.displaced + {s.requests[q.txnId]} else s.displaced,
         lost := if overwrites then s.lost + 1 else s.lost)
    case Exit =>
      s.(exits := s.exits - 1, connected := false, loop := Draining)
    case Drain =>
      s.(log := Deliver(s.log, s.outgoing[0], Error), outgoing := s.outgoing[1..], lost := s.lost + 1)
    case DrainDone =>
      s.(loop := Failing)
    case FailOne(key) =>
      s.(log := Deliver(s.log, s.requests[key], Error), requests := s.requests - {key}, lost := s.lost + 1)
    case FailDone =>
      s.(loop := Stopped)
  }

  // ---- runs ----

  ghost predicate CanRun(s: State, es: seq<Event>)
    decreases |es|
  {
    es == [] || (Enabled(s, es[0]) && CanRun(Apply(s, es[0]), es[1..]))
  }

  ghost function Run(s: State, es: seq<Event>): State
    requires CanRun(s, es)
    decreases |es|
  {
    if es == [] then s else Run(Apply(s, es[0]), es[1..])
  }

  // ---- invariant ----

  /** The log of a request still waiting: only its own responses, none of them the completed one. */
  ghost predicate Open(q: Request, log: seq<Delivery>) {
    forall d <- log :: d.Result? && d.response.txnId == q.txnId && !d.response.Completed()
  }

  ghost predicate Final(q: Request, d: Delivery) {
    d.Error? || (d.response.txnId == q.txnId && d.response.Completed())
  }

  /** The log of a request that is over: an open log and then exactly one final delivery. */
  ghost predicate Settled(q: Request, log: seq<Delivery>) {
    log != [] && Open(q, log[..|log| - 1]) && Final(q, log[|log| - 1])
  }

  ghost predicate Waiting(requests: map<string, Request>, q: Request) {
    q.txnId in requests && requests[q.txnId] == q
  }

  /** The tokens the loop still owes: one between a completed response and its release. */
  function Owed(s: State): nat {
    if s.loop.Releasing? then 1 else 0
  }

  /** Every token is held by a sender, a queued request, a waiting request, the loop, or is lost. */
  ghost predicate TokenInv(s: State) {
    && s.tokens == |s.senders| + |s.outgoing| + |s.requests| + Owed(s) + s.lost
    && s.tokens <= s.maxInFlight
    && (s.connected ==> s.lost == |s.displaced|)
    && |s.displaced| <= s.lost
  }

  ghost predicate PhaseInv(s: State) {
    && (s.connected <==> s.loop.Selecting? || s.loop.Releasing?)
    && (s.loop.Failing? || s.loop.Stopped? ==> s.late == set q <- s.outgoing)
    && (!s.loop.Failing? && !s.loop.Stopped? ==> s.late == {})
    && (s.loop.Stopped? ==> s.requests == map[])
  }

  /** Every accepted request is in exactly one place: queued, waiting, displaced or settled. */
  ghost predicate Placed(outgoing: seq<Request>, requests: map<string, Request>,
                         log: map<Request, seq<Delivery>>, displaced: set<Request>, nextHandle: nat)
  {
    && (forall i, j :: 0 <= i < j < |outgoing| ==> outgoing[i] != outgoing[j])
    && (forall q <- outgoing :: q in log && log[q] == [] && !Waiting(requests, q) && q !in displaced)
    && (forall t <- requests :: requests[t].txnId == t && requests[t] in log
          && Open(requests[t], log[requests[t]]) && requests[t] !in displaced)
    && (forall q <- displaced :: q in log && Open(q, log[q]))
    && (forall q <- log :: q.handle < nextHandle)
    && (forall q <- log :: q in outgoing || Waiting(requests, q) || q in displaced || Settled(q, log[q]))
  }

  ghost predicate PlaceInv(s: State) {
    Placed(s.outgoing, s.requests, s.log, s.displaced, s.nextHandle)
  }

  /** A request is displaced only by another accepted request with the same transaction id. */
  ghost predicate DisplacedInv(s: State) {
    forall q <- s.displaced :: exists p <- s.log :: p != q && p.txnId == q.txnId
  }

  ghost predicate Inv(s: State) {
    TokenInv(s) && PhaseInv(s) && PlaceInv(s) && DisplacedInv(s)
  }

  lemma CardinalityAfterRemoval<K, V>(m: map<K, V>, k: K)
    requires k in m
    ensures |m - {k}| == |m| - 1
  {
    assert (m - {k}).Keys == m.Keys - {k};
    assert |(m - {k}).Keys| == |m.Keys| - 1;
  }

  lemma TokenStepSender(s: State, sid: nat, e: Event)
    requires TokenInv(s) && Enabled(s, e) && (e == CheckConnected(sid) || e == Enqueue(sid))
    ensures TokenInv(Apply(s, e))
  {
    CardinalityAfterRemoval(s.senders, sid);
    assert |s.senders[sid := Cleared(s.senders[sid].txnId)]| == |s.senders|;
  }

  lemma TokenStepDispatch(s: State)
    requires TokenInv(s) && PlaceInv(s) && Enabled(s, Dispatch)
    ensures TokenInv(Apply(s, Dispatch))
  {
    var q := s.outgoing[0];
    if q.txnId in s.requests {
      assert s.requests[q.txnId] !in s.displaced;
    }
  }

  lemma TokenStepRemove(s: State, key: string, e: Event)
    requires TokenInv(s) && PhaseInv(s) && Enabled(s, e) && key in s.requests
    requires e == FailOne(key) || (e.Respond? && s.incoming[0].txnId == key)
    ensures TokenInv(Apply(s, e))
  {
    CardinalityAfterRemoval(s.requests, key);
  }

  lemma TokenStep(s: State, e: Event)
    requires TokenInv(s) && PhaseInv(s) && PlaceInv(s) && Enabled(s, e)
    ensures TokenInv(Apply(s, e))
  {
    match e
    case CheckConnected(sid) => TokenStepSender(s, sid, e);
    case Enqueue(sid) => TokenStepSender(s, sid, e);
    case Respond =>
      if s.incoming[0].txnId in s.requests {
        TokenStepRemove(s, s.incoming[0].txnId, e);
      }
    case Dispatch => TokenStepDispatch(s);
    case FailOne(key) => TokenStepRemove(s, key, e);
    case _ =>
  }

  lemma PhaseStepEnqueue(s: State, sid: nat)
    requires PhaseInv(s) && Enabled(s, Enqueue(sid))
    ensures PhaseInv(Apply(s, Enqueue(sid)))
  {
    var q := Request(s.nextHandle, s.senders[sid].txnId);
    assert (set p <- s.outgoing + [q]) == (set p <- s.outgoing) + {q};
  }

  lemma PhaseStep(s: State, e: Event)
    requires PhaseInv(s) && Enabled(s, e)
    ensures PhaseInv(Apply(s, e))
  {
    match e
    case Enqueue(sid) => PhaseStepEnqueue(s, sid);
    case DrainDone => assert (set q <- s.outgoing) == {};
    case _ =>
  }

  lemma PlaceEnqueue(out: seq<Request>, reqs: map<string, Request>, log: map<Request, seq<Delivery>>,
                     displaced: set<Request>, next: nat, txnId: string)
    requires Placed(out, reqs, log, displaced, next)
    ensures Placed(out + [Request(next, txnId)], reqs, log[Request(next, txnId) := []], displaced, next + 1)
  {
  }

  lemma PlaceDispatch(out: seq<Request>, reqs: map<string, Request>, log: map<Request, seq<Delivery>>,
                      displaced: set<Request>, next: nat)
    requires Placed(out, reqs, log, displaced, next) && out != []
    ensures out[0].txnId !in reqs ==> Placed(out[1..], reqs[out[0].txnId := out[0]], log, displaced, next)
    ensures out[0].txnId in reqs ==>
      Placed(out[1..], reqs[out[0].txnId := out[0]], log, displaced + {reqs[out[0].txnId]}, next)
  {
    hide Settled;
    hide Open;
    NothingIsOpen(out[0]);
  }

  lemma NothingIsOpen(q: Request)
    ensures Open(q, [])
  {
  }

  lemma AppendFinal(q: Request, log: seq<Delivery>, d: Delivery)
    requires Open(q, log) && Final(q, d)
    ensures Settled(q, log + [d])
  {
    assert (log + [d])[..|log + [d]| - 1] == log;
  }

  lemma FailedFromNothing(q: Request)
    ensures Settled(q, [Error]) && [] + [Error] == [Error]
  {
    AppendFinal(q, [], Error);
  }

  lemma PlaceDrain(out: seq<Request>, reqs: map<string, Request>, log: map<Request, seq<Delivery>>,
                   displaced: set<Request>, next: nat)
    requires Placed(out, reqs, log, displaced, next) && out != []
    ensures Placed(out[1..], reqs, Deliver(log, out[0], Error), displaced, next)
  {
    hide Settled;
    hide Open;
    FailedFromNothing(out[0]);
  }

  lemma PlaceContinue(out: seq<Request>, reqs: map<string, Request>, log: map<Request, seq<Delivery>>,
                      displaced: set<Request>, next: nat, q: Request, d: Delivery)
    requires Placed(out, reqs, log, displaced, next) && Waiting(reqs, q) && Open(q, [d])
    ensures Placed(out, reqs, Deliver(log, q, d), displaced, next)
  {
    assert d in [d];
  }

  lemma PlaceComplete(out: seq<Request>, reqs: map<string, Request>, log: map<Request, seq<Delivery>>,
                      displaced: set<Request>, next: nat, q: Request, d: Delivery)
    requires Placed(out, reqs, log, displaced, next) && Waiting(reqs, q) && Final(q, d)
    ensures Placed(out, reqs - {q.txnId}, Deliver(log, q, d), displaced, next)
  {
    AppendFinal(q, log[q], d);
  }

  lemma PlaceStepRespond(s: State)
    requires PlaceInv(s) && Enabled(s, Respond)
    ensures PlaceInv(Apply(s, Respond))
  {
    var r := s.incoming[0];
    if r.txnId in s.requests {
      var q := s.requests[r.txnId];
      if r.Completed() {
        PlaceComplete(s.outgoing, s.requests, s.log, s.displaced, s.nextHandle, q, Result(r));
      } else {
        PlaceContinue(s.outgoing, s.requests, s.log, s.displaced, s.nextHandle, q, Result(r));
      }
    }
  }

  lemma PlaceStep(s: State, e: Event)
    requires PlaceInv(s) && Enabled(s, e)
    ensures PlaceInv(Apply(s, e))
  {
    match e
    case Enqueue(sid) =>
      PlaceEnqueue(s.outgoing, s.requests, s.log, s.displaced, s.nextHandle, s.senders[sid].txnId);
    case Respond => PlaceStepRespond(s);
    case Dispatch => PlaceDispatch(s.outgoing, s.requests, s.log, s.displaced, s.nextHandle);
    case Drain => PlaceDrain(s.outgoing, s.requests, s.log, s.displaced, s.nextHandle);
    case FailOne(key) =>
      PlaceComplete(s.outgoing, s.requests, s.log, s.displaced, s.nextHandle, s.requests[key], Error);
    case _ =>
  }

  lemma HeadIsAnother(s: State)
    requires PlaceInv(s) && s.outgoing != [] && s.outgoing[0].txnId in s.requests
    ensures s.outgoing[0] in s.log && s.outgoing[0] != s.requests[s.outgoing[0].txnId]
    ensures s.requests[s.outgoing[0].txnId].txnId == s.outgoing[0].txnId
  {
  }

  /** Requests are never taken out of the log. */
  lemma LogOnlyGrows(s: State, e: Event)
    requires Enabled(s, e)
    ensures s.log.Keys <= Apply(s, e).log.Keys
  {
  }

  lemma DisplacedStep(s: State, e: Event)
    requires PlaceInv(s) && DisplacedInv(s) && Enabled(s, e)
    ensures DisplacedInv(Apply(s, e))
  {
    hide PlaceInv;
    hide Deliver;
    LogOnlyGrows(s, e);
    if e.Dispatch? && s.outgoing[0].txnId in s.requests {
      HeadIsAnother(s);
    } else {
      NotDisplacing(s, e);
    }
  }

  lemma NotDisplacing(s: State, e: Event)
    requires Enabled(s, e) && !(e.Dispatch? && s.outgoing[0].txnId in s.requests)
    ensures Apply(s, e).displaced == s.displaced
  {
  }

  lemma InvStep(s: State, e: Event)
    requires Inv(s) && Enabled(s, e)
    ensures Inv(Apply(s, e))
  {
    TokenStep(s, e);
    PhaseStep(s, e);
    PlaceStep(s, e);
    DisplacedStep(s, e);
  }

  lemma OpenIsNotSettled(q: Request, log: seq<Delivery>)
    ensures !(Open(q, log) && Settled(q, log))
  {
    if log != [] {
      assert log[|log| - 1] in log;
    }
  }
}
