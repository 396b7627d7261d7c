/** What holds of the connection over whole runs, for every interleaving of its goroutines. */
module ConnectionTheorems {
  import opened ConnectionProtocol

  lemma {:induction false} RunKeepsInv(s: State, es: seq<Event>)
    requires Inv(s) && CanRun(s, es)
    ensures Inv(Run(s, es)) && Run(s, es).maxInFlight == s.maxInFlight
    decreases |es|
  {
    hide Inv;
    if es != [] {
      InvStep(s, es[0]);
      RunKeepsInv(Apply(s, es[0]), es[1..]);
    }
  }

  /** A state some run of a fresh connection ends in. */
  ghost predicate Reachable(maxInFlight: nat, s: State) {
    exists es :: CanRun(Initial(maxInFlight), es) && Run(Initial(maxInFlight), es) == s
  }

  lemma ReachableInv(maxInFlight: nat, s: State)
    requires Reachable(maxInFlight, s)
    ensures Inv(s) && s.maxInFlight == maxInFlight
  {
    var es :| CanRun(Initial(maxInFlight), es) && Run(Initial(maxInFlight), es) == s;
    RunKeepsInv(Initial(maxInFlight), es);
  }

  // What the methods of the connection object need to know of a reachable state.

  lemma NewRequestIsNew(maxInFlight: nat, s: State, txnId: string)
    requires Reachable(maxInFlight, s)
    ensures Request(s.nextHandle, txnId) !in s.log
  {
    ReachableInv(maxInFlight, s);
  }

  lemma QueuedIsNotWaiting(maxInFlight: nat, s: State)
    requires Reachable(maxInFlight, s)
    ensures forall q <- s.outgoing :: q in s.log && !Waiting(s.requests, q)
  {
    ReachableInv(maxInFlight, s);
  }

  lemma QueueHeadIsUnique(maxInFlight: nat, s: State)
    requires Reachable(maxInFlight, s) && s.outgoing != []
    ensures s.outgoing[0] in s.log && s.outgoing[0] !in s.outgoing[1..]
  {
    ReachableInv(maxInFlight, s);
  }

  lemma WaitingUnderItsId(maxInFlight: nat, s: State, key: string)
    requires Reachable(maxInFlight, s) && key in s.requests
    ensures s.requests[key].txnId == key && s.requests[key] in s.log
  {
    ReachableInv(maxInFlight, s);
  }

  lemma ResponseHasItsRequest(maxInFlight: nat, s: State)
    requires Reachable(maxInFlight, s)
    ensures s.connected <==> s.loop.Selecting? || s.loop.Releasing?
    ensures s.incoming != [] && s.incoming[0].txnId in s.requests ==> s.requests[s.incoming[0].txnId] in s.log
  {
    ReachableInv(maxInFlight, s);
  }

  lemma {:induction false} RunSnoc(s: State, es: seq<Event>, e: Event)
    requires CanRun(s, es) && Enabled(Run(s, es), e)
    ensures CanRun(s, es + [e]) && Run(s, es + [e]) == Apply(Run(s, es), e)
    decreases |es|
  {
    if es == [] {
      assert (es + [e])[1..] == [];
    } else {
      RunSnoc(Apply(s, es[0]), es[1..], e);
      assert (es + [e])[1..] == es[1..] + [e];
    }
  }

  lemma {:induction false} RunConcat(s: State, a: seq<Event>, b: seq<Event>)
    requires CanRun(s, a) && CanRun(Run(s, a), b)
    ensures CanRun(s, a + b) && Run(s, a + b) == Run(Run(s, a), b)
    decreases |a|
  {
    if a == [] {
      assert a + b == b;
    } else {
      assert (a + b)[1..] == a[1..] + b;
      RunConcat(Apply(s, a[0]), a[1..], b);
    }
  }

  lemma ReachableStep(maxInFlight: nat, s: State, e: Event)
    requires Reachable(maxInFlight, s) && Enabled(s, e)
    ensures Reachable(maxInFlight, Apply(s, e))
  {
    var es :| CanRun(Initial(maxInFlight), es) && Run(Initial(maxInFlight), es) == s;
    RunSnoc(Initial(maxInFlight), es, e);
  }

  // ---- tokens ----

  /** In every reachable state the requests in flight fit the limit, and taking a token back after a
      completed response finds one: the event loop never blocks there, duplicate ids or not. */
  lemma InFlightBounded(maxInFlight: nat, s: State)
    requires Reachable(maxInFlight, s)
    ensures |s.senders| + |s.outgoing| + |s.requests| <= s.tokens <= maxInFlight
    ensures s.loop.Releasing? ==> Enabled(s, Release)
  {
    ReachableInv(maxInFlight, s);
  }

  ghost predicate DistinctIds(s: State) {
    forall p, q :: p in s.log && q in s.log && p.txnId == q.txnId ==> p == q
  }

  lemma DistinctNeverDisplaced(s: State)
    requires Inv(s) && DistinctIds(s)
    ensures s.displaced == {}
  {
  }

  /** While connected no token is wasted, exactly unless some request overwrote another in the map. */
  lemma TokensConserved(maxInFlight: nat, s: State)
    requires Reachable(maxInFlight, s) && s.connected
    ensures s.tokens == |s.senders| + |s.outgoing| + |s.requests| + Owed(s) <==> s.displaced == {}
    ensures DistinctIds(s) ==> s.displaced == {}
  {
    ReachableInv(maxInFlight, s);
    if DistinctIds(s) {
      DistinctNeverDisplaced(s);
    }
  }

  // ---- deliveries ----

  lemma StepKeepsLog(s: State, e: Event, q: Request)
    requires PlaceInv(s) && Enabled(s, e) && q in s.log
    ensures q in Apply(s, e).log && s.log[q] <= Apply(s, e).log[q]
    ensures Settled(q, s.log[q]) ==> Apply(s, e).log[q] == s.log[q]
  {
    hide Settled;
    hide Open;
    hide Deliver;
    OpenIsNotSettled(q, s.log[q]);
    UnsettledTargets(s);
    match e
    case Enqueue(_) => HandleIsNew(s, q);
    case Respond =>
      if s.incoming[0].txnId in s.requests {
        DeliveredGrows(s.log, s.requests[s.incoming[0].txnId], Result(s.incoming[0]));
      }
    case Drain => DeliveredGrows(s.log, s.outgoing[0], Error);
    case FailOne(key) => DeliveredGrows(s.log, s.requests[key], Error);
    case _ => assert Apply(s, e).log == s.log;
  }

  /** Nothing is ever delivered to a request that is settled. */
  lemma UnsettledTargets(s: State)
    requires PlaceInv(s)
    ensures forall q <- s.outgoing :: q in s.log && !Settled(q, s.log[q])
    ensures forall t <- s.requests :: s.requests[t] in s.log && !Settled(s.requests[t], s.log[s.requests[t]])
  {
    forall t <- s.requests ensures s.requests[t] in s.log && !Settled(s.requests[t], s.log[s.requests[t]]) {
      OpenIsNotSettled(s.requests[t], s.log[s.requests[t]]);
    }
  }

  lemma HandleIsNew(s: State, q: Request)
    requires PlaceInv(s) && q in s.log
    ensures q.handle != s.nextHandle
  {
  }

  lemma DeliveredGrows(log: map<Request, seq<Delivery>>, p: Request, d: Delivery)
    requires p in log
    ensures Deliver(log, p, d).Keys == log.Keys
    ensures forall q <- log :: log[q] <= Deliver(log, p, d)[q] && (q != p ==> Deliver(log, p, d)[q] == log[q])
  {
  }

  /** Deliveries are never taken back, and a request that is settled gets nothing more. */
  lemma {:induction false} SettledForever(s: State, es: seq<Event>, q: Request)
    requires Inv(s) && CanRun(s, es) && q in s.log
    ensures q in Run(s, es).log && s.log[q] <= Run(s, es).log[q]
    ensures Settled(q, s.log[q]) ==> Run(s, es).log[q] == s.log[q]
    decreases |es|
  {
    if es != [] {
      StepKeepsLog(s, es[0], q);
      InvStep(s, es[0]);
      SettledForever(Apply(s, es[0]), es[1..], q);
    }
  }

  /** At every moment of every run a request has received only responses carrying its own id, none of
      them completed except possibly the last, which may instead be an error; and if it is not over,
      it is still queued, still waiting, or was displaced. Once the loop has stopped, the requests
      that did not get their final delivery are exactly those displaced and those enqueued late. */
  lemma DeliveredAtMostOnce(maxInFlight: nat, s: State, q: Request)
    requires Reachable(maxInFlight, s) && q in s.log
    ensures Open(q, s.log[q]) != Settled(q, s.log[q])
    ensures Settled(q, s.log[q]) <==> q !in s.outgoing && !Waiting(s.requests, q) && q !in s.displaced
    ensures s.loop.Stopped? ==> (Settled(q, s.log[q]) <==> q !in s.displaced && q !in s.late)
  {
    ReachableInv(maxInFlight, s);
    OpenIsNotSettled(q, s.log[q]);
  }

  // ---- which response goes where ----

  /** The responses in a log. */
  ghost function Results(log: seq<Delivery>): seq<Response> {
    if log == [] then []
    else Results(log[..|log| - 1]) + if log[|log| - 1].Result? then [log[|log| - 1].response] else []
  }

  ghost function ResultsFor(s: State, q: Request): seq<Response> {
    if q in s.log then Results(s.log[q]) else []
  }

  /** The responses with q's id that the run takes from the incoming queue while q is waiting. */
  ghost function TakenFor(s: State, es: seq<Event>, q: Request): seq<Response>
    requires CanRun(s, es)
    decreases |es|
  {
    if es == [] then []
    else
      (if es[0].Respond? && s.incoming[0].txnId == q.txnId && q.txnId in s.requests && s.requests[q.txnId] == q
       then [s.incoming[0]] else [])
      + TakenFor(Apply(s, es[0]), es[1..], q)
  }

  lemma ResultsSnoc(log: seq<Delivery>, d: Delivery)
    ensures Results(log + [d]) == Results(log) + if d.Result? then [d.response] else []
  {
    assert (log + [d])[..|log|] == log;
  }

  /** What a response at the head does to the logs: one more result for the request waiting under its id,
      nothing for anybody else. */
  lemma RespondDelivers(s: State)
    requires PlaceInv(s) && Enabled(s, Respond)
    ensures var r := s.incoming[0]; var s' := Apply(s, Respond);
      && s'.incoming == s.incoming[1..]
      && (r.txnId !in s.requests ==> s'.log == s.log && s'.requests == s.requests && s'.loop == s.loop)
      && (r.txnId in s.requests ==>
            && s.requests[r.txnId] in s.log
            && s'.log == s.log[s.requests[r.txnId] := s.log[s.requests[r.txnId]] + [Result(r)]]
            && s'.requests == (if r.txnStatus == "completed" then s.requests - {r.txnId} else s.requests)
            && (s'.loop.Releasing? <==> r.txnStatus == "completed"))
  {
  }

  /** No other step delivers a result. */
  lemma OthersDeliverNone(s: State, e: Event, q: Request)
    requires PlaceInv(s) && Enabled(s, e) && !e.Respond?
    ensures ResultsFor(Apply(s, e), q) == ResultsFor(s, q)
  {
    hide Placed;
    AcceptedInLog(s);
    match e
    case Enqueue(sid) =>
      if q in s.log {
        HandleIsNew(s, q);
      }
    case Drain => ResultsSnoc(s.log[s.outgoing[0]], Error);
    case FailOne(key) => ResultsSnoc(s.log[s.requests[key]], Error);
    case Respond =>
    case _ => assert Apply(s, e).log == s.log;
  }

  lemma AcceptedInLog(s: State)
    requires PlaceInv(s)
    ensures (forall q <- s.outgoing :: q in s.log) && forall t <- s.requests :: s.requests[t] in s.log
    ensures forall t <- s.requests :: s.requests[t].txnId == t
  {
  }

  lemma RespondForOne(s: State, q: Request)
    requires PlaceInv(s) && Enabled(s, Respond)
    ensures var r := s.incoming[0];
      ResultsFor(Apply(s, Respond), q) ==
      ResultsFor(s, q) + if r.txnId == q.txnId && q.txnId in s.requests && s.requests[q.txnId] == q then [r] else []
  {
    hide Placed;
    AcceptedInLog(s);
    RespondDelivers(s);
    if q in s.log {
      ResultsSnoc(s.log[q], Result(s.incoming[0]));
    }
  }

  /** Over every run a request has received, in order, exactly the responses with its id that were taken
      from the incoming queue while it was waiting. */
  lemma {:induction false} DeliversWhatArrives(s: State, es: seq<Event>, q: Request)
    requires Inv(s) && CanRun(s, es)
    ensures ResultsFor(Run(s, es), q) == ResultsFor(s, q) + TakenFor(s, es, q)
    decreases |es|
  {
    hide ResultsFor;
    hide Inv;
    hide PlaceInv;
    if es != [] {
      InvHasPlaces(s);
      InvStep(s, es[0]);
      DeliversWhatArrives(Apply(s, es[0]), es[1..], q);
      if es[0].Respond? {
        RespondForOne(s, q);
      } else {
        OthersDeliverNone(s, es[0], q);
      }
    }
  }

  lemma InvHasPlaces(s: State)
    requires Inv(s)
    ensures PlaceInv(s)
  {
  }

  // ---- first in, first out ----

  /** The responses the listener queues, and those the loop takes. */
  ghost function Arrived(es: seq<Event>): seq<Response> {
    if es == [] then [] else (if es[0].Arrive? then [es[0].response] else []) + Arrived(es[1..])
  }

  ghost function Taken(s: State, es: seq<Event>): seq<Response>
    requires CanRun(s, es)
    decreases |es|
  {
    if es == [] then []
    else (if es[0].Respond? then [s.incoming[0]] else []) + Taken(Apply(s, es[0]), es[1..])
  }

  lemma QueueTwice<T>(before: seq<T>, new1: seq<T>, out1: seq<T>, between: seq<T>, new2: seq<T>, out2: seq<T>,
                      after: seq<T>)
    requires before + new1 == out1 + between && between + new2 == out2 + after
    ensures before + (new1 + new2) == (out1 + out2) + after
  {
    assert before + (new1 + new2) == (before + new1) + new2;
    assert (out1 + between) + new2 == out1 + (between + new2);
    assert out1 + (out2 + after) == (out1 + out2) + after;
  }

  /** Responses are taken in the order in which they arrived, and none is lost on the way. */
  lemma {:induction false} IncomingIsFifo(s: State, es: seq<Event>)
    requires CanRun(s, es)
    ensures s.incoming + Arrived(es) == Taken(s, es) + Run(s, es).incoming
    decreases |es|
  {
    if es != [] {
      var s1, rest := Apply(s, es[0]), es[1..];
      IncomingStep(s, es[0]);
      IncomingIsFifo(s1, rest);
      QueueTwice(s.incoming, if es[0].Arrive? then [es[0].response] else [],
                 if es[0].Respond? then [s.incoming[0]] else [], s1.incoming,
                 Arrived(rest), Taken(s1, rest), Run(s1, rest).incoming);
    }
  }

  lemma IncomingStep(s: State, e: Event)
    requires Enabled(s, e)
    ensures s.incoming + (if e.Arrive? then [e.response] else []) ==
            (if e.Respond? then [s.incoming[0]] else []) + Apply(s, e).incoming
  {
  }

  /** The requests that enter the outgoing queue, and those that leave it, for the map or for cleanup. */
  ghost function Entered(s: State, es: seq<Event>): seq<Request>
    requires CanRun(s, es)
    decreases |es|
  {
    if es == [] then []
    else
      (if es[0].Enqueue? then [Request(s.nextHandle, s.senders[es[0].sid].txnId)] else [])
      + Entered(Apply(s, es[0]), es[1..])
  }

  ghost function Left(s: State, es: seq<Event>): seq<Request>
    requires CanRun(s, es)
    decreases |es|
  {
    if es == [] then []
    else (if es[0].Dispatch? || es[0].Drain? then [s.outgoing[0]] else []) + Left(Apply(s, es[0]), es[1..])
  }

  lemma OutgoingStep(s: State, e: Event)
    requires Enabled(s, e)
    ensures s.outgoing + (if e.Enqueue? then [Request(s.nextHandle, s.senders[e.sid].txnId)] else []) ==
            (if e.Dispatch? || e.Drain? then [s.outgoing[0]] else []) + Apply(s, e).outgoing
  {
  }

  /** Requests leave the queue in the order in which they were accepted, and none is lost in it. */
  lemma {:induction false} OutgoingIsFifo(s: State, es: seq<Event>)
    requires CanRun(s, es)
    ensures s.outgoing + Entered(s, es) == Left(s, es) + Run(s, es).outgoing
    decreases |es|
  {
    if es != [] {
      var s1, rest := Apply(s, es[0]), es[1..];
      OutgoingStep(s, es[0]);
      OutgoingIsFifo(s1, rest);
      QueueTwice(s.outgoing, if es[0].Enqueue? then [Request(s.nextHandle, s.senders[es[0].sid].txnId)] else [],
                 if es[0].Dispatch? || es[0].Drain? then [s.outgoing[0]] else [], s1.outgoing,
                 Entered(s1, rest), Left(s1, rest), Run(s1, rest).outgoing);
    }
  }

  // ---- cleanup ----

  /** Still to be failed by the cleanup loops. */
  ghost predicate Pending(s: State, q: Request) {
    (s.loop.Draining? && q in s.outgoing) || Waiting(s.requests, q)
  }

  /** One cleanup turn: a pending request keeps its log, or gets one error and is settled by it. */
  ghost predicate KeptOrFailed(s: State, s': State, q: Request)
    requires q in s.log
  {
    && q in s'.log
    && (Pending(s', q) ==> s'.log[q] == s.log[q])
    && (!Pending(s', q) ==> s'.log[q] == s.log[q] + [Error] && Settled(q, s'.log[q]))
  }

  /** A queued request has received nothing and is nowhere else. */
  lemma QueuedFacts(s: State)
    requires PlaceInv(s) && s.outgoing != []
    ensures s.outgoing[0] in s.log && s.outgoing[0] !in s.outgoing[1..] && !Waiting(s.requests, s.outgoing[0])
    ensures s.log[s.outgoing[0]] == []
    ensures forall q :: q in s.outgoing <==> q == s.outgoing[0] || q in s.outgoing[1..]
  {
    assert s.outgoing == [s.outgoing[0]] + s.outgoing[1..];
  }

  lemma CleanupDrain(s: State, q: Request)
    requires PlaceInv(s) && Enabled(s, Drain) && q in s.log && Pending(s, q)
    ensures KeptOrFailed(s, Apply(s, Drain), q)
  {
    hide PlaceInv;
    hide Settled;
    hide Waiting;
    QueuedFacts(s);
    FailedFromNothing(q);
  }

  lemma CleanupFailOne(s: State, key: string, q: Request)
    requires PlaceInv(s) && Enabled(s, FailOne(key)) && q in s.log && Pending(s, q)
    ensures KeptOrFailed(s, Apply(s, FailOne(key)), q)
  {
    AppendFinal(q, s.log[q], Error);
  }

  lemma CleanupStep(s: State, e: Event, q: Request)
    requires PhaseInv(s) && PlaceInv(s) && !s.connected && Enabled(s, e) && q in s.log && Pending(s, q)
    ensures !Apply(s, e).connected && KeptOrFailed(s, Apply(s, e), q)
  {
    match e
    case Enqueue(_) => assert q.handle != s.nextHandle;
    case Drain => CleanupDrain(s, q);
    case FailOne(key) => CleanupFailOne(s, key, q);
    case _ =>
  }

  /** Whatever the other goroutines do meanwhile, every request that was queued or waiting when the
      loop was left has, once cleanup has ended, received exactly one error more and nothing else. */
  lemma {:induction false} CleanupFailsEachOnce(s: State, es: seq<Event>, q: Request)
    requires Inv(s) && !s.connected && CanRun(s, es) && q in s.log && Pending(s, q)
    requires Run(s, es).loop.Stopped?
    ensures q in Run(s, es).log && Run(s, es).log[q] == s.log[q] + [Error]
    decreases |es|
  {
    if es != [] {
      var s1 := Apply(s, es[0]);
      InvStep(s, es[0]);
      CleanupStep(s, es[0], q);
      if Pending(s1, q) {
        CleanupFailsEachOnce(s1, es[1..], q);
      } else {
        SettledForever(s1, es[1..], q);
      }
    }
  }

  // ---- how long cleanup can take ----

  ghost function ClearedOf(senders: map<nat, Sender>): set<nat> {
    set sid | sid in senders && senders[sid].Cleared?
  }

  lemma ClearedAfterLeaving(senders: map<nat, Sender>, sid: nat)
    requires sid in senders
    ensures |ClearedOf(senders - {sid})| == |ClearedOf(senders)| - if senders[sid].Cleared? then 1 else 0
  {
    if senders[sid].Cleared? {
      assert ClearedOf(senders - {sid}) == ClearedOf(senders) - {sid};
    } else {
      assert ClearedOf(senders - {sid}) == ClearedOf(senders);
    }
  }

  lemma ClearedAfterTaking(senders: map<nat, Sender>, sid: nat, txnId: string)
    requires sid !in senders
    ensures |ClearedOf(senders[sid := Reserved(txnId)])| == |ClearedOf(senders)|
  {
    assert ClearedOf(senders[sid := Reserved(txnId)]) == ClearedOf(senders);
  }

  /** The turns of the first loop still to come. */
  ghost function Ahead(s: State): nat {
    |s.outgoing| + |ClearedOf(s.senders)|
  }

  ghost function Drains(es: seq<Event>): nat {
    if es == [] then 0 else (if es[0].Drain? then 1 else 0) + Drains(es[1..])
  }

  ghost function Fails(es: seq<Event>): nat {
    if es == [] then 0 else (if es[0].FailOne? then 1 else 0) + Fails(es[1..])
  }

  lemma CleanupTurn(s: State, e: Event)
    requires PhaseInv(s) && !s.connected && Enabled(s, e)
    ensures !Apply(s, e).connected
    ensures (if e.Drain? then 1 else 0) + Ahead(Apply(s, e)) == Ahead(s)
    ensures (if e.FailOne? then 1 else 0) + |Apply(s, e).requests| == |s.requests|
  {
    hide ClearedOf;
    hide Deliver;
    match e
    case TakeToken(sid, txnId) => ClearedAfterTaking(s.senders, sid, txnId);
    case CheckConnected(sid) => ClearedAfterLeaving(s.senders, sid);
    case Enqueue(sid) => ClearedAfterLeaving(s.senders, sid);
    case FailOne(key) => CardinalityAfterRemoval(s.requests, key);
    case _ =>
  }

  /** After the loop has been left, whatever the other goroutines do, the turns the cleanup loops have made
      and those they may still have to make add up to what was there: a turn of the first for every
      request queued and every sender past its test, and one of the second for every waiting request. */
  lemma {:induction false} CleanupIsBounded(s: State, es: seq<Event>)
    requires Inv(s) && !s.connected && CanRun(s, es)
    ensures var s' := Run(s, es);
      && Drains(es) + Ahead(s') == Ahead(s)
      && Fails(es) + |s'.requests| == |s.requests|
    decreases |es|
  {
    hide Ahead;
    hide TokenInv;
    hide PlaceInv;
    hide DisplacedInv;
    if es != [] {
      CleanupTurn(s, es[0]);
      InvStep(s, es[0]);
      CleanupIsBounded(Apply(s, es[0]), es[1..]);
    }
  }

  /** No sender is between its connected test and its enqueue. */
  ghost predicate NoneCleared(s: State) {
    forall sid <- s.senders :: !s.senders[sid].Cleared?
  }

  lemma NoneClearedStep(s: State, e: Event)
    requires PhaseInv(s) && PlaceInv(s) && (s.loop.Failing? || s.loop.Stopped?) && NoneCleared(s) && Enabled(s, e)
    ensures var s' := Apply(s, e);
      (s'.loop.Failing? || s'.loop.Stopped?) && NoneCleared(s') && s'.late == s.late && s'.log.Keys == s.log.Keys
  {
  }

  lemma {:induction false} NoneClearedStaysSo(s: State, es: seq<Event>)
    requires Inv(s) && (s.loop.Failing? || s.loop.Stopped?) && NoneCleared(s) && CanRun(s, es)
    ensures Run(s, es).late == s.late && Run(s, es).log.Keys == s.log.Keys
    decreases |es|
  {
    if es != [] {
      InvStep(s, es[0]);
      NoneClearedStep(s, es[0]);
      NoneClearedStaysSo(Apply(s, es[0]), es[1..]);
    }
  }

  lemma ForgottenStep(s: State, e: Event, q: Request)
    requires PhaseInv(s) && PlaceInv(s) && Enabled(s, e) && (q in s.displaced || q in s.late)
    ensures var s' := Apply(s, e);
      (q in s'.displaced || q in s'.late) && q in s.log && q in s'.log && s'.log[q] == s.log[q]
  {
    match e
    case Enqueue(_) => assert q.handle != s.nextHandle;
    case _ =>
  }

  /** A displaced request, or one enqueued late, receives nothing more, ever. */
  lemma {:induction false} ForgottenForever(s: State, es: seq<Event>, q: Request)
    requires Inv(s) && CanRun(s, es) && (q in s.displaced || q in s.late)
    ensures q in s.log && q in Run(s, es).log && Run(s, es).log[q] == s.log[q]
    ensures !Settled(q, Run(s, es).log[q])
    decreases |es|
  {
    OpenIsNotSettled(q, s.log[q]);
    if es != [] {
      InvStep(s, es[0]);
      ForgottenStep(s, es[0], q);
      ForgottenForever(Apply(s, es[0]), es[1..], q);
    }
  }

  /** Accepted and not over, now or on any continuation. */
  ghost predicate Stranded(s: State, q: Request) {
    q in s.log && forall es :: CanRun(s, es) ==> q in Run(s, es).log && !Settled(q, Run(s, es).log[q])
  }

  lemma ForgottenIsStranded(s: State, q: Request)
    requires Inv(s) && (q in s.displaced || q in s.late)
    ensures Stranded(s, q)
  {
    assert CanRun(s, []);
    ForgottenForever(s, [], q);
    forall es | CanRun(s, es) ensures q in Run(s, es).log && !Settled(q, Run(s, es).log[q]) {
      ForgottenForever(s, es, q);
    }
  }

  lemma ClearedStrands(s: State, sid: nat) returns (es: seq<Event>, q: Request)
    requires Inv(s) && (s.loop.Failing? || s.loop.Stopped?) && s.outgoing == []
    requires sid in s.senders && s.senders[sid].Cleared?
    ensures CanRun(s, es) && q !in s.log && Stranded(Run(s, es), q)
  {
    var s1 := Apply(s, Enqueue(sid));
    es, q := [Enqueue(sid)], Request(s.nextHandle, s.senders[sid].txnId);
    assert es[1..] == [];
    assert CanRun(s1, []) && Run(s1, []) == s1;
    InvStep(s, Enqueue(sid));
    ForgottenIsStranded(s1, q);
  }

  /** On the run a request is accepted and stranded. */
  ghost predicate Strands(s: State, es: seq<Event>, q: Request) {
    CanRun(s, es) && q !in s.log && Stranded(Run(s, es), q)
  }

  /** Once the first cleanup loop has ended with the queue empty, a request can still be accepted and
      then never answered, if and only if some sender had passed its connected test before. */
  lemma StrandingIffCleared(s: State)
    requires Inv(s) && (s.loop.Failing? || s.loop.Stopped?) && s.outgoing == []
    ensures (exists es, q :: Strands(s, es, q)) <==> !NoneCleared(s)
  {
    hide PlaceInv;
    hide TokenInv;
    hide PhaseInv;
    if NoneCleared(s) {
      forall es, q | CanRun(s, es) && q !in s.log ensures q !in Run(s, es).log {
        NoneClearedStaysSo(s, es);
      }
    } else {
      var sid :| sid in s.senders && s.senders[sid].Cleared?;
      var es, q := ClearedStrands(s, sid);
      assert Strands(s, es, q);
    }
  }

  lemma Then(es: seq<Event>, s: State, e: Event, t: State)
    requires CanRun(Initial(1), es) && Run(Initial(1), es) == s && Enabled(s, e) && Apply(s, e) == t
    ensures CanRun(Initial(1), es + [e]) && Run(Initial(1), es + [e]) == t
  {
    RunSnoc(Initial(1), es, e);
  }

  /** One sender past its test, and the first cleanup loop over. */
  function Overtaken(): State {
    Initial(1).(tokens := 1, senders := map[0 := Cleared("1")], connected := false, loop := Failing)
  }

  lemma OvertakenIsReached() returns (es: seq<Event>)
    ensures CanRun(Initial(1), es) && Run(Initial(1), es) == Overtaken()
  {
    hide CanRun;
    hide Run;
    var s0 := Initial(1);
    NoRun(s0);
    var s1 := s0.(tokens := 1, senders := map[0 := Reserved("1")]);
    Then([], s0, TakeToken(0, "1"), s1);
    var s2 := s1.(senders := map[0 := Cleared("1")]);
    es := [] + [TakeToken(0, "1")];
    Then(es, s1, CheckConnected(0), s2);
    es := es + [CheckConnected(0)];
    Then(es, s2, SignalExit, s2.(exits := 1));
    es := es + [SignalExit];
    var s4 := s2.(connected := false, loop := Draining);
    Then(es, s2.(exits := 1), Exit, s4);
    es := es + [Exit];
    Then(es, s4, DrainDone, Overtaken());
    es := es + [DrainDone];
  }

  /** It happens: a run of a fresh connection, with one request, that ends stopped with the request
      stranded. */
  lemma CleanupCanStrand() returns (es: seq<Event>, q: Request)
    ensures CanRun(Initial(1), es) && Run(Initial(1), es).loop.Stopped? && DistinctIds(Run(Initial(1), es))
    ensures Stranded(Run(Initial(1), es), q)
  {
    hide CanRun;
    hide Run;
    hide Stranded;
    hide Inv;
    var before := OvertakenIsReached();
    q := Request(0, "1");
    var s6 := Overtaken().(senders := map[], outgoing := [q], nextHandle := 1, log := map[q := []], late := {q});
    Then(before, Overtaken(), Enqueue(0), s6);
    es := before + [Enqueue(0)] + [FailDone];
    Then(before + [Enqueue(0)], s6, FailDone, s6.(loop := Stopped));
    InitialInv();
    RunKeepsInv(Initial(1), es);
    ForgottenIsStranded(s6.(loop := Stopped), q);
  }

  lemma InitialInv()
    ensures Inv(Initial(1))
  {
  }

  lemma NoRun(s: State)
    ensures CanRun(s, []) && Run(s, []) == s
  {
  }

  /** Dispatching a request while another with the same id is waiting is what loses the other one:
      it never settles on any continuation, and without it the dispatch loses nothing. */
  lemma SameIdLosesTheFirst(s: State, es: seq<Event>)
    requires Inv(s) && Enabled(s, Dispatch) && CanRun(Apply(s, Dispatch), es)
    ensures var id := s.outgoing[0].txnId; var s' := Run(Apply(s, Dispatch), es);
      if id in s.requests then s.requests[id] in s'.log && !Settled(s.requests[id], s'.log[s.requests[id]])
      else Apply(s, Dispatch).displaced == s.displaced
  {
    var id := s.outgoing[0].txnId;
    InvStep(s, Dispatch);
    if id in s.requests {
      ForgottenForever(Apply(s, Dispatch), es, s.requests[id]);
    }
  }

  lemma FirstIsElement(out: seq<Request>)
    ensures out != [] ==> out[0] in set q <- out
  {
  }

  lemma NothingLeft(s: State)
    requires PhaseInv(s) && PlaceInv(s) && s.loop.Stopped? && s.displaced == {} && s.late == {}
    ensures s.outgoing == [] && s.requests == map[]
    ensures forall q <- s.log :: Settled(q, s.log[q])
  {
    FirstIsElement(s.outgoing);
  }

  /** With distinct ids, and no sender past its connected test when the first cleanup loop ends
      (state s), every request ever accepted is settled once the loop has stopped, the queue and the
      map are empty, and no other accepted request can appear. */
  lemma ExactlyOnce(maxInFlight: nat, s: State, es: seq<Event>)
    requires Reachable(maxInFlight, s) && s.loop.Failing? && s.outgoing == [] && NoneCleared(s)
    requires CanRun(s, es) && Run(s, es).loop.Stopped? && DistinctIds(Run(s, es))
    ensures var s' := Run(s, es);
      && s'.outgoing == [] && s'.requests == map[]
      && forall q <- s'.log :: Settled(q, s'.log[q])
  {
    hide PlaceInv;
    hide TokenInv;
    hide DisplacedInv;
    ReachableInv(maxInFlight, s);
    assert s.late == {};
    RunKeepsInv(s, es);
    NoneClearedStaysSo(s, es);
    DistinctNeverDisplaced(Run(s, es));
    NothingLeft(Run(s, es));
  }

  lemma StoppedSettlesAll(maxInFlight: nat, s: State)
    requires Reachable(maxInFlight, s) && s.loop.Stopped? && s.outgoing == []
    ensures forall q <- s.log :: Settled(q, s.log[q]) <==> q !in s.displaced
  {
    ReachableInv(maxInFlight, s);
    assert s.late == {};
    forall q <- s.log ensures Settled(q, s.log[q]) <==> q !in s.displaced {
      DeliveredAtMostOnce(maxInFlight, s, q);
    }
  }
}
