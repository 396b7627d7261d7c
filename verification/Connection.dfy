/** cheshireConn (client/connection.go) as an object: each method is what one goroutine does between
    two points where another can run, and its contract ties the new fields to the protocol step. */
module Connection {
  import opened Wrappers
  import opened ConnectionProtocol
  import opened ConnectionTheorems

  class CheshireConn {
    const maxInFlight: nat
    /** Elements in inflightChan; the channel's capacity is maxInFlight. */
    var inflight: nat
    var outgoingChan: seq<Request>
    var incomingChan: seq<Response>
    /** Goroutines blocked on sending to the unbuffered exitChan. */
    var exitWaiters: nat
    var requests: map<string, Request>
    var connected: bool
    var loop: Loop
    var senders: map<nat, Sender>
    var nextHandle: nat

    ghost var log: map<Request, seq<Delivery>>
    ghost var displaced: set<Request>
    ghost var late: set<Request>
    ghost var lost: nat

    ghost function View(): State
      reads this
    {
      State(maxInFlight, inflight, senders, outgoingChan, requests, incomingChan, exitWaiters, connected,
            loop, nextHandle, log, displaced, late, lost)
    }

    /** Everything cleanup leaves alone. */
    ghost function Aside(): State
      reads this
    {
      View().(outgoing := [], requests := map[], loop := Stopped, log := map[], lost := 0)
    }

    ghost predicate Valid()
      reads this
    {
      Reachable(maxInFlight, View())
    }

    constructor (maxInFlight: nat)
      ensures Valid() && View() == Initial(maxInFlight)
    {
      this.maxInFlight := maxInFlight;
      inflight, outgoingChan, incomingChan, exitWaiters := 0, [], [], 0;
      requests, connected, loop, senders, nextHandle := map[], true, Selecting, map[], 0;
      log, displaced, late, lost := map[], {}, {}, 0;
      new;
      assert CanRun(Initial(maxInFlight), []) && Run(Initial(maxInFlight), []) == View();
    }

    // ---- sendRequest, in its three steps ----

    method TakeToken(sid: nat, txnId: string)
      requires Valid() && inflight < maxInFlight && sid !in senders
      modifies this
      ensures Valid() && View() == Apply(old(View()), Event.TakeToken(sid, txnId))
      ensures View() == old(View()).(tokens := old(inflight) + 1, senders := old(senders)[sid := Reserved(txnId)])
    {
      ReachableStep(maxInFlight, View(), Event.TakeToken(sid, txnId));
      inflight := inflight + 1;
      senders := senders[sid := Reserved(txnId)];
    }

    method CheckConnected(sid: nat) returns (ok: bool)
      requires Valid() && sid in senders && senders[sid].Reserved?
      modifies this
      ensures Valid() && View() == Apply(old(View()), Event.CheckConnected(sid))
      ensures ok == old(connected)
      ensures ok ==> View() == old(View()).(senders := old(senders)[sid := Cleared(old(senders)[sid].txnId)])
      ensures !ok ==> View() == old(View()).(senders := old(senders) - {sid}, lost := old(lost) + 1)
    {
      ReachableStep(maxInFlight, View(), Event.CheckConnected(sid));
      ok := connected;
      if ok {
        senders := senders[sid := Cleared(senders[sid].txnId)];
      } else {
        senders := senders - {sid};
        lost := lost + 1;
      }
    }

    method Enqueue(sid: nat) returns (q: Request)
      requires Valid() && sid in senders && senders[sid].Cleared? && |outgoingChan| < OUTGOING_CAPACITY
      modifies this
      ensures Valid() && View() == Apply(old(View()), Event.Enqueue(sid))
      ensures View() == old(View()).(senders := old(senders) - {sid}, outgoing := old(outgoingChan) + [q],
                                     nextHandle := old(nextHandle) + 1, log := old(log)[q := []], late := late)
      ensures late == if loop.Failing? || loop.Stopped? then old(late) + {q} else old(late)
      ensures q !in old(log) && q in log && q == Request(old(nextHandle), old(senders)[sid].txnId)
    {
      hide Reachable;
      NewRequestIsNew(maxInFlight, View(), senders[sid].txnId);
      ReachableStep(maxInFlight, View(), Event.Enqueue(sid));
      q := Request(nextHandle, senders[sid].txnId);
      nextHandle := nextHandle + 1;
      senders := senders - {sid};
      outgoingChan := outgoingChan + [q];
      log := log[q := []];
      if loop.Failing? || loop.Stopped? {
        late := late + {q};
      }
    }

    /** sendRequest run without interruption. With no token to be had it closes the connection and fails;
        on a closed connection it fails and the token it took stays taken; with the queue full it is left
        waiting there, past its connected test. */
    method SendRequest(sid: nat, txnId: string) returns (outcome: Outcome)
      requires Valid() && sid !in senders
      modifies this
      ensures Valid() && outcome == OutcomeOf(old(View()), txnId)
      ensures View() == AfterSend(old(View()), sid, txnId)
      ensures outcome.Accepted? ==> outcome.request !in old(log)
      ensures outcome.TimedOut? <==> old(inflight) >= maxInFlight
      ensures outcome.NotConnected? <==> old(inflight) < maxInFlight && !old(connected)
      ensures outcome.Blocked? <==>
                old(inflight) < maxInFlight && old(connected) && |old(outgoingChan)| >= 25
      ensures outcome.TimedOut? ==>
                View() == old(View()).(exits := old(exitWaiters) + if old(connected) then 1 else 0)
      ensures outcome.NotConnected? ==>
                View() == old(View()).(tokens := old(inflight) + 1, lost := old(lost) + 1)
      ensures outcome.Blocked? ==>
                View() == old(View()).(tokens := old(inflight) + 1, senders := old(senders)[sid := Cleared(txnId)])
      ensures outcome.Accepted? ==>
                var q := Request(old(nextHandle), txnId);
                && outcome.request == q
                && View() == old(View()).(tokens := old(inflight) + 1, outgoing := old(outgoingChan) + [q],
                                          nextHandle := old(nextHandle) + 1, log := old(log)[q := []])
    {
      hide Reachable;
      hide Apply;
      if inflight >= maxInFlight {
        Close();
        return TimedOut;
      }
      ResponseHasItsRequest(maxInFlight, View());
      SendSteps(View(), sid, txnId);
      NewRequestIsNew(maxInFlight, View(), txnId);
      TakeToken(sid, txnId);
      var ok := CheckConnected(sid);
      assert ok ==> nextHandle == old(nextHandle) && senders[sid] == Cleared(txnId);
      if !ok {
        return NotConnected;
      }
      if |outgoingChan| >= OUTGOING_CAPACITY {
        return Blocked;
      }
      var q := Enqueue(sid);
      return Accepted(q);
    }

    method Close()
      requires Valid()
      modifies this
      ensures Valid() && View() == old(View()).(exits := old(exitWaiters) + if old(connected) then 1 else 0)
    {
      if connected {
        SignalExit();
      }
    }

    // ---- the other goroutines ----

    /** The listener hands on a decoded response. */
    method Arrive(response: Response)
      requires Valid() && |incomingChan| < INCOMING_CAPACITY
      modifies this
      ensures Valid() && View() == Apply(old(View()), Event.Arrive(response))
      ensures View() == old(View()).(incoming := old(incomingChan) + [response]) && |incomingChan| <= 25
    {
      ReachableStep(maxInFlight, View(), Event.Arrive(response));
      incomingChan := incomingChan + [response];
    }

    /** Close, or the end of the listener: one more goroutine waits for the loop to take its signal. */
    method SignalExit()
      requires Valid()
      modifies this
      ensures Valid() && View() == Apply(old(View()), Event.SignalExit)
      ensures View() == old(View()).(exits := old(exitWaiters) + 1)
    {
      ReachableStep(maxInFlight, View(), Event.SignalExit);
      exitWaiters := exitWaiters + 1;
    }

    // ---- the arms of the event loop ----

    /** The response at the head goes to the request waiting under its id, if there is one, and to no
        other; a completed one ends the wait, and a token is then owed. */
    method Respond()
      requires Valid() && loop.Selecting? && incomingChan != []
      modifies this
      ensures Valid() && View() == Apply(old(View()), Event.Respond)
      ensures old(incomingChan)[0].txnId !in old(requests) ==>
                View() == old(View()).(incoming := old(incomingChan)[1..])
      ensures old(incomingChan)[0].txnId in old(requests) ==>
                var r := old(incomingChan)[0];
                var q := old(requests)[r.txnId];
                var completed := r.txnStatus == "completed";
                && q in old(log)
                && View() == old(View()).(
                     incoming := old(incomingChan)[1..],
                     log := old(log)[q := old(log)[q] + [Result(r)]],
                     requests := if completed then old(requests) - {r.txnId} else old(requests),
                     loop := if completed then Releasing else Selecting)
    {
      hide Reachable;
      ResponseHasItsRequest(maxInFlight, View());
      ReachableStep(maxInFlight, View(), Event.Respond);
      var response := incomingChan[0];
      incomingChan := incomingChan[1..];
      if response.txnId !in requests {
        return;
      }
      log := Deliver(log, requests[response.txnId], Result(response));
      if response.Completed() {
        requests := requests - {response.txnId};
        loop := Releasing;
      }
    }

    /** The receive from inflightChan after a completed response; it needs no guard of its own. */
    method Release()
      requires Valid() && loop.Releasing?
      modifies this
      ensures Valid() && old(inflight) > 0 && View() == Apply(old(View()), Event.Release)
      ensures View() == old(View()).(tokens := old(inflight) - 1, loop := Selecting)
    {
      InFlightBounded(maxInFlight, View());
      ReachableStep(maxInFlight, View(), Event.Release);
      inflight := inflight - 1;
      loop := Selecting;
    }

    /** The request at the head waits under its id; one that waited there is displaced. */
    method Dispatch()
      requires Valid() && loop.Selecting? && outgoingChan != []
      modifies this
      ensures Valid() && View() == Apply(old(View()), Event.Dispatch)
      ensures var q := old(outgoingChan)[0];
        View() == old(View()).(outgoing := old(outgoingChan)[1..], requests := old(requests)[q.txnId := q],
                               displaced := displaced, lost := lost)
      ensures var id := old(outgoingChan)[0].txnId;
        && displaced == old(displaced) + (if id in old(requests) then {old(requests)[id]} else {})
        && lost == old(lost) + if id in old(requests) then 1 else 0
    {
      hide Reachable;
      ReachableStep(maxInFlight, View(), Event.Dispatch);
      var q := outgoingChan[0];
      outgoingChan := outgoingChan[1..];
      if q.txnId in requests {
        displaced := displaced + {requests[q.txnId]};
        lost := lost + 1;
      }
      requests := requests[q.txnId := q];
    }

    method Exit()
      requires Valid() && loop.Selecting? && exitWaiters > 0
      modifies this
      ensures Valid() && View() == Apply(old(View()), Event.Exit)
      ensures View() == old(View()).(exits := old(exitWaiters) - 1, connected := false, loop := Draining)
    {
      hide Reachable;
      ReachableStep(maxInFlight, View(), Event.Exit);
      exitWaiters := exitWaiters - 1;
      connected := false;
      loop := Draining;
    }

    // ---- cleanup: one turn of each loop, then the loops run without interruption ----

    method DrainOne()
      requires Valid() && loop.Draining? && outgoingChan != []
      modifies this
      ensures Valid() && View() == Apply(old(View()), Drain)
      ensures var q := old(outgoingChan)[0];
        && q in old(log) && q !in outgoingChan && old(outgoingChan) == [q] + outgoingChan
        && View() == old(View()).(outgoing := outgoingChan, log := old(log)[q := old(log)[q] + [Error]],
                                  lost := old(lost) + 1)
    {
      hide Reachable;
      QueueHeadIsUnique(maxInFlight, View());
      ReachableStep(maxInFlight, View(), Drain);
      var q := outgoingChan[0];
      outgoingChan := outgoingChan[1..];
      log := Deliver(log, q, Error);
      lost := lost + 1;
    }

    method FailOne(key: string)
      requires Valid() && loop.Failing? && key in requests
      modifies this
      ensures Valid() && View() == Apply(old(View()), Event.FailOne(key))
      ensures old(requests)[key].txnId == key && old(requests)[key] in old(log) && |requests| == |old(requests)| - 1
      ensures requests == old(requests) - {key} && log == Deliver(old(log), old(requests)[key], Error)
      ensures var q := old(requests)[key]; log == old(log)[q := old(log)[q] + [Error]]
      ensures loop == old(loop) && outgoingChan == old(outgoingChan) && Aside() == old(Aside())
    {
      hide Reachable;
      WaitingUnderItsId(maxInFlight, View(), key);
      ReachableStep(maxInFlight, View(), Event.FailOne(key));
      CardinalityAfterRemoval(requests, key);
      log := Deliver(log, requests[key], Error);
      requests := requests - {key};
      lost := lost + 1;
    }

    /** The first loop: everything queued gets one error, in order, and the queue is empty. */
    method DrainQueue()
      requires Valid() && loop.Draining?
      modifies this
      ensures Valid() && loop.Failing? && outgoingChan == [] && requests == old(requests)
      ensures log.Keys == old(log).Keys
      ensures forall q <- log :: log[q] == FailedIf(q in old(outgoingChan), old(log)[q])
      ensures Aside() == old(Aside())
    {
      hide Reachable;
      while outgoingChan != []
        invariant Valid() && loop.Draining?
        invariant requests == old(requests) && log.Keys == old(log).Keys
        invariant forall q <- outgoingChan :: q in old(outgoingChan)
        invariant forall q <- log :: log[q] == FailedIf(q in old(outgoingChan) && q !in outgoingChan, old(log)[q])
        invariant Aside() == old(Aside())
        decreases |outgoingChan|
      {
        DrainOne();
      }
      ReachableStep(maxInFlight, View(), DrainDone);
      loop := Failing;
    }

    /** The second loop, over the map in any order: everything waiting gets one error. */
    method FailWaiting()
      requires Valid() && loop.Failing?
      modifies this
      ensures Valid() && loop.Stopped? && requests == map[] && outgoingChan == old(outgoingChan)
      ensures log.Keys == old(log).Keys
      ensures forall q <- log :: log[q] == FailedIf(Waiting(old(requests), q), old(log)[q])
      ensures Aside() == old(Aside())
    {
      hide Reachable;
      hide Apply;
      while requests != map[]
        invariant Valid() && loop.Failing?
        invariant outgoingChan == old(outgoingChan) && log.Keys == old(log).Keys
        invariant forall t <- requests :: t in old(requests) && requests[t] == old(requests)[t]
        invariant forall q <- log ::
                    log[q] == FailedIf(Waiting(old(requests), q) && !Waiting(requests, q), old(log)[q])
        invariant Aside() == old(Aside())
        decreases |requests|
      {
        var k :| k in requests;
        FailOne(k);
      }
      ReachableStep(maxInFlight, View(), FailDone);
      CanFinish(View());
      loop := Stopped;
    }

    /** Cleanup ends; everything queued or waiting has received exactly one error, nothing else has
        received anything, and queue and map are empty. */
    method Cleanup()
      requires Valid() && loop.Draining?
      modifies this
      ensures Valid() && loop.Stopped? && outgoingChan == [] && requests == map[]
      ensures log.Keys == old(log).Keys
      ensures forall q <- log ::
                log[q] == FailedIf(q in old(outgoingChan) || Waiting(old(requests), q), old(log)[q])
      ensures Aside() == old(Aside())
    {
      QueuedIsNotWaiting(maxInFlight, View());
      DrainQueue();
      FailWaiting();
    }

    /** One turn of the select with nothing running in between; an arm that is not ready does nothing. */
    method Turn(arm: Arm)
      requires Valid() && loop.Selecting?
      modifies this
      ensures Valid() && View() == AfterTurn(old(View()), arm)
      ensures !Ready(old(View()), arm) ==> View() == old(View())
      ensures arm.Incoming? && old(incomingChan) != [] && old(incomingChan)[0].txnId !in old(requests) ==>
                View() == old(View()).(incoming := old(incomingChan)[1..])
      ensures arm.Incoming? && old(incomingChan) != [] && old(incomingChan)[0].txnId in old(requests) ==>
                var r := old(incomingChan)[0];
                var q := old(requests)[r.txnId];
                var completed := r.txnStatus == "completed";
                && q in old(log)
                && View() == old(View()).(
                     incoming := old(incomingChan)[1..],
                     log := old(log)[q := old(log)[q] + [Result(r)]],
                     requests := if completed then old(requests) - {r.txnId} else old(requests),
                     tokens := inflight)
                && inflight == old(inflight) - if completed then 1 else 0
      ensures arm.Outgoing? && old(outgoingChan) != [] ==>
                && outgoingChan == old(outgoingChan)[1..] && log == old(log) && inflight == old(inflight)
                && requests == old(requests)[old(outgoingChan)[0].txnId := old(outgoingChan)[0]]
      ensures arm.ExitSignal? && old(exitWaiters) > 0 ==>
                View() == old(View()).(exits := old(exitWaiters) - 1, connected := false, loop := Draining)
      ensures if connected then loop.Selecting? else loop.Draining?
      ensures log.Keys == old(log).Keys && forall q <- log :: old(log)[q] <= log[q]
    {
      hide Reachable;
      ResponseHasItsRequest(maxInFlight, View());
      match arm {
        case Incoming =>
          if incomingChan != [] {
            Respond();
            if loop.Releasing? {
              Release();
            }
          }
        case Outgoing =>
          if outgoingChan != [] {
            Dispatch();
          }
        case ExitSignal =>
          if exitWaiters > 0 {
            Exit();
          }
      }
    }

    /** Whether a step of another goroutine can run. */
    predicate CanDo(e: Event)
      reads this
      ensures CanDo(e) <==> IsOther(e) && Enabled(View(), e)
    {
      match e
      case TakeToken(sid, _) => inflight < maxInFlight && sid !in senders
      case CheckConnected(sid) => sid in senders && senders[sid].Reserved?
      case Enqueue(sid) => sid in senders && senders[sid].Cleared? && |outgoingChan| < OUTGOING_CAPACITY
      case Arrive(_) => |incomingChan| < INCOMING_CAPACITY
      case SignalExit => true
      case _ => false
    }

    /** Steps of other goroutines, as far as they can run; the loop stays where it is. */
    method Interfere(batch: seq<Event>)
      requires Valid()
      modifies this
      ensures Valid() && View() == Interfered(old(View()), batch) && loop == old(loop) && connected == old(connected)
    {
      hide Reachable;
      hide Apply;
      assert batch[0..] == batch;
      for i := 0 to |batch|
        invariant Valid() && loop == old(loop) && connected == old(connected)
        invariant Interfered(View(), batch[i..]) == Interfered(old(View()), batch)
      {
        assert batch[i..][0] == batch[i] && batch[i..][1..] == batch[i + 1..];
        if CanDo(batch[i]) {
          OtherKeepsLoop(View(), batch[i]);
          Other(batch[i]);
        }
      }
    }

    /** One step of another goroutine. */
    method Other(e: Event)
      requires Valid() && IsOther(e) && Enabled(View(), e)
      modifies this
      ensures Valid() && View() == Apply(old(View()), e)
    {
      hide Reachable;
      hide Apply;
      match e {
        case TakeToken(sid, txnId) =>
          TakeToken(sid, txnId);
        case CheckConnected(sid) =>
          var _ := CheckConnected(sid);
        case Enqueue(sid) =>
          var _ := Enqueue(sid);
        case Arrive(response) =>
          Arrive(response);
        case SignalExit =>
          SignalExit();
      }
    }

    /** The first cleanup loop with other goroutines running in between, a batch of steps before every turn. */
    method DrainAmong(env: seq<seq<Event>>) returns (ghost es: seq<Event>)
      requires Valid() && loop.Draining?
      modifies this
      ensures Valid() && loop.Failing? && CanRun(old(View()), es) && Run(old(View()), es) == View()
    {
      hide Reachable;
      hide Apply;
      hide Enabled;
      hide CanRun;
      hide Run;
      ghost var start := View();
      es := [];
      NoSteps(start);
      var n := 0;
      while outgoingChan != [] || n < |env|
        invariant Valid() && loop.Draining? && 0 <= n <= |env|
        invariant CanRun(start, es) && Run(start, es) == View()
        decreases |env| - n, |outgoingChan|
      {
        if n < |env| {
          ghost var more := InterferedRun(View(), env[n]);
          RunConcat(start, es, more);
          es := es + more;
          Interfere(env[n]);
          n := n + 1;
        }
        if outgoingChan != [] {
          CanDrain(View());
          RunSnoc(start, es, Drain);
          es := es + [Drain];
          DrainOne();
        }
      }
      CanDrain(View());
      RunSnoc(start, es, DrainDone);
      es := es + [DrainDone];
      ReachableStep(maxInFlight, View(), DrainDone);
      loop := Failing;
    }

    /** The second one, likewise a run. */
    method FailAll(ghost start: State, ghost before: seq<Event>) returns (ghost es: seq<Event>)
      requires Valid() && loop.Failing? && CanRun(start, before) && Run(start, before) == View()
      modifies this
      ensures Valid() && loop.Stopped? && CanRun(start, es) && Run(start, es) == View()
    {
      hide Reachable;
      hide Apply;
      hide Enabled;
      hide CanRun;
      hide Run;
      es := before;
      while requests != map[]
        invariant Valid() && loop.Failing?
        invariant CanRun(start, es) && Run(start, es) == View()
        decreases |requests|
      {
        var k :| k in requests;
        CanFail(View(), k);
        RunSnoc(start, es, Event.FailOne(k));
        es := es + [Event.FailOne(k)];
        FailOne(k);
      }
      CanFinish(View());
      RunSnoc(start, es, FailDone);
      es := es + [FailDone];
      ReachableStep(maxInFlight, View(), FailDone);
      loop := Stopped;
    }

    /** Both cleanup loops among other goroutines. Each request queued or waiting at the start gets exactly
        one error more, and no other request of that time gets anything. */
    method CleanupAmong(env: seq<seq<Event>>)
      requires Valid() && loop.Draining?
      modifies this
      ensures Valid() && loop.Stopped?
      ensures forall q <- old(log) :: q in log && log[q] == FailedIf(Pending(old(View()), q), old(log)[q])
      ensures forall q <- log :: Settled(q, log[q]) <==> q !in displaced && q !in late
    {
      hide Reachable;
      hide CanRun;
      hide Run;
      hide Pending;
      hide Settled;
      ghost var start := View();
      ghost var drained := DrainAmong(env);
      ghost var es := FailAll(start, drained);
      CleanedUp(maxInFlight, start, es);
    }

    /** The event loop and its deferred cleanup: before each turn a batch of steps of other goroutines, then
        the arm picked, until an exit signal has been taken; then cleanup among the other batches. */
    method EventLoop(picks: seq<Arm>, env: seq<seq<Event>>)
      requires Valid() && loop.Selecting?
      modifies this
      ensures Valid()
      ensures AfterTurns(old(View()), picks, env).connected ==> View() == AfterTurns(old(View()), picks, env)
      ensures !AfterTurns(old(View()), picks, env).connected ==> loop.Stopped?
      ensures var s := AfterTurns(old(View()), picks, env);
        !s.connected ==> forall q <- s.log :: q in log && log[q] == FailedIf(Pending(s, q), s.log[q])
      ensures loop.Stopped? ==> forall q <- log :: Settled(q, log[q]) <==> q !in displaced && q !in late
    {
      hide Reachable;
      hide AfterTurn;
      hide Interfered;
      hide Pending;
      hide Settled;
      LoopFacts(maxInFlight, View());
      var i, rest := 0, env;
      assert picks[0..] == picks;
      while connected && i < |picks|
        invariant Valid() && 0 <= i <= |picks|
        invariant AfterTurns(View(), picks[i..], rest) == AfterTurns(old(View()), picks, env)
        invariant if connected then loop.Selecting? else loop.Draining?
        decreases |picks| - i
      {
        assert picks[i..][0] == picks[i] && picks[i..][1..] == picks[i + 1..];
        if rest != [] {
          Interfere(rest[0]);
          rest := rest[1..];
        }
        Turn(picks[i]);
        i := i + 1;
      }
      if !connected {
        CleanupAmong(rest);
      }
    }
  }

  /** A step of a sender, the listener, or someone asking for exit. */
  predicate IsOther(e: Event) {
    e.TakeToken? || e.CheckConnected? || e.Enqueue? || e.Arrive? || e.SignalExit?
  }

  lemma OtherKeepsLoop(s: State, e: Event)
    requires IsOther(e) && Enabled(s, e)
    ensures Apply(s, e).loop == s.loop && Apply(s, e).connected == s.connected
  {
  }

  ghost function Interfered(s: State, batch: seq<Event>): State
    decreases |batch|
  {
    if batch == [] then s
    else Interfered(if IsOther(batch[0]) && Enabled(s, batch[0]) then Apply(s, batch[0]) else s, batch[1..])
  }

  /** Interference is a run. */
  lemma InterferedRun(s: State, batch: seq<Event>) returns (es: seq<Event>)
    ensures CanRun(s, es) && Run(s, es) == Interfered(s, batch)
    decreases |batch|
  {
    hide Apply;
    hide Enabled;
    if batch == [] {
      es := [];
    } else if IsOther(batch[0]) && Enabled(s, batch[0]) {
      var rest := InterferedRun(Apply(s, batch[0]), batch[1..]);
      es := [batch[0]] + rest;
      assert es[1..] == rest;
    } else {
      es := InterferedRun(s, batch[1..]);
    }
  }

  lemma NoSteps(s: State)
    ensures CanRun(s, []) && Run(s, []) == s
  {
  }

  lemma LoopFacts(maxInFlight: nat, s: State)
    requires Reachable(maxInFlight, s)
    ensures s.connected <==> s.loop.Selecting? || s.loop.Releasing?
  {
    ReachableInv(maxInFlight, s);
  }

  lemma CanDrain(s: State)
    requires s.loop.Draining?
    ensures s.outgoing != [] ==> Enabled(s, Drain) && Apply(s, Drain).loop == s.loop
    ensures s.outgoing != [] ==> Apply(s, Drain).outgoing == s.outgoing[1..]
    ensures s.outgoing == [] ==> Enabled(s, DrainDone) && Apply(s, DrainDone) == s.(loop := Failing)
  {
  }

  lemma CanFail(s: State, key: string)
    requires s.loop.Failing? && key in s.requests
    ensures Enabled(s, Event.FailOne(key))
  {
  }

  lemma CanFinish(s: State)
    requires s.loop.Failing? && s.requests == map[]
    ensures Enabled(s, FailDone) && Apply(s, FailDone) == s.(loop := Stopped)
  {
  }

  /** What a whole cleanup run has done. */
  lemma CleanedUp(maxInFlight: nat, s: State, es: seq<Event>)
    requires Reachable(maxInFlight, s) && s.loop.Draining? && CanRun(s, es) && Run(s, es).loop.Stopped?
    ensures var t := Run(s, es);
      && (forall q <- s.log :: q in t.log && t.log[q] == FailedIf(Pending(s, q), s.log[q]))
      && forall q <- t.log :: Settled(q, t.log[q]) <==> q !in t.displaced && q !in t.late
  {
    hide Run;
    hide CanRun;
    hide TokenInv;
    hide DisplacedInv;
    hide PlaceInv;
    hide Settled;
    ReachableInv(maxInFlight, s);
    RunKeepsInv(s, es);
    forall q <- s.log ensures q in Run(s, es).log && Run(s, es).log[q] == FailedIf(Pending(s, q), s.log[q]) {
      if Pending(s, q) {
        CleanupFailsEachOnce(s, es, q);
      } else {
        NotPending(s, q);
        if Settled(q, s.log[q]) {
          SettledForever(s, es, q);
        } else {
          ForgottenForever(s, es, q);
        }
      }
    }
    forall q <- Run(s, es).log
      ensures Settled(q, Run(s, es).log[q]) <==> q !in Run(s, es).displaced && q !in Run(s, es).late
    {
      SettledWhenStopped(Run(s, es), q);
    }
  }

  lemma NotPending(s: State, q: Request)
    requires PlaceInv(s) && s.loop.Draining? && q in s.log && !Pending(s, q)
    ensures q in s.displaced || Settled(q, s.log[q])
  {
  }

  lemma SettledWhenStopped(s: State, q: Request)
    requires Inv(s) && s.loop.Stopped? && q in s.log
    ensures Settled(q, s.log[q]) <==> q !in s.displaced && q !in s.late
  {
    OpenIsNotSettled(q, s.log[q]);
  }

  /** What one arm does, and after a completed response the token taken back. */
  ghost function AfterTurn(s: State, arm: Arm): State
    requires s.loop.Selecting?
  {
    match arm
    case Incoming =>
      if s.incoming == [] then s
      else
        var s1 := Apply(s, Respond);
        if Enabled(s1, Release) then Apply(s1, Release) else s1
    case Outgoing => if s.outgoing == [] then s else Apply(s, Dispatch)
    case ExitSignal => if s.exits == 0 then s else Apply(s, Exit)
  }

  /** The turns until the loop has seen an exit signal, each after a batch of other steps. */
  ghost function AfterTurns(s: State, picks: seq<Arm>, env: seq<seq<Event>>): State
    decreases |picks|
  {
    if picks == [] || !s.connected then s
    else
      var t := if env == [] then s else Interfered(s, env[0]);
      var rest := if env == [] then [] else env[1..];
      if t.loop.Selecting? then AfterTurns(AfterTurn(t, picks[0]), picks[1..], rest) else s
  }

  /** Steps of senders, the listener and those asking for exit, one after another, are never skipped when
      they can run. */
  lemma {:induction false} InterferedIsAll(s: State, es: seq<Event>)
    requires CanRun(s, es)
    requires forall e <- es :: e.TakeToken? || e.CheckConnected? || e.Enqueue? || e.Arrive? || e.SignalExit?
    ensures Interfered(s, es) == Run(s, es)
    decreases |es|
  {
    hide Apply;
    hide Enabled;
    if es != [] {
      assert es[0] in es;
      InterferedIsAll(Apply(s, es[0]), es[1..]);
    }
  }

  lemma {:induction false} InterferedKeepsLoop(s: State, batch: seq<Event>)
    ensures Interfered(s, batch).loop == s.loop && Interfered(s, batch).connected == s.connected
    decreases |batch|
  {
    hide Apply;
    hide Enabled;
    if batch != [] {
      if IsOther(batch[0]) && Enabled(s, batch[0]) {
        OtherKeepsLoop(s, batch[0]);
        InterferedKeepsLoop(Apply(s, batch[0]), batch[1..]);
      } else {
        InterferedKeepsLoop(s, batch[1..]);
      }
    }
  }

  /** One turn, and turns in a row: no pick and no batch is left out. */
  lemma OneTurn(s: State, arm: Arm, batch: seq<Event>)
    requires s.connected && s.loop.Selecting?
    ensures Interfered(s, batch).loop.Selecting?
    ensures AfterTurns(s, [arm], [batch]) == AfterTurn(Interfered(s, batch), arm)
  {
    hide AfterTurn;
    hide Interfered;
    InterferedKeepsLoop(s, batch);
    assert [arm][1..] == [] && [batch][1..] == [];
  }

  lemma {:induction false} TurnsInARow(s: State, a: seq<Arm>, ea: seq<seq<Event>>, b: seq<Arm>, eb: seq<seq<Event>>)
    requires |a| == |ea|
    ensures AfterTurns(s, a + b, ea + eb) == AfterTurns(AfterTurns(s, a, ea), b, eb)
    decreases |a|
  {
    hide AfterTurn;
    hide Interfered;
    if a == [] {
      assert a + b == b && ea + eb == eb;
    } else {
      assert (a + b)[1..] == a[1..] + b && (ea + eb)[1..] == ea[1..] + eb;
      var t := Interfered(s, ea[0]);
      InterferedKeepsLoop(s, ea[0]);
      if s.connected && t.loop.Selecting? {
        TurnsInARow(AfterTurn(t, a[0]), a[1..], ea[1..], b, eb);
      } else if s.connected && b != [] && eb != [] {
        InterferedKeepsLoop(s, eb[0]);
      }
    }
  }

  /** What comes of a request to send. */
  datatype Outcome = Accepted(request: Request) | NotConnected | TimedOut | Blocked

  function OutcomeOf(s: State, txnId: string): Outcome {
    if s.tokens >= s.maxInFlight then TimedOut
    else if !s.connected then NotConnected
    else if |s.outgoing| >= OUTGOING_CAPACITY then Blocked
    else Accepted(Request(s.nextHandle, txnId))
  }

  function AfterSend(s: State, sid: nat, txnId: string): State {
    match OutcomeOf(s, txnId)
    case TimedOut => s.(exits := s.exits + if s.connected then 1 else 0)
    case NotConnected => s.(tokens := s.tokens + 1, lost := s.lost + 1)
    case Blocked => s.(tokens := s.tokens + 1, senders := s.senders[sid := Cleared(txnId)])
    case Accepted(q) =>
      s.(tokens := s.tokens + 1, outgoing := s.outgoing + [q], nextHandle := s.nextHandle + 1, log := s.log[q := []])
  }

  /** The steps of sendRequest in a row. */
  lemma SendSteps(s: State, sid: nat, txnId: string)
    requires s.tokens < s.maxInFlight && sid !in s.senders
    requires s.connected <==> s.loop.Selecting? || s.loop.Releasing?
    ensures Enabled(s, TakeToken(sid, txnId))
    ensures var s1 := Apply(s, TakeToken(sid, txnId));
      && Enabled(s1, CheckConnected(sid))
      && var s2 := Apply(s1, CheckConnected(sid));
      && s2.connected == s.connected && s2.outgoing == s.outgoing && s2.nextHandle == s.nextHandle
      && (s.connected ==> sid in s2.senders && s2.senders[sid] == Cleared(txnId))
      && (!s.connected ==> s2 == AfterSend(s, sid, txnId))
      && (s.connected && |s.outgoing| >= OUTGOING_CAPACITY ==> s2 == AfterSend(s, sid, txnId))
      && (s.connected && |s.outgoing| < OUTGOING_CAPACITY ==>
            Enabled(s2, Enqueue(sid)) && Apply(s2, Enqueue(sid)) == AfterSend(s, sid, txnId))
  {
    assert s.senders[sid := Reserved(txnId)] - {sid} == s.senders;
    assert s.senders[sid := Reserved(txnId)][sid := Cleared(txnId)] == s.senders[sid := Cleared(txnId)];
    assert s.senders[sid := Cleared(txnId)] - {sid} == s.senders;
  }

  /** The channel of the arm has something. */
  predicate Ready(s: State, arm: Arm) {
    match arm
    case Incoming => s.incoming != []
    case Outgoing => s.outgoing != []
    case ExitSignal => s.exits > 0
  }

  /** The three arms of the select. */
  datatype Arm = Incoming | Outgoing | ExitSignal

  function FailedIf(failed: bool, log: seq<Delivery>): seq<Delivery> {
    if failed then log + [Error] else log
  }
}
