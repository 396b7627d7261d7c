/** What holds of the pool over whole runs, for every interleaving of borrowers and Close. */
module PoolTheorems {
  import opened PoolProtocol

  lemma {:induction false} RunKeepsInv(s: State, es: seq<Event>)
    requires Inv(s) && CanRun(s, es)
    ensures Inv(Run(s, es)) && Run(s, es).size == s.size
    decreases |es|
  {
    hide Inv;
    if es != [] {
      InvStep(s, es[0]);
      RunKeepsInv(Apply(s, es[0]), es[1..]);
    }
  }

  lemma InitialInv(size: nat)
    ensures Inv(Initial(size))
  {
    forall c: nat | c < size ensures c in Initial(size).clients {
      assert Upto(size)[c] == c;
    }
  }

  ghost predicate Reachable(size: nat, s: State) {
    exists es :: CanRun(Initial(size), es) && Run(Initial(size), es) == s
  }

  lemma ReachableInv(size: nat, s: State)
    requires Reachable(size, s)
    ensures Inv(s) && s.size == size
  {
    var es :| CanRun(Initial(size), es) && Run(Initial(size), es) == s;
    hide Inv;
    InitialInv(size);
    RunKeepsInv(Initial(size), es);
  }

  lemma {:induction false} RunSnoc(s: State, es: seq<Event>, e: Event)
    requires CanRun(s, es) && Enabled(Run(s, es), e)
    ensures CanRun(s, es + [e]) && Run(s, es + [e]) == Apply(Run(s, es), e)
    decreases |es|
  {
    if es == [] {
      assert (es + [e])[1..] == [];
    } else {
      RunSnoc(Apply(s, es[0]), es[1..], e);
      assert (es + [e])[1..] == es[1..] + [e];
    }
  }

  lemma ReachableStep(size: nat, s: State, e: Event)
    requires Reachable(size, s) && Enabled(s, e)
    ensures Reachable(size, Apply(s, e))
  {
    var es :| CanRun(Initial(size), es) && Run(Initial(size), es) == s;
    RunSnoc(Initial(size), es, e);
  }

  /** Until shutdown no place is lost, whether creations succeed or fail; the channel always has room
      for what is about to be sent to it; and no connection is in two hands. */
  lemma PlacesConserved(size: nat, s: State)
    requires Reachable(size, s)
    ensures |s.clients| + |s.slots| <= size
    ensures !s.shutdown ==> |s.clients| + |s.slots| == size
    ensures forall bid <- s.slots :: s.slots[bid].Returning? || s.slots[bid].Pushing? ==> Enabled(s, Push(bid))
    ensures forall a <- s.slots, b <- s.slots :: a != b ==> s.slots[a].Conns() !! s.slots[b].Conns()
    ensures forall bid <- s.slots, c <- s.slots[bid].Conns() :: c !in s.clients && c !in s.cleaned
  {
    ReachableInv(size, s);
    forall bid <- s.slots ensures |s.clients| < size {
      CardinalityAfterRemoval(s.slots, bid);
    }
    assert forall bid <- s.slots, c <- s.slots[bid].Conns() :: Holds(s.slots, bid, c);
  }

  // What the methods of the pool object need to know of a reachable state.

  lemma FreeIsNotBorrowed(size: nat, s: State, c: ConnId)
    requires Reachable(size, s) && c in s.clients && c in s.slots
    ensures s.slots[c] != Using(c)
  {
    PlacesConserved(size, s);
    assert c in Using(c).Conns();
  }

  lemma BorrowedWasMade(size: nat, s: State, bid: nat)
    requires Reachable(size, s) && bid in s.slots && s.slots[bid].Using?
    ensures s.slots[bid].conn < s.created
  {
    ReachableInv(size, s);
    assert Holds(s.slots, bid, s.slots[bid].conn);
  }

  lemma BorrowedIsNotDiscarded(size: nat, s: State, bid: nat)
    requires Reachable(size, s) && bid in s.slots && s.slots[bid].Using?
    ensures s.slots[bid].conn !in s.discarding
  {
    ReachableInv(size, s);
    assert Holds(s.slots, bid, s.slots[bid].conn);
  }

  /** ReturnBroken before shutdown, when a replacement can be made: its four steps in a row. */
  lemma ReplaceRun(size: nat, s: State, bid: nat)
    requires Reachable(size, s) && !s.shutdown && bid in s.slots && s.slots[bid].Using?
    ensures |s.clients| < size
    ensures Reachable(size, s.(clients := s.clients + [s.created], slots := s.slots - {bid},
                               created := s.created + 1, cleaned := s.cleaned + [s.slots[bid].conn]))
  {
    hide Reachable;
    var conn := s.slots[bid].conn;
    BorrowedIsNotDiscarded(size, s, bid);
    var s1 := Apply(s, BeginReplace(bid));
    ReachableStep(size, s, BeginReplace(bid));
    var s2 := Apply(s1, CreateOk(bid));
    ReachableStep(size, s1, CreateOk(bid));
    PlacesConserved(size, s2);
    var s3 := Apply(s2, Push(bid));
    ReachableStep(size, s2, Push(bid));
    assert s3.slots == s.slots - {bid} && s3.discarding == s.discarding + {conn};
    ReachableStep(size, s3, Discard(conn));
    assert Apply(s3, Discard(conn)).discarding == s.discarding;
  }

  /** The pool's own clean-ups of a connection. */
  function Cleanups(s: State, c: ConnId): nat {
    multiset(s.cleaned)[c]
  }

  lemma {:induction false} CountOfNoRepeats(cs: seq<ConnId>, c: ConnId)
    requires NoRepeats(cs)
    ensures multiset(cs)[c] == if c in cs then 1 else 0
  {
    if cs != [] {
      CountOfNoRepeats(cs[1..], c);
      assert cs == [cs[0]] + cs[1..];
    }
  }

  /** No connection is ever cleaned up twice, and once nobody has anything to do any more, every
      connection ever made has been cleaned up exactly once if and only if the channel is empty. */
  lemma CleanedOnceIffChannelEmpty(size: nat, s: State)
    requires Reachable(size, s)
    ensures forall c: ConnId :: Cleanups(s, c) <= 1
    ensures s.slots == map[] && s.discarding == {} ==>
      ((forall c: ConnId :: c < s.created ==> Cleanups(s, c) == 1) <==> s.clients == [])
  {
    ReachableInv(size, s);
    forall c: ConnId ensures Cleanups(s, c) == if c in s.cleaned then 1 else 0 {
      CountOfNoRepeats(s.cleaned, c);
    }
    if s.clients != [] {
      assert s.clients[0] !in s.cleaned;
    }
  }

  ghost predicate NonePastTest(s: State) {
    forall bid <- s.slots :: !s.slots[bid].PastTest()
  }

  lemma NonePastTestStep(s: State, e: Event)
    requires s.shutdown && s.clients == [] && NonePastTest(s) && Enabled(s, e)
    ensures var s' := Apply(s, e); s'.shutdown && s'.clients == [] && NonePastTest(s')
  {
  }

  lemma {:induction false} ChannelStaysEmpty(s: State, es: seq<Event>)
    requires s.shutdown && s.clients == [] && NonePastTest(s) && CanRun(s, es)
    ensures Run(s, es).clients == []
    decreases |es|
  {
    if es != [] {
      NonePastTestStep(s, es[0]);
      ChannelStaysEmpty(Apply(s, es[0]), es[1..]);
    }
  }

  lemma {:induction false} RunConcat(s: State, a: seq<Event>, b: seq<Event>)
    requires CanRun(s, a) && CanRun(Run(s, a), b)
    ensures CanRun(s, a + b) && Run(s, a + b) == Run(Run(s, a), b)
    decreases |a|
  {
    if a == [] {
      assert a + b == b;
    } else {
      assert (a + b)[1..] == a[1..] + b;
      RunConcat(Apply(s, a[0]), a[1..], b);
    }
  }

  lemma RunOne(s: State, e: Event)
    requires Enabled(s, e)
    ensures CanRun(s, [e]) && Run(s, [e]) == Apply(s, e)
  {
    assert [e][1..] == [];
    assert CanRun(Apply(s, e), []) && Run(Apply(s, e), []) == Apply(s, e);
  }

  lemma RunMore(s: State, e: Event, es: seq<Event>)
    requires Enabled(s, e) && CanRun(Apply(s, e), es)
    ensures CanRun(s, [e] + es) && Run(s, [e] + es) == Run(Apply(s, e), es)
  {
    RunOne(s, e);
    RunConcat(s, [e], es);
  }

  /** Closed, its channel drained, but a connection in it. */
  ghost predicate Refilled(s: State) {
    Inv(s) && s.shutdown && !s.closing && s.clients != []
  }

  /** A borrower past the test puts a connection into the drained channel. */
  lemma PastTestPushes(s: State, bid: nat) returns (es: seq<Event>)
    requires Inv(s) && s.shutdown && !s.closing && s.clients == [] && bid in s.slots && s.slots[bid].PastTest()
    ensures CanRun(s, es) && Refilled(Run(s, es))
  {
    hide Placed;
    CardinalityAfterRemoval(s.slots, bid);
    var s1 := s;
    es := [];
    assert CanRun(s, []) && Run(s, []) == s;
    if s.slots[bid].Replacing? {
      InvStep(s, CreateOk(bid));
      RunOne(s, CreateOk(bid));
      es, s1 := [CreateOk(bid)], Apply(s, CreateOk(bid));
    }
    InvStep(s1, Push(bid));
    RunOne(s1, Push(bid));
    RunConcat(s, es, [Push(bid)]);
    es := es + [Push(bid)];
  }

  /** Every borrower can finish, one step each. */
  lemma BorrowerFinishes(s: State, bid: nat) returns (e: Event)
    requires Refilled(s) && bid in s.slots
    ensures Enabled(s, e) && Refilled(Apply(s, e)) && |Apply(s, e).slots| < |s.slots|
  {
    hide Placed;
    CardinalityAfterRemoval(s.slots, bid);
    match s.slots[bid] {
      case Using(_) => e := BeginReturn(bid);
      case Replacing(_) => e := CreateFail(bid);
      case Returning(_) => e := Push(bid);
      case Pushing(_, _) => e := Push(bid);
    }
    InvStep(s, e);
  }

  lemma BorrowersFinish(s: State) returns (es: seq<Event>)
    requires Refilled(s)
    ensures CanRun(s, es) && Refilled(Run(s, es)) && Run(s, es).slots == map[]
    decreases |s.slots|
  {
    hide Refilled;
    if s.slots == map[] {
      es := [];
    } else {
      var bid :| bid in s.slots;
      var e := BorrowerFinishes(s, bid);
      var rest := BorrowersFinish(Apply(s, e));
      RunMore(s, e, rest);
      es := [e] + rest;
    }
  }

  lemma DiscardsFinish(s: State) returns (es: seq<Event>)
    requires Refilled(s) && s.slots == map[]
    ensures CanRun(s, es) && Refilled(Run(s, es)) && Run(s, es).slots == map[] && Run(s, es).discarding == {}
    decreases |s.discarding|
  {
    hide Placed;
    if s.discarding == {} {
      es := [];
    } else {
      var c :| c in s.discarding;
      InvStep(s, Discard(c));
      var rest := DiscardsFinish(Apply(s, Discard(c)));
      RunMore(s, Discard(c), rest);
      es := [Discard(c)] + rest;
    }
  }

  /** On the run everybody finishes, and some connection has not been cleaned up. */
  ghost predicate Leaks(s: State, es: seq<Event>) {
    CanRun(s, es) && Leaked(Run(s, es))
  }

  ghost predicate Leaked(s: State) {
    s.slots == map[] && s.discarding == {} && !s.closing && exists c: ConnId :: c < s.created && c !in s.cleaned
  }

  lemma LeakedIffInChannel(s: State)
    requires Inv(s) && s.slots == map[] && s.discarding == {}
    ensures s.clients != [] <==> exists c: ConnId :: c < s.created && c !in s.cleaned
  {
    if s.clients != [] {
      assert s.clients[0] in s.clients;
    }
  }

  lemma PastTestLeaks(s: State, bid: nat) returns (es: seq<Event>)
    requires Inv(s) && s.shutdown && s.clients == [] && bid in s.slots && s.slots[bid].PastTest()
    ensures Leaks(s, es)
  {
    hide Placed;
    var s0 := s;
    es := [];
    assert CanRun(s, []) && Run(s, []) == s;
    if s.closing {
      InvStep(s, DrainEnd);
      RunOne(s, DrainEnd);
      es, s0 := [DrainEnd], Apply(s, DrainEnd);
    }
    var es1 := PastTestPushes(s0, bid);
    RunConcat(s, es, es1);
    var es2 := BorrowersFinish(Run(s0, es1));
    RunConcat(s, es + es1, es2);
    var es3 := DiscardsFinish(Run(s, es + es1 + es2));
    RunConcat(s, es + es1 + es2, es3);
    es := es + es1 + es2 + es3;
    LeakedIffInChannel(Run(s, es));
  }

  /** Once Close has emptied the channel, a connection can still be left in it for good, never cleaned up,
      if and only if some borrower had passed the shutdown test of Return or ReturnBroken before the flag
      was set. */
  lemma LeakIffPastTest(s: State)
    requires Inv(s) && s.shutdown && s.clients == []
    ensures (exists es :: Leaks(s, es)) <==> !NonePastTest(s)
  {
    hide Inv;
    if NonePastTest(s) {
      forall es | CanRun(s, es) ensures !Leaked(Run(s, es)) {
        ChannelStaysEmpty(s, es);
        RunKeepsInv(s, es);
        if Leaked(Run(s, es)) {
          LeakedIffInChannel(Run(s, es));
        }
      }
    } else {
      var bid :| bid in s.slots && s.slots[bid].PastTest();
      var es := PastTestLeaks(s, bid);
    }
  }

  lemma Then(es: seq<Event>, s: State, e: Event, t: State)
    requires CanRun(Initial(1), es) && Run(Initial(1), es) == s && Enabled(s, e) && Apply(s, e) == t
    ensures CanRun(Initial(1), es + [e]) && Run(Initial(1), es + [e]) == t
  {
    RunSnoc(Initial(1), es, e);
  }

  /** It happens: a run of a fresh pool of one connection that ends closed and idle with the connection
      never cleaned up. */
  lemma CloseCanLeak() returns (es: seq<Event>)
    ensures Leaks(Initial(1), es) && Run(Initial(1), es).shutdown
  {
    hide CanRun;
    hide Run;
    var s0 := Initial(1);
    NoRun(s0);
    var s1 := s0.(asking := 1);
    Then([], s0, Ask, s1);
    es := [] + [Ask];
    assert s0.clients == [0];
    var s2 := s0.(clients := [], slots := map[0 := Using(0)]);
    Then(es, s1, Receive(0), s2);
    es := es + [Receive(0)];
    var s3 := s2.(slots := map[0 := Returning(0)]);
    Then(es, s2, BeginReturn(0), s3);
    es := es + [BeginReturn(0)];
    Then(es, s3, Shutdown, s3.(shutdown := true, closing := true));
    es := es + [Shutdown];
    Then(es, s3.(shutdown := true, closing := true), DrainEnd, s3.(shutdown := true));
    es := es + [DrainEnd];
    var s6 := s3.(shutdown := true, clients := [0], slots := map[]);
    Then(es, s3.(shutdown := true), Push(0), s6);
    es := es + [Push(0)];
    assert 0 < s6.created && 0 !in s6.cleaned;
  }

  lemma NoRun(s: State)
    ensures CanRun(s, []) && Run(s, []) == s
  {
  }

  /** If nobody was past the test when Close emptied the channel (state s), then after all returns
      every connection ever made has been cleaned up exactly once. */
  lemma AllCleanedAfterClose(size: nat, s: State, es: seq<Event>)
    requires Reachable(size, s) && s.shutdown && s.clients == [] && NonePastTest(s) && CanRun(s, es)
    requires Run(s, es).slots == map[] && Run(s, es).discarding == {}
    ensures forall c: ConnId :: c < Run(s, es).created ==> Cleanups(Run(s, es), c) == 1
  {
    ChannelStaysEmpty(s, es);
    ReachableRun(size, s, es);
    CleanedOnceIffChannelEmpty(size, Run(s, es));
  }

  lemma {:induction false} ReachableRun(size: nat, s: State, es: seq<Event>)
    requires Reachable(size, s) && CanRun(s, es)
    ensures Reachable(size, Run(s, es))
    decreases |es|
  {
    if es != [] {
      ReachableStep(size, s, es[0]);
      ReachableRun(size, Apply(s, es[0]), es[1..]);
    }
  }
}
