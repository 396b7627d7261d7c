/**
 The connection pool of client/pool.go as a state machine, cut at the points where borrowers and
 Close can overlap: the test of the shutdown flag, the creation of a replacement, the send to the
 clients channel and the clean-up of a connection are steps of their own.
 */
module PoolProtocol {

  /** Connections are numbered in the order the creator made them. */
  type ConnId = nat

  /** What a borrower that occupies one of the pool's places is doing: using the connection; past the
      shutdown test in Return; past it in ReturnBroken; about to put a fresh connection in. */
  datatype Slot =
    | Using(conn: ConnId)
    | Returning(conn: ConnId)
    | Replacing(conn: ConnId)
    | Pushing(made: ConnId, broken: ConnId)
  {
    function Conns(): set<ConnId> {
      if Pushing? then {made, broken} else {conn}
    }

    /** Past the shutdown test, with a send to the clients channel still to come. */
    predicate PastTest() {
      !Using?
    }
  }

  datatype State = State(
    size: nat,
    clients: seq<ConnId>,
    shutdown: bool,
    closing: bool,
    asking: nat,
    slots: map<nat, Slot>,
    discarding: set<ConnId>,
    created: nat,
    cleaned: seq<ConnId>)

  datatype Event =
    | Ask
    | Timeout
    | Receive(bid: nat)
    | BeginReturn(bid: nat)
    | BeginReplace(bid: nat)
    | CreateOk(bid: nat)
    | CreateFail(bid: nat)
    | Push(bid: nat)
    | Discard(conn: ConnId)
    | Shutdown
    | DrainOne
    | DrainEnd

  function Upto(n: nat): (r: seq<ConnId>)
    ensures |r| == n && forall i :: 0 <= i < n ==> r[i] == i
  {
    seq(n, (i: nat) => i)
  }

  /** What NewPool hands out when every creation succeeds. */
  function Initial(size: nat): State {
    State(size, Upto(size), false, false, 0, map[], {}, size, [])
  }

  predicate Enabled(s: State, e: Event) {
    match e
    case Ask => !s.shutdown
    case Timeout => s.asking > 0
    case Receive(bid) => s.asking > 0 && s.clients != [] && bid !in s.slots
    case BeginReturn(bid) => bid in s.slots && s.slots[bid].Using?
    case BeginReplace(bid) => bid in s.slots && s.slots[bid].Using?
    case CreateOk(bid) => bid in s.slots && s.slots[bid].Replacing?
    case CreateFail(bid) => bid in s.slots && s.slots[bid].Replacing?
    case Push(bid) => bid in s.slots && (s.slots[bid].Returning? || s.slots[bid].Pushing?) && |s.clients| < s.size
    case Discard(conn) => conn in s.discarding
    case Shutdown => true
    case DrainOne => s.closing && s.clients != []
    case DrainEnd => s.closing && s.clients == []
  }

  /** The shutdown test at the head of Return and ReturnBroken: clean up, or go on as next. */
  function Test(s: State, bid: nat, next: Slot): State
    requires bid in s.slots && !s.slots[bid].Pushing?
  {
    if s.shutdown then
      s.(slots := s.slots - {bid}, cleaned := s.cleaned + [s.slots[bid].conn])
    else
      s.(slots := s.slots[bid := next])
  }

  function Apply(s: State, e: Event): State
    requires Enabled(s, e)
  {
    match e
    case Ask => s.(asking := s.asking + 1)
    case Timeout => s.(asking := s.asking - 1)
    case Receive(bid) =>
      s.(asking := s.asking - 1, clients := s.clients[1..], slots := s.slots[bid := Using(s.clients[0])])
    case BeginReturn(bid) => Test(s, bid, Returning(s.slots[bid].conn))
    case BeginReplace(bid) => Test(s, bid, Replacing(s.slots[bid].conn))
    case CreateOk(bid) =>
      s.(slots := s.slots[bid := Pushing(s.created, s.slots[bid].conn)], created := s.created + 1)
    case CreateFail(bid) => Test(s, bid, Returning(s.slots[bid].conn))
    case Push(bid) =>
      var slot := s.slots[bid];
      if slot.Returning? then
        s.(clients := s.clients + [slot.conn], slots := s.slots - {bid})
      else
        s.(clients := s.clients + [slot.made], slots := s.slots - {bid}, discarding := s.discarding + {slot.broken})
    case Discard(conn) => s.(discarding := s.discarding - {conn}, cleaned := s.cleaned + [conn])
    case Shutdown => s.(shutdown := true, closing := true)
    case DrainOne => s.(clients := s.clients[1..], cleaned := s.cleaned + [s.clients[0]])
    case DrainEnd => s.(closing := false)
  }

  ghost predicate CanRun(s: State, es: seq<Event>)
    decreases |es|
  {
    es == [] || (Enabled(s, es[0]) && CanRun(Apply(s, es[0]), es[1..]))
  }

  ghost function Run(s: State, es: seq<Event>): State
    requires CanRun(s, es)
    decreases |es|
  {
    if es == [] then s else Run(Apply(s, es[0]), es[1..])
  }

  // ---- invariant ----

  ghost predicate NoRepeats(cs: seq<ConnId>) {
    forall i, j :: 0 <= i < j < |cs| ==> cs[i] != cs[j]
  }

  ghost predicate Holds(slots: map<nat, Slot>, bid: nat, c: ConnId) {
    bid in slots && c in slots[bid].Conns()
  }

  ghost predicate Held(slots: map<nat, Slot>, c: ConnId) {
    exists bid: nat :: Holds(slots, bid, c)
  }

  /** Places are neither made nor, before shutdown, lost. */
  ghost predicate SizeInv(s: State) {
    && |s.clients| + |s.slots| <= s.size
    && (!s.shutdown ==> |s.clients| + |s.slots| == s.size)
    && (s.closing ==> s.shutdown)
  }

  /** Every connection ever made is in exactly one place: in the channel, with one borrower, waiting
      to be cleaned up after a replacement, or cleaned up. */
  ghost predicate Placed(clients: seq<ConnId>, slots: map<nat, Slot>, discarding: set<ConnId>,
                         cleaned: seq<ConnId>, created: nat)
  {
    && NoRepeats(clients) && NoRepeats(cleaned)
    && (forall c <- clients :: c < created && c !in cleaned && c !in discarding)
    && (forall c <- cleaned :: c < created && c !in discarding)
    && (forall c <- discarding :: c < created)
    && (forall bid: nat, c: nat :: Holds(slots, bid, c) ==>
          c < created && c !in clients && c !in cleaned && c !in discarding)
    && (forall a: nat, b: nat, c: nat :: Holds(slots, a, c) && Holds(slots, b, c) ==> a == b)
    && (forall bid <- slots :: slots[bid].Pushing? ==> slots[bid].made != slots[bid].broken)
    && (forall c: nat :: c < created ==> c in clients || c in cleaned || c in discarding || Held(slots, c))
  }

  ghost predicate Inv(s: State) {
    SizeInv(s) && Placed(s.clients, s.slots, s.discarding, s.cleaned, s.created)
  }

  lemma PlaceReceive(cl: seq<ConnId>, sl: map<nat, Slot>, di: set<ConnId>, cn: seq<ConnId>, n: nat, bid: nat)
    requires Placed(cl, sl, di, cn, n) && cl != [] && bid !in sl
    ensures Placed(cl[1..], sl[bid := Using(cl[0])], di, cn, n)
  {
    var sl' := sl[bid := Using(cl[0])];
    assert cl[0] !in cl[1..] && forall c: nat :: c in cl <==> c == cl[0] || c in cl[1..];
    assert Holds(sl', bid, cl[0]);
    assert forall b: nat, c: nat {:trigger Holds(sl', b, c)} {:trigger Holds(sl, b, c)} ::
      Holds(sl', b, c) <==> Holds(sl, b, c) || (b == bid && c == cl[0]);
  }

  lemma PlaceRelabel(cl: seq<ConnId>, sl: map<nat, Slot>, di: set<ConnId>, cn: seq<ConnId>, n: nat,
                     bid: nat, slot: Slot)
    requires Placed(cl, sl, di, cn, n) && bid in sl && !sl[bid].Pushing? && !slot.Pushing?
    requires slot.conn == sl[bid].conn
    ensures Placed(cl, sl[bid := slot], di, cn, n)
  {
    var sl' := sl[bid := slot];
    assert forall b: nat, c: nat {:trigger Holds(sl', b, c)} {:trigger Holds(sl, b, c)} ::
      Holds(sl', b, c) <==> Holds(sl, b, c);
  }

  lemma PlaceCreate(cl: seq<ConnId>, sl: map<nat, Slot>, di: set<ConnId>, cn: seq<ConnId>, n: nat, bid: nat)
    requires Placed(cl, sl, di, cn, n) && bid in sl && sl[bid].Replacing?
    ensures Placed(cl, sl[bid := Pushing(n, sl[bid].conn)], di, cn, n + 1)
  {
    var sl' := sl[bid := Pushing(n, sl[bid].conn)];
    assert Holds(sl, bid, sl[bid].conn) && Holds(sl', bid, n);
    assert forall b: nat, c: nat {:trigger Holds(sl', b, c)} {:trigger Holds(sl, b, c)} ::
      Holds(sl', b, c) <==> Holds(sl, b, c) || (b == bid && c == n);
  }

  /** A borrower leaves its place, and its connections go where the arguments say. */
  lemma PlaceLeave(cl: seq<ConnId>, sl: map<nat, Slot>, di: set<ConnId>, cn: seq<ConnId>, n: nat, bid: nat,
                   cl': seq<ConnId>, di': set<ConnId>, cn': seq<ConnId>)
    requires Placed(cl, sl, di, cn, n) && bid in sl
    requires
      || (!sl[bid].Pushing? && cl' == cl + [sl[bid].conn] && di' == di && cn' == cn)
      || (!sl[bid].Pushing? && cl' == cl && di' == di && cn' == cn + [sl[bid].conn])
      || (sl[bid].Pushing? && cl' == cl + [sl[bid].made] && di' == di + {sl[bid].broken} && cn' == cn)
    ensures Placed(cl', sl - {bid}, di', cn', n)
  {
    var sl' := sl - {bid};
    if sl[bid].Pushing? {
      assert Holds(sl, bid, sl[bid].made) && Holds(sl, bid, sl[bid].broken);
    } else {
      assert Holds(sl, bid, sl[bid].conn);
    }
    assert forall b: nat, c: nat {:trigger Holds(sl', b, c)} {:trigger Holds(sl, b, c)} ::
      Holds(sl', b, c) <==> Holds(sl, b, c) && b != bid;
  }

  /** A connection that no borrower holds is cleaned up. */
  lemma PlaceClean(cl: seq<ConnId>, sl: map<nat, Slot>, di: set<ConnId>, cn: seq<ConnId>, n: nat, c: ConnId)
    requires Placed(cl, sl, di, cn, n)
    ensures c in di ==> Placed(cl, sl, di - {c}, cn + [c], n)
    ensures cl != [] && c == cl[0] ==> Placed(cl[1..], sl, di, cn + [c], n)
  {
  }

  lemma CardinalityAfterRemoval<K, V>(m: map<K, V>, k: K)
    requires k in m
    ensures |m - {k}| == |m| - 1
  {
    assert (m - {k}).Keys == m.Keys - {k};
  }

  lemma SizeStep(s: State, e: Event)
    requires SizeInv(s) && Enabled(s, e)
    ensures SizeInv(Apply(s, e))
  {
    match e
    case BeginReturn(bid) => CardinalityAfterRemoval(s.slots, bid);
    case BeginReplace(bid) => CardinalityAfterRemoval(s.slots, bid);
    case CreateFail(bid) => CardinalityAfterRemoval(s.slots, bid);
    case Push(bid) => CardinalityAfterRemoval(s.slots, bid);
    case _ =>
  }

  lemma PlaceTest(s: State, bid: nat, next: Slot)
    requires Placed(s.clients, s.slots, s.discarding, s.cleaned, s.created)
    requires bid in s.slots && !s.slots[bid].Pushing? && !next.Pushing? && next.conn == s.slots[bid].conn
    ensures var s' := Test(s, bid, next); Placed(s'.clients, s'.slots, s'.discarding, s'.cleaned, s'.created)
  {
    if s.shutdown {
      PlaceLeave(s.clients, s.slots, s.discarding, s.cleaned, s.created, bid,
                 s.clients, s.discarding, s.cleaned + [s.slots[bid].conn]);
    } else {
      PlaceRelabel(s.clients, s.slots, s.discarding, s.cleaned, s.created, bid, next);
    }
  }

  lemma PlaceStep(s: State, e: Event)
    requires Placed(s.clients, s.slots, s.discarding, s.cleaned, s.created) && Enabled(s, e)
    ensures var s' := Apply(s, e); Placed(s'.clients, s'.slots, s'.discarding, s'.cleaned, s'.created)
  {
    hide Placed;
    match e
    case Receive(bid) => PlaceReceive(s.clients, s.slots, s.discarding, s.cleaned, s.created, bid);
    case BeginReturn(bid) => PlaceTest(s, bid, Returning(s.slots[bid].conn));
    case BeginReplace(bid) => PlaceTest(s, bid, Replacing(s.slots[bid].conn));
    case CreateOk(bid) => PlaceCreate(s.clients, s.slots, s.discarding, s.cleaned, s.created, bid);
    case CreateFail(bid) => PlaceTest(s, bid, Returning(s.slots[bid].conn));
    case Push(bid) =>
      var s' := Apply(s, e);
      PlaceLeave(s.clients, s.slots, s.discarding, s.cleaned, s.created, bid, s'.clients, s'.discarding, s'.cleaned);
    case Discard(conn) => PlaceClean(s.clients, s.slots, s.discarding, s.cleaned, s.created, conn);
    case DrainOne => PlaceClean(s.clients, s.slots, s.discarding, s.cleaned, s.created, s.clients[0]);
    case _ =>
  }

  lemma InvStep(s: State, e: Event)
    requires Inv(s) && Enabled(s, e)
    ensures Inv(Apply(s, e)) && Apply(s, e).size == s.size
  {
    SizeStep(s, e);
    PlaceStep(s, e);
  }
}
