/** Distinct ids from what callers supply: requests whose ids differ when they enter sendRequest keep
    apart ids through every run, and ids drawn from one id source differ. */
module DistinctRequests {
  import opened ConnectionProtocol
  import opened ConnectionTheorems
  import opened Integers
  import opened Decimal
  import opened TxnIds

  /** The ids callers come with, in the order in which they take their tokens. */
  ghost function TakenIds(es: seq<Event>): seq<string> {
    if es == [] then []
    else (if es[0].TakeToken? then [es[0].txnId] else []) + TakenIds(es[1..])
  }

  ghost predicate Distinct(ids: seq<string>) {
    forall i, j :: 0 <= i < j < |ids| ==> ids[i] != ids[j]
  }

  /** The ids of senders and of accepted requests. */
  ghost predicate IsIdOf(senders: map<nat, Sender>, accepted: set<Request>, id: string) {
    (exists sid <- senders :: senders[sid].txnId == id) || exists q <- accepted :: q.txnId == id
  }

  ghost predicate HasId(s: State, id: string) {
    IsIdOf(s.senders, s.log.Keys, id)
  }

  /** No two of them are the same. */
  ghost predicate AllApart(senders: map<nat, Sender>, accepted: set<Request>) {
    && (forall a <- senders, b <- senders :: a != b ==> senders[a].txnId != senders[b].txnId)
    && (forall a <- senders, q <- accepted :: senders[a].txnId != q.txnId)
    && forall p <- accepted, q <- accepted :: p.txnId == q.txnId ==> p == q
  }

  ghost predicate IdsApart(s: State) {
    AllApart(s.senders, s.log.Keys)
  }

  lemma ApartTaking(senders: map<nat, Sender>, accepted: set<Request>, sid: nat, txnId: string)
    requires AllApart(senders, accepted) && sid !in senders && !IsIdOf(senders, accepted, txnId)
    ensures AllApart(senders[sid := Reserved(txnId)], accepted)
    ensures forall id :: IsIdOf(senders[sid := Reserved(txnId)], accepted, id) ==>
                           IsIdOf(senders, accepted, id) || id == txnId
  {
  }

  lemma ApartClearing(senders: map<nat, Sender>, accepted: set<Request>, sid: nat)
    requires AllApart(senders, accepted) && sid in senders
    ensures AllApart(senders[sid := Cleared(senders[sid].txnId)], accepted)
    ensures forall id :: IsIdOf(senders[sid := Cleared(senders[sid].txnId)], accepted, id) ==>
                           IsIdOf(senders, accepted, id)
  {
  }

  lemma ApartLeaving(senders: map<nat, Sender>, accepted: set<Request>, sid: nat, q: Request)
    requires AllApart(senders, accepted) && sid in senders && q.txnId == senders[sid].txnId
    ensures AllApart(senders - {sid}, accepted) && AllApart(senders - {sid}, accepted + {q})
    ensures forall id :: IsIdOf(senders - {sid}, accepted, id) ==> IsIdOf(senders, accepted, id)
    ensures forall id :: IsIdOf(senders - {sid}, accepted + {q}, id) ==> IsIdOf(senders, accepted, id)
  {
  }

  lemma DeliveredToAccepted(log: map<Request, seq<Delivery>>, q: Request, d: Delivery)
    requires q in log
    ensures Deliver(log, q, d).Keys == log.Keys
  {
  }

  lemma AcceptedAreInLog(s: State)
    requires PlaceInv(s)
    ensures (forall q <- s.outgoing :: q in s.log) && forall t <- s.requests :: s.requests[t] in s.log
  {
  }

  lemma LogKeysAfter(s: State, e: Event)
    requires PlaceInv(s) && Enabled(s, e)
    ensures e.Enqueue? ==> Apply(s, e).log.Keys == s.log.Keys + {Request(s.nextHandle, s.senders[e.sid].txnId)}
    ensures !e.Enqueue? ==> Apply(s, e).log.Keys == s.log.Keys
    ensures !e.TakeToken? && !e.CheckConnected? && !e.Enqueue? ==> Apply(s, e).senders == s.senders
  {
    hide PlaceInv;
    hide Deliver;
    AcceptedAreInLog(s);
    match e
    case Respond =>
      if s.incoming[0].txnId in s.requests {
        DeliveredToAccepted(s.log, s.requests[s.incoming[0].txnId], Result(s.incoming[0]));
      }
    case Drain => DeliveredToAccepted(s.log, s.outgoing[0], Error);
    case FailOne(key) => DeliveredToAccepted(s.log, s.requests[key], Error);
    case _ =>
  }

  /** A step brings at most one new id, that of a sender taking its token. */
  lemma IdsApartStep(s: State, e: Event)
    requires PlaceInv(s) && IdsApart(s) && Enabled(s, e) && (e.TakeToken? ==> !HasId(s, e.txnId))
    ensures IdsApart(Apply(s, e))
    ensures forall id :: HasId(Apply(s, e), id) ==> HasId(s, id) || (e.TakeToken? && id == e.txnId)
  {
    hide AllApart;
    hide IsIdOf;
    hide PlaceInv;
    hide Deliver;
    LogKeysAfter(s, e);
    match e
    case TakeToken(sid, txnId) => ApartTaking(s.senders, s.log.Keys, sid, txnId);
    case CheckConnected(sid) =>
      ApartClearing(s.senders, s.log.Keys, sid);
      ApartLeaving(s.senders, s.log.Keys, sid, Request(0, s.senders[sid].txnId));
    case Enqueue(sid) => ApartLeaving(s.senders, s.log.Keys, sid, Request(s.nextHandle, s.senders[sid].txnId));
    case _ =>
  }

  lemma {:induction false} RunKeepsIdsApart(s: State, es: seq<Event>)
    requires Inv(s) && CanRun(s, es) && IdsApart(s) && Distinct(TakenIds(es))
    requires forall id <- TakenIds(es) :: !HasId(s, id)
    ensures IdsApart(Run(s, es))
    decreases |es|
  {
    hide IdsApart;
    hide HasId;
    hide TokenInv;
    hide PhaseInv;
    hide DisplacedInv;
    hide PlaceInv;
    if es != [] {
      var ids, rest := TakenIds(es), TakenIds(es[1..]);
      if es[0].TakeToken? {
        assert ids[0] in ids && ids == [ids[0]] + rest;
        assert forall i :: 0 <= i < |rest| ==> rest[i] == ids[i + 1];
      } else {
        assert ids == rest;
      }
      IdsApartStep(s, es[0]);
      InvStep(s, es[0]);
      RunKeepsIdsApart(Apply(s, es[0]), es[1..]);
    }
  }

  /** Callers with distinct ids make runs with distinct ids. */
  lemma DistinctCallersDistinctIds(maxInFlight: nat, es: seq<Event>)
    requires CanRun(Initial(maxInFlight), es) && Distinct(TakenIds(es))
    ensures DistinctIds(Run(Initial(maxInFlight), es))
  {
    RunKeepsIdsApart(Initial(maxInFlight), es);
  }

  /** Each caller's id is one the source issued, no two of them the same call. */
  ghost predicate Drawn(source: TxnIdSource, ids: seq<string>, calls: seq<nat>)
    reads source
  {
    && |calls| == |ids|
    && (forall i :: 0 <= i < |ids| ==> calls[i] < |source.issued| && ids[i] == source.issued[calls[i]])
    && forall i, j :: 0 <= i < j < |calls| ==> calls[i] != calls[j]
  }

  lemma IssuedDiffer(source: TxnIdSource, i: nat, j: nat)
    requires source.Valid() && |source.issued| <= TWO_TO_THE_64 && i < j < |source.issued|
    ensures source.issued[i] != source.issued[j]
  {
    NewIdIsNew(source.start, i, j);
  }

  lemma DrawnAreDistinct(source: TxnIdSource, ids: seq<string>, calls: seq<nat>)
    requires source.Valid() && |source.issued| <= TWO_TO_THE_64 && Drawn(source, ids, calls)
    ensures Distinct(ids)
  {
    forall i, j | 0 <= i < j < |ids| ensures ids[i] != ids[j] {
      if calls[i] < calls[j] {
        IssuedDiffer(source, calls[i], calls[j]);
      } else {
        IssuedDiffer(source, calls[j], calls[i]);
      }
    }
  }

  /** Exactly-once delivery with ids from one source: no hypothesis about ids beyond their origin. The run
      a ends the first cleanup loop with nobody past the connected test, the run b ends cleanup. */
  lemma ExactlyOnceForIssuedIds(maxInFlight: nat, a: seq<Event>, b: seq<Event>, source: TxnIdSource, calls: seq<nat>)
    requires CanRun(Initial(maxInFlight), a)
    requires var s := Run(Initial(maxInFlight), a);
      s.loop.Failing? && s.outgoing == [] && NoneCleared(s) && CanRun(s, b) && Run(s, b).loop.Stopped?
    requires source.Valid() && |source.issued| <= TWO_TO_THE_64 && Drawn(source, TakenIds(a + b), calls)
    ensures var s' := Run(Run(Initial(maxInFlight), a), b);
      && s'.outgoing == [] && s'.requests == map[]
      && forall q <- s'.log :: Settled(q, s'.log[q])
  {
    hide Settled;
    hide NoneCleared;
    hide Run;
    hide CanRun;
    var s := Run(Initial(maxInFlight), a);
    RunConcat(Initial(maxInFlight), a, b);
    DrawnAreDistinct(source, TakenIds(a + b), calls);
    DistinctCallersDistinctIds(maxInFlight, a + b);
    ExactlyOnce(maxInFlight, s, b);
  }
}
