/** The client that shares its pooled connections among callers (client/client.go). */
module Client {
  import opened Wrappers
  import opened Integers
  import opened Pool
  import opened TxnIds
  import opened Connection
  import PoolProtocol
  import ConnectionProtocol
  import ConnectionTheorems

  /** The limit Connect gives each connection. */
  function MaxInFlightPer(maxInFlight: int, poolSize: int): int
    requires poolSize > 0
  {
    var per := TruncDiv(maxInFlight, poolSize);
    if per < 2 then 2 else per
  }

  function InFlight(conns: seq<ConnectionProtocol.State>): nat {
    if conns == [] then 0
    else |conns[0].outgoing| + |conns[0].requests| + InFlight(conns[1..])
  }

  lemma {:induction false} InFlightOfAll(per: nat, conns: seq<ConnectionProtocol.State>)
    requires forall c <- conns :: ConnectionTheorems.Reachable(per, c)
    ensures InFlight(conns) <= |conns| * per
  {
    if conns != [] {
      ConnectionTheorems.InFlightBounded(per, conns[0]);
      InFlightOfAll(per, conns[1..]);
      assert |conns| * per == |conns[1..]| * per + per;
    }
  }

  /** The largest equal share that does not exceed the limit, or two if that is more. */
  lemma EqualShare(maxInFlight: int, poolSize: nat)
    requires poolSize > 0
    ensures var per := MaxInFlightPer(maxInFlight, poolSize);
            if maxInFlight >= 2 * poolSize then per * poolSize <= maxInFlight < (per + 1) * poolSize else per == 2
  {
    hide TruncDiv;
    var q := TruncDiv(maxInFlight, poolSize);
    TruncDivMeaning(maxInFlight, poolSize, q);
    if maxInFlight >= 2 * poolSize {
      if q < 2 {
        MulMonotone(q + 1, 2, poolSize);
      }
    } else if q > 2 {
      QuotientFits(maxInFlight, poolSize, q);
    }
  }

  /** Truncating, at least two for each: no more in all than asked for, or two for each. */
  lemma PerTimesSize(maxInFlight: int, poolSize: nat)
    requires poolSize > 0
    ensures poolSize * MaxInFlightPer(maxInFlight, poolSize) <=
            if maxInFlight < 2 * poolSize then 2 * poolSize else maxInFlight
  {
    hide TruncDiv;
    var q := TruncDiv(maxInFlight, poolSize);
    TruncDivMeaning(maxInFlight, poolSize, q);
    if q >= 2 {
      QuotientFits(maxInFlight, poolSize, q);
    }
  }

  lemma QuotientFits(x: int, d: nat, q: int)
    requires d > 0 && q >= 2
    requires x >= 0 ==> q * d <= x
    requires x <= 0 ==> (q - 1) * d < x
    ensures d * q <= x && 2 * d <= x
  {
    MulMonotone(1, q - 1, d);
    MulMonotone(2, q, d);
    assert d * q == q * d;
  }

  /** The connections of a full pool together never have more requests in flight than MaxInFlight,
      except that each may always have two. */
  lemma TotalInFlight(maxInFlight: int, poolSize: nat, conns: seq<ConnectionProtocol.State>)
    requires poolSize > 0 && |conns| <= poolSize
    requires forall c <- conns :: ConnectionTheorems.Reachable(MaxInFlightPer(maxInFlight, poolSize), c)
    ensures InFlight(conns) <= if maxInFlight < 2 * poolSize then 2 * poolSize else maxInFlight
  {
    hide TruncDiv;
    hide InFlight;
    var per := MaxInFlightPer(maxInFlight, poolSize);
    InFlightOfAll(per, conns);
    MulMonotone(|conns|, poolSize, per);
    PerTimesSize(maxInFlight, poolSize);
  }

  class ApiRequest {
    var txnId: string
  }

  /** What comes of an API call. StillSending is a call that has not returned: it waits for room in the
      connection's queue, with the connection still borrowed. */
  datatype CallResult = NoConnection | Sent(request: ConnectionProtocol.Request) | Failed | StillSending

  function ResultOf(outcome: Outcome): CallResult {
    match outcome
    case Accepted(q) => Sent(q)
    case Blocked => StillSending
    case _ => Failed
  }

  /** A connection after a failed send, and the clean-up that follows if it was replaced. */
  function AfterClose(s: ConnectionProtocol.State): ConnectionProtocol.State {
    s.(exits := s.exits + if s.connected then 1 else 0)
  }

  class JsonClient {
    const poolSize: nat
    const maxInFlight: int
    const retries: nat
    const ids: TxnIdSource
    var shutdown: bool
    var maxInFlightPer: int
    var pool: Pool?
    /** The connections made for the pool, by number. */
    var conns: map<PoolProtocol.ConnId, CheshireConn>

    ghost predicate Valid()
      reads this, pool, ids, conns.Values
    {
      && ids.Valid() && poolSize > 0
      && (pool != null ==> pool.Valid() && pool.size == poolSize && Made(conns, pool.created))
      && Limited(conns, MaxInFlightPer(maxInFlight, poolSize))
    }

    constructor (poolSize: nat, maxInFlight: int, retries: nat, ids: TxnIdSource)
      requires poolSize > 0 && ids.Valid()
      ensures Valid() && shutdown && pool == null && this.ids == ids
    {
      this.poolSize, this.maxInFlight, this.retries, this.ids := poolSize, maxInFlight, retries, ids;
      shutdown, maxInFlightPer, pool, conns := true, 0, null, map[];
    }

    /** creates[i] says whether the i-th connection can be made. */
    method Connect(creates: seq<bool>) returns (r: Result<(), string>)
      requires Valid() && |creates| == poolSize
      modifies this
      ensures Valid() && (r.Ok? <==> old(shutdown) && false !in creates) && !shutdown
      ensures old(shutdown) ==> maxInFlightPer == MaxInFlightPer(maxInFlight, poolSize)
      ensures r.Ok? ==> pool != null && fresh(pool) && pool.View() == PoolProtocol.Initial(poolSize)
      ensures r.Ok? ==> forall c <- conns :: fresh(conns[c])
      ensures r.Ok? ==> forall c <- conns ::
                conns[c].View() == ConnectionProtocol.Initial(MaxInFlightPer(maxInFlight, poolSize))
      ensures r.Err? ==> pool == old(pool) && conns == old(conns)
    {
      hide Pool.Valid;
      hide CheshireConn.Valid;
      hide TxnIdSource.Valid;
      hide Limited;
      hide Made;
      if !shutdown {
        return Err("Connect called on connected client");
      }
      shutdown := false;
      maxInFlightPer := TruncDiv(maxInFlight, poolSize);
      if maxInFlightPer < 2 {
        maxInFlightPer := 2;
      }
      var made := NewPool(poolSize, creates);
      if made.Err? {
        return Err("creation failed");
      }
      var all := MakeAll(poolSize, maxInFlightPer);
      pool, conns := made.value, all;
      return Ok(());
    }

    /** Panics on the pool that is not there when no Connect has succeeded. */
    method Close() returns (panicked: bool)
      requires Valid()
      modifies this, pool
      ensures Valid() && shutdown && pool == old(pool) && conns == old(conns)
      ensures panicked <==> !old(shutdown) && pool == null
      ensures pool != null && !old(shutdown) ==>
        pool.shutdown && pool.clients == [] && pool.cleaned == old(pool.cleaned) + old(pool.clients)
      ensures pool != null && old(shutdown) ==> pool.View() == old(pool.View())
    {
      hide Pool.Valid;
      if shutdown {
        return false;
      }
      shutdown := true;
      if pool == null {
        return true;
      }
      pool.Close();
      return false;
    }

    /** Tries the pool until it gives a connection, at most once for each place and retry; timeouts[i] says
        whether the i-th try runs into its timeout. */
    method Connection(timeouts: seq<bool>) returns (r: Option<PoolProtocol.ConnId>)
      requires Valid() && pool != null && |timeouts| == retries * poolSize
      modifies pool
      ensures r.Some? <==> !old(pool.shutdown) && old(pool.clients) != [] && false in timeouts
      ensures r.Some? ==>
        var tries := pool.asked - old(pool.asked);
        0 < tries <= |timeouts| && !timeouts[tries - 1] && false !in timeouts[..tries - 1]
      ensures Valid() && (r.None? ==> pool.View() == old(pool.View()))
      ensures r.None? ==> pool.asked == old(pool.asked) + retries * poolSize
      ensures r.Some? ==> old(pool.asked) < pool.asked <= old(pool.asked) + retries * poolSize
      ensures r.Some? ==> r.value in pool.slots && r.value !in old(pool.slots) && r.value < pool.created
      ensures r.Some? ==> pool.slots - {r.value} == old(pool.slots) && pool.shutdown == old(pool.shutdown)
      ensures r.Some? ==> [r.value] + pool.clients == old(pool.clients) && pool.created == old(pool.created)
      ensures r.Some? ==> !pool.shutdown && pool.cleaned == old(pool.cleaned)
    {
      hide Pool.Valid;
      hide TxnIdSource.Valid;
      hide CheshireConn.Valid;
      hide MaxInFlightPer;
      hide Limited;
      hide Made;
      for x := 0 to retries
        invariant Valid() && pool.View() == old(pool.View())
        invariant pool.asked == old(pool.asked) + x * poolSize && x * poolSize <= |timeouts|
        invariant old(pool.shutdown) || old(pool.clients) == [] || false !in timeouts[..x * poolSize]
      {
        TriesFit(x, retries, poolSize);
        for i := 0 to poolSize
          invariant Valid() && pool.View() == old(pool.View())
          invariant pool.asked == old(pool.asked) + x * poolSize + i
          invariant old(pool.shutdown) || old(pool.clients) == [] || false !in timeouts[..x * poolSize + i]
        {
          ghost var before, n := pool.slots, x * poolSize + i;
          assert timeouts[..n + 1] == timeouts[..n] + [timeouts[n]];
          r := pool.Borrow(timeouts[x * poolSize + i]);
          if r.Some? {
            assert pool.slots - {r.value} == before;
            return;
          }
        }
      }
      assert timeouts[..|timeouts|] == timeouts;
      return None;
    }

    /** The call itself, by a goroutine sid that is not yet in any sendRequest. The request goes to the
        connection borrowed (conn); after a send that succeeds the connection is given back, after one that
        fails a replacement, or itself if none can be made (createOk), and the one replaced is closed. */
    method DoApiCall(req: ApiRequest, sid: nat, createOk: bool, timeouts: seq<bool>)
        returns (r: CallResult, ghost conn: Option<PoolProtocol.ConnId>)
      requires Valid() && pool != null && |timeouts| == retries * poolSize
      requires forall c <- conns :: sid !in conns[c].senders
      modifies this`conns, pool, req, ids, conns.Values
      ensures Valid() && pool.shutdown == old(pool.shutdown)
      ensures r.NoConnection? <==> conn.None?
      ensures r.NoConnection? <==> old(pool.shutdown) || old(pool.clients) == [] || false !in timeouts
      ensures conn.None? ==> pool.View() == old(pool.View()) && req.txnId == old(req.txnId)
      ensures conn.Some? ==> old(pool.clients) != [] && conn.value == old(pool.clients)[0] && req.txnId != ""
      ensures conn.Some? ==> conn.value in old(conns) && conn.value in conns
      ensures conn.Some? ==> r == ResultOf(OutcomeOf(old(conns[conn.value].View()), req.txnId))
      ensures conn.Some? ==>
        var c := old(conns)[conn.value];
        && (r.Failed? <==> old(c.inflight) >= c.maxInFlight || !old(c.connected))
        && (r.StillSending? <==> old(c.inflight) < c.maxInFlight && old(c.connected)
                                 && |old(c.outgoingChan)| >= 25)
        && (r.Sent? ==> r.request == ConnectionProtocol.Request(old(c.nextHandle), req.txnId)
                        && c.outgoingChan == old(c.outgoingChan) + [r.request])
        && (r.Failed? ==> c.outgoingChan == old(c.outgoingChan)
                          && c.exitWaiters ==
                             old(c.exitWaiters) + if !old(c.connected) then 0 else if createOk then 2 else 1)
      ensures conn.Some? && !(r.Failed? && createOk) ==>
                conns[conn.value].View() == AfterSend(old(conns[conn.value].View()), sid, req.txnId)
      ensures r.Failed? && createOk ==>
                conns[conn.value].View() == AfterClose(AfterSend(old(conns[conn.value].View()), sid, req.txnId))
      ensures forall c <- old(conns) :: c in conns && conns[c] == old(conns)[c]
                                     && (conn != Some(c) ==> conns[c].View() == old(conns[c].View()))
      ensures r.Sent? || (r.Failed? && !createOk) ==>
                && pool.clients == old(pool.clients)[1..] + [conn.value] && pool.slots == old(pool.slots)
                && pool.created == old(pool.created) && pool.cleaned == old(pool.cleaned)
      ensures r.Failed? && createOk ==>
                && pool.clients == old(pool.clients)[1..] + [old(pool.created)] && pool.slots == old(pool.slots)
                && pool.created == old(pool.created) + 1 && pool.cleaned == old(pool.cleaned) + [conn.value]
      ensures r.StillSending? ==>
                && pool.clients == old(pool.clients)[1..] && pool.slots.Keys == old(pool.slots).Keys + {conn.value}
                && pool.created == old(pool.created) && pool.cleaned == old(pool.cleaned)
      ensures old(req.txnId) != "" ==> req.txnId == old(req.txnId)
      ensures req.txnId != old(req.txnId) ==> ids.issued == old(ids.issued) + [req.txnId]
    {
      hide Pool.Valid;
      hide TxnIdSource.Valid;
      hide CheshireConn.Valid;
      hide AfterSend;
      hide OutcomeOf;
      hide MaxInFlightPer;
      hide Limited;
      hide Made;
      hide CheshireConn.View;
      hide AfterClose;
      hide ResultOf;
      hide Valid;
      ConnectionsMade();
      var c := Connection(timeouts);
      conn := c;
      if c.None? {
        return NoConnection, None;
      }
      assert old(pool.clients)[1..] == pool.clients;
      Name(req);
      r := CallOn(c.value, sid, req.txnId, createOk);
    }

    /** A request without an id gets a new one. */
    method Name(req: ApiRequest)
      requires Valid()
      modifies req, ids
      ensures Valid() && req.txnId != ""
      ensures old(req.txnId) != "" ==> req.txnId == old(req.txnId) && ids.issued == old(ids.issued)
      ensures old(req.txnId) == "" ==> ids.issued == old(ids.issued) + [req.txnId]
    {
      hide Pool.Valid;
      hide TxnIdSource.Valid;
      hide CheshireConn.Valid;
      hide MaxInFlightPer;
      if req.txnId == "" {
        req.txnId := ids.NewTxnId();
      }
    }

    /** The send on a borrowed connection, and giving the connection back. */
    method CallOn(c: PoolProtocol.ConnId, sid: nat, txnId: string, createOk: bool) returns (r: CallResult)
      requires Valid() && pool != null && !pool.shutdown && c in pool.slots && c in conns
      requires sid !in conns[c].senders
      modifies this`conns, pool, conns[c]
      ensures Valid() && pool.shutdown == old(pool.shutdown) && !r.NoConnection?
      ensures c in conns && r == ResultOf(OutcomeOf(old(conns[c].View()), txnId))
      ensures r.Failed? <==> old(conns[c].inflight) >= conns[c].maxInFlight || !old(conns[c].connected)
      ensures r.StillSending? <==>
                old(conns[c].inflight) < conns[c].maxInFlight && old(conns[c].connected)
                && |old(conns[c].outgoingChan)| >= 25
      ensures r.Sent? ==>
                && r.request == ConnectionProtocol.Request(old(conns[c].nextHandle), txnId)
                && conns[c].outgoingChan == old(conns[c].outgoingChan) + [r.request]
      ensures r.Failed? ==>
                && conns[c].outgoingChan == old(conns[c].outgoingChan)
                && conns[c].exitWaiters ==
                   old(conns[c].exitWaiters) + if !old(conns[c].connected) then 0 else if createOk then 2 else 1
      ensures conns[c].View() == if r.Failed? && createOk then AfterClose(AfterSend(old(conns[c].View()), sid, txnId))
                                 else AfterSend(old(conns[c].View()), sid, txnId)
      ensures forall d <- old(conns) :: d in conns && conns[d] == old(conns)[d]
      ensures forall d <- old(conns) | d != c :: conns[d].View() == old(conns[d].View())
      ensures !r.StillSending? ==> pool.slots == old(pool.slots) - {c}
      ensures r.StillSending? ==> pool.View() == old(pool.View())
      ensures r.Sent? || (r.Failed? && !createOk) ==>
                && pool.clients == old(pool.clients) + [c]
                && pool.created == old(pool.created) && pool.cleaned == old(pool.cleaned)
      ensures r.Failed? && createOk ==>
                && pool.clients == old(pool.clients) + [old(pool.created)]
                && pool.created == old(pool.created) + 1 && pool.cleaned == old(pool.cleaned) + [c]
    {
      hide Pool.Valid;
      hide TxnIdSource.Valid;
      hide CheshireConn.Valid;
      hide AfterSend;
      hide OutcomeOf;
      hide MaxInFlightPer;
      hide Limited;
      hide Made;
      hide CheshireConn.View;
      hide AfterClose;
      var outcome := SendOn(c, sid, txnId);
      match outcome {
        case Blocked =>
          return StillSending;
        case Accepted(q) =>
          pool.Return(c);
          return Sent(q);
        case _ =>
          GiveBackBroken(c, createOk);
          return Failed;
      }
    }

    lemma ConnectionsMade()
      requires Valid() && pool != null
      ensures forall c: nat :: c < pool.created <==> c in conns
    {
    }

    /** sendRequest on one of the connections; the others stay as they are. */
    method SendOn(c: PoolProtocol.ConnId, sid: nat, txnId: string) returns (outcome: Outcome)
      requires Valid() && c in conns && sid !in conns[c].senders
      modifies conns[c]
      ensures Valid() && outcome == OutcomeOf(old(conns[c].View()), txnId)
      ensures conns[c].View() == AfterSend(old(conns[c].View()), sid, txnId)
      ensures outcome.TimedOut? || outcome.NotConnected? <==>
                old(conns[c].inflight) >= conns[c].maxInFlight || !old(conns[c].connected)
      ensures outcome.Blocked? <==>
                old(conns[c].inflight) < conns[c].maxInFlight && old(conns[c].connected)
                && |old(conns[c].outgoingChan)| >= 25
      ensures outcome.Accepted? ==>
                && outcome.request == ConnectionProtocol.Request(old(conns[c].nextHandle), txnId)
                && conns[c].outgoingChan == old(conns[c].outgoingChan) + [outcome.request]
      ensures outcome.TimedOut? || outcome.NotConnected? ==>
                && conns[c].outgoingChan == old(conns[c].outgoingChan) && conns[c].connected == old(conns[c].connected)
                && conns[c].exitWaiters == old(conns[c].exitWaiters) + if old(conns[c].connected) then 1 else 0
      ensures forall d <- conns | d != c :: conns[d].View() == old(conns[d].View())
    {
      hide Pool.Valid;
      hide TxnIdSource.Valid;
      hide CheshireConn.Valid;
      hide AfterSend;
      hide OutcomeOf;
      hide MaxInFlightPer;
      outcome := conns[c].SendRequest(sid, txnId);
    }

    /** ReturnBroken, with the creator's part: a new connection made, the broken one closed. */
    method GiveBackBroken(c: PoolProtocol.ConnId, createOk: bool)
      requires Valid() && pool != null && !pool.shutdown && c in pool.slots && c in conns
      modifies this`conns, pool, conns[c]
      ensures Valid() && pool.slots == old(pool.slots) - {c} && pool.shutdown == old(pool.shutdown)
      ensures !createOk ==>
                && conns == old(conns) && conns[c].View() == old(conns[c].View())
                && conns[c].outgoingChan == old(conns[c].outgoingChan)
                && conns[c].exitWaiters == old(conns[c].exitWaiters)
                && pool.clients == old(pool.clients) + [c]
                && pool.created == old(pool.created) && pool.cleaned == old(pool.cleaned)
      ensures createOk ==>
                && pool.created == old(pool.created) + 1 && pool.clients == old(pool.clients) + [old(pool.created)]
                && pool.cleaned == old(pool.cleaned) + [c]
                && c in conns && conns[c].View() == AfterClose(old(conns[c].View()))
                && conns[c].outgoingChan == old(conns[c].outgoingChan)
                && conns[c].exitWaiters == old(conns[c].exitWaiters) + if old(conns[c].connected) then 1 else 0
      ensures forall d <- old(conns) :: d in conns && conns[d] == old(conns)[d]
      ensures forall d <- old(conns) | d != c :: conns[d].View() == old(conns[d].View())
    {
      hide Pool.Valid;
      hide CheshireConn.Valid;
      hide TxnIdSource.Valid;
      hide MaxInFlightPer;
      hide Limited;
      ConnectionsMade();
      var made := pool.created;
      pool.ReturnBroken(c, createOk);
      if createOk {
        Replace(c, made);
      }
    }

    /** A new connection under the number made, and the one at c closed. */
    method Replace(c: PoolProtocol.ConnId, made: nat)
      requires poolSize > 0 && c in conns && made !in conns
      requires Limited(conns, MaxInFlightPer(maxInFlight, poolSize))
      modifies this`conns, conns[c]
      ensures Limited(conns, MaxInFlightPer(maxInFlight, poolSize)) && conns.Keys == old(conns).Keys + {made}
      ensures c in conns && conns[c].View() == AfterClose(old(conns[c].View()))
      ensures conns[c].outgoingChan == old(conns[c].outgoingChan)
      ensures conns[c].exitWaiters == old(conns[c].exitWaiters) + if old(conns[c].connected) then 1 else 0
      ensures forall d <- old(conns) :: d in conns && conns[d] == old(conns)[d]
      ensures forall d <- old(conns) | d != c :: conns[d].View() == old(conns[d].View())
    {
      hide CheshireConn.Valid;
      hide MaxInFlightPer;
      var replacement := new CheshireConn(MaxInFlightPer(maxInFlight, poolSize));
      conns[c].Close();
      conns := conns[made := replacement];
    }
  }

  /** All connections numbered below n are there. */
  ghost predicate Made(conns: map<PoolProtocol.ConnId, CheshireConn>, n: nat) {
    forall c: nat :: c in conns <==> c < n
  }

  /** All different, all valid, all with the client's limit. */
  ghost predicate Limited(conns: map<PoolProtocol.ConnId, CheshireConn>, per: int)
    reads conns.Values
  {
    && (forall c <- conns :: conns[c].Valid() && conns[c].maxInFlight == per)
    && forall a <- conns, b <- conns :: conns[a] == conns[b] ==> a == b
  }

  method MakeAll(n: nat, per: nat) returns (conns: map<PoolProtocol.ConnId, CheshireConn>)
    ensures Made(conns, n) && Limited(conns, per) && forall c <- conns :: fresh(conns[c])
    ensures forall c <- conns :: conns[c].View() == ConnectionProtocol.Initial(per)
  {
    hide CheshireConn.Valid;
    conns := map[];
    for i := 0 to n
      invariant Made(conns, i) && Limited(conns, per) && forall c <- conns :: fresh(conns[c])
      invariant forall c <- conns :: conns[c].View() == ConnectionProtocol.Initial(per)
    {
      var conn := new CheshireConn(per);
      conns := conns[i := conn];
    }
  }

  lemma TriesFit(x: nat, retries: nat, poolSize: nat)
    requires x < retries
    ensures x * poolSize + poolSize == (x + 1) * poolSize <= retries * poolSize
  {
    MulMonotone(x + 1, retries, poolSize);
  }
}
