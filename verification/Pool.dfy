/** The pool of client/pool.go as an object, its methods run one at a time; each contract says which
    protocol steps the method takes, or what they amount to. */
module Pool {
  import opened Wrappers
  import opened PoolProtocol
  import opened PoolTheorems

  /** Makes a pool of the given size; creates[i] says whether the creator's i-th call succeeds. When
      one fails, everything made before it is cleaned up and handed back as the error. */
  method NewPool(size: nat, creates: seq<bool>) returns (r: Result<Pool, seq<ConnId>>)
    requires |creates| == size
    ensures r.Ok? <==> false !in creates
    ensures r.Ok? ==> fresh(r.value) && r.value.Valid() && r.value.View() == Initial(size)
    ensures r.Err? ==> |r.error| < size && !creates[|r.error|] && false !in creates[..|r.error|]
    ensures r.Err? ==> r.error == Upto(|r.error|)
  {
    var clients: seq<ConnId> := [];
    for i := 0 to size
      invariant clients == Upto(i) && false !in creates[..i]
    {
      if !creates[i] {
        ghost var made := clients;
        var cleaned: seq<ConnId> := [];
        while clients != []
          invariant cleaned + clients == made
        {
          cleaned := cleaned + [clients[0]];
          clients := clients[1..];
        }
        assert false in creates;
        return Err(cleaned);
      }
      clients := clients + [i];
    }
    var pool := new Pool(size, clients);
    return Ok(pool);
  }

  class Pool {
    const size: nat
    var clients: seq<ConnId>
    var shutdown: bool
    /** Number of connections the creator has made. */
    var created: nat
    ghost var slots: map<nat, Slot>
    ghost var cleaned: seq<ConnId>
    /** How often Borrow has been called. */
    ghost var asked: nat

    /** The protocol state between method calls: nobody is inside a method. */
    ghost function View(): State
      reads this
    {
      State(size, clients, shutdown, false, 0, slots, {}, created, cleaned)
    }

    /** Borrowed connections, each its own borrower's name. */
    ghost predicate Valid()
      reads this
    {
      Reachable(size, View()) && forall b <- slots :: slots[b] == Using(b)
    }

    constructor (size: nat, clients: seq<ConnId>)
      requires clients == Upto(size)
      ensures Valid() && View() == Initial(size)
    {
      this.size, this.clients, shutdown, created := size, clients, false, size;
      slots, cleaned, asked := map[], [], 0;
      new;
      assert CanRun(Initial(size), []) && Run(Initial(size), []) == View();
    }

    /** Checks a connection out, unless the pool is shut down, or none is free, or the wait for one
        runs into the timeout. */
    method Borrow(timedOut: bool) returns (r: Option<ConnId>)
      requires Valid()
      modifies this
      ensures Valid() && asked == old(asked) + 1
      ensures r.None? <==> old(shutdown) || timedOut || old(clients) == []
      ensures r.None? ==> View() == old(View())
      ensures r.Some? ==> r.value < created
      ensures r.Some? ==> !shutdown && old(clients) == [r.value] + clients && r.value !in old(slots)
      ensures r.Some? ==> View() == old(View()).(clients := clients, slots := old(slots)[r.value := Using(r.value)])
    {
      asked := asked + 1;
      if shutdown {
        return None;
      }
      if timedOut || clients == [] {
        return None;
      }
      var c := clients[0];
      if c in slots {
        FreeIsNotBorrowed(size, View(), c);
      }
      ghost var s1 := Apply(View(), Ask);
      ReachableStep(size, View(), Ask);
      ReachableStep(size, s1, Receive(c));
      clients := clients[1..];
      slots := slots[c := Using(c)];
      BorrowedWasMade(size, View(), c);
      return Some(c);
    }

    /** Gives a connection back, or cleans it up when the pool is shut down. The send to the channel
        finds room. */
    method Return(conn: ConnId)
      requires Valid() && conn in slots
      modifies this
      ensures Valid() && slots == old(slots) - {conn}
      ensures old(shutdown) ==> View() == old(View()).(slots := slots, cleaned := old(cleaned) + [conn])
      ensures !old(shutdown) ==> |old(clients)| < size
      ensures !old(shutdown) ==> View() == old(View()).(slots := slots, clients := old(clients) + [conn])
    {
      ghost var s1 := Apply(View(), BeginReturn(conn));
      ReachableStep(size, View(), BeginReturn(conn));
      if shutdown {
        cleaned := cleaned + [conn];
        slots := slots - {conn};
        return;
      }
      PlacesConserved(size, s1);
      ReachableStep(size, s1, Push(conn));
      clients := clients + [conn];
      assert slots[conn := Returning(conn)] - {conn} == slots - {conn};
      slots := slots - {conn};
    }

    /** Swaps a broken connection for a new one; if none can be made, the broken one goes back. */
    method ReturnBroken(conn: ConnId, createOk: bool)
      requires Valid() && conn in slots
      modifies this
      ensures Valid() && slots == old(slots) - {conn}
      ensures old(shutdown) ==> View() == old(View()).(slots := slots, cleaned := old(cleaned) + [conn])
      ensures !old(shutdown) ==> |old(clients)| < size
      ensures !old(shutdown) && !createOk ==>
        View() == old(View()).(slots := slots, clients := old(clients) + [conn])
      ensures !old(shutdown) && createOk ==>
        View() == old(View()).(slots := slots, clients := old(clients) + [old(created)],
                               created := old(created) + 1, cleaned := old(cleaned) + [conn])
    {
      if shutdown {
        ReachableStep(size, View(), BeginReplace(conn));
        cleaned := cleaned + [conn];
        slots := slots - {conn};
        return;
      }
      if !createOk {
        Return(conn);
        return;
      }
      ReplaceRun(size, View(), conn);
      clients := clients + [created];
      created := created + 1;
      slots := slots - {conn};
      cleaned := cleaned + [conn];
    }

    /** Shuts the pool down and cleans up what is in the channel, in order. */
    method Close()
      requires Valid()
      modifies this
      ensures Valid()
      ensures View() == old(View()).(shutdown := true, clients := [], cleaned := old(cleaned) + old(clients))
    {
      ghost var s := Apply(View(), Shutdown);
      ReachableStep(size, View(), Shutdown);
      shutdown := true;
      while clients != []
        invariant s == View().(closing := true) && Reachable(size, s) && shutdown
        invariant slots == old(slots) && created == old(created)
        invariant cleaned + clients == old(cleaned) + old(clients)
      {
        ReachableStep(size, s, DrainOne);
        s := Apply(s, DrainOne);
        cleaned := cleaned + [clients[0]];
        clients := clients[1..];
      }
      ReachableStep(size, s, DrainEnd);
    }

    /** A closed pool whose borrowers have all returned has cleaned up every connection once. */
    lemma ClosedMeansCleaned()
      requires Valid() && shutdown && clients == [] && slots == map[]
      ensures forall c: ConnId :: c < created ==> multiset(cleaned)[c] == 1
    {
      CleanedOnceIffChannelEmpty(size, View());
      assert forall c: ConnId :: Cleanups(View(), c) == multiset(cleaned)[c];
    }
  }
}
