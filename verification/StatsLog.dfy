/** What a run of statistics events leaves in the buckets of one time amount, current and persisted
    (stats/stats.go: add), as a function of the events. */
module StatsLog {
  import opened Wrappers
  import opened Integers
  import opened Paths
  import opened LeafMaps
  import opened DynMaps
  import opened TimeAmounts

  datatype ItemType = SET | INC

  datatype Item = Item(Key: string, Val: int64, typ: ItemType)

  /** An item and the bucket number the clock gave for it. */
  datatype Event = Event(item: Item, epoch: int)

  datatype Bucket = Bucket(epoch: int, values: Leaves<int64>)

  /** The bucket being filled and those persisted before it, oldest first. */
  datatype Book = Book(current: Bucket, closed: seq<Bucket>)

  ghost function ValueAt(l: Leaves<int64>, p: Path): int64 {
    if p in l then l[p] else 0
  }

  ghost function NewValue(l: Leaves<int64>, item: Item): int64 {
    if item.typ.INC? then Wrap64(ValueAt(l, Split(item.Key)) + item.Val) else item.Val
  }

  ghost function Applied(l: Leaves<int64>, item: Item): Leaves<int64> {
    PutLeaf<int64>(l, Split(item.Key), NewValue(l, item))
  }

  ghost function RolledOver(b: Book, epoch: int): Book {
    if epoch == b.current.epoch then b else Book(Bucket(epoch, map[]), b.closed + [b.current])
  }

  ghost function Added(b: Book, ev: Event): Book {
    var r := RolledOver(b, ev.epoch);
    Book(Bucket(ev.epoch, Applied(r.current.values, ev.item)), r.closed)
  }

  ghost function Opened(epoch: int): Book {
    Book(Bucket(epoch, map[]), [])
  }

  ghost function Logged(b: Book, evs: seq<Event>): Book {
    if evs == [] then b else Added(Logged(b, evs[..|evs| - 1]), evs[|evs| - 1])
  }

  // ---- one item, seen from one path ----

  ghost predicate Hits(ev: Event, p: Path) {
    Split(ev.item.Key) == p
  }

  /** The event's key lies strictly above p. */
  ghost predicate IsAbove(ev: Event, p: Path) {
    Split(ev.item.Key) < p
  }

  /** An item changes the value at its own path, if no value lies above, and those below it; a value that
      lies above p stays there, and an item above p that is not itself blocked puts one there. */
  lemma AppliedAt(l: Leaves<int64>, item: Item, p: Path)
    ensures var path, l' := Split(item.Key), Applied(l, item);
      && (Blocked(l', p) <==> Blocked(l, p) || path < p)
      && (Blocked(l, path) ==> l' == l)
      && (!Blocked(l, path) && path <= p ==> (p in l' <==> path == p))
      && (!Blocked(l, path) && path == p ==> l'[p] == NewValue(l, item))
      && (!(path <= p) ==> (p in l' <==> p in l) && (p in l ==> l'[p] == l[p]))
  {
    var path, l' := Split(item.Key), Applied(l, item);
    if Blocked(l, path) {
      if path < p {
        BlockedFurther(l, path, p);
      }
    } else {
      PrefixOrEqual(path, p);
      assert path in l';
      if Blocked(l, p) {
        var q :| q in l && q < p;
        assert q !in l' ==> path <= q;
      }
    }
  }

  lemma AddedAt(b: Book, ev: Event, p: Path)
    ensures var l, l', path := RolledOver(b, ev.epoch).current.values, Added(b, ev).current.values, Split(ev.item.Key);
      && Added(b, ev).current.epoch == ev.epoch
      && (Blocked(l', p) <==> Blocked(l, p) || IsAbove(ev, p))
      && (Hits(ev, p) && !Blocked(l, p) ==> ValueAt(l', p) == NewValue(l, ev.item))
      && (Hits(ev, p) && Blocked(l, p) ==> ValueAt(l', p) == ValueAt(l, p))
      && (IsAbove(ev, p) ==> ValueAt(l', p) == if Blocked(l, path) then ValueAt(l, p) else 0)
      && (!Hits(ev, p) && !IsAbove(ev, p) ==> ValueAt(l', p) == ValueAt(l, p))
  {
    hide PutLeaf;
    hide NewValue;
    hide Split;
    AppliedAt(RolledOver(b, ev.epoch).current.values, ev.item, p);
    PrefixOrEqual(Split(ev.item.Key), p);
  }

  // ---- the current value ----

  /** The sum of the increments at p in epochs of interest. */
  ghost function IncSum(evs: seq<Event>, p: Path, of: int -> bool): int {
    if evs == [] then 0
    else
      var ev := evs[|evs| - 1];
      IncSum(evs[..|evs| - 1], p, of) + if Hits(ev, p) && ev.item.typ.INC? && of(ev.epoch) then ev.item.Val else 0
  }

  function Always(): int -> bool {
    (e: int) => true
  }

  /** From k on, and not before, the events are in the epoch of the last one. */
  ghost predicate InLastEpoch(evs: seq<Event>, k: nat) {
    && k <= |evs|
    && (forall i :: k <= i < |evs| ==> evs[i].epoch == evs[|evs| - 1].epoch)
    && (k > 0 ==> k < |evs| && evs[k - 1].epoch != evs[|evs| - 1].epoch)
  }

  /** j follows the last SET of p from k on, or is k if there is none. */
  ghost predicate AfterLastSet(evs: seq<Event>, p: Path, k: nat, j: nat) {
    && k <= j <= |evs|
    && (j > k ==> Hits(evs[j - 1], p) && evs[j - 1].item.typ.SET?)
    && forall i :: j <= i < |evs| && Hits(evs[i], p) ==> evs[i].item.typ.INC?
  }

  /** The last SET and the increments after it. */
  ghost function SetPlusIncs(evs: seq<Event>, p: Path, k: nat, j: nat): int
    requires k <= j <= |evs|
  {
    (if j == k then 0 else evs[j - 1].item.Val) + IncSum(evs[j..], p, Always())
  }

  ghost predicate NoneAbove(evs: seq<Event>, p: Path) {
    forall ev <- evs :: !IsAbove(ev, p)
  }

  ghost predicate IsCurrent(e0: int, evs: seq<Event>, p: Path, k: nat, j: nat)
    requires k <= j <= |evs|
  {
    var now := Logged(Opened(e0), evs).current;
    && now.epoch == (if evs == [] then e0 else evs[|evs| - 1].epoch)
    && !Blocked(now.values, p)
    && ValueAt(now.values, p) == Wrap64(SetPlusIncs(evs, p, k, j))
  }

  /** The value of a key is its last SET in the current epoch plus the increments after it, or the sum of
      the epoch's increments, provided no event of the epoch is at a key above it. */
  lemma {:induction false} CurrentValue(e0: int, evs: seq<Event>, p: Path, k: nat, j: nat)
    requires InLastEpoch(evs, k) && AfterLastSet(evs, p, k, j) && NoneAbove(evs[k..], p)
    ensures IsCurrent(e0, evs, p, k, j)
    decreases |evs|
  {
    hide IsCurrent;
    hide AfterLastSet;
    hide NoneAbove;
    BoundsOf(evs, p, k, j);
    if evs == [] {
      NoEvents(e0, p);
    } else if k < |evs| - 1 {
      CurrentInside(e0, evs, p, k, j);
    } else {
      CurrentFirst(e0, evs, p, j);
    }
  }

  lemma BoundsOf(evs: seq<Event>, p: Path, k: nat, j: nat)
    requires AfterLastSet(evs, p, k, j)
    ensures k <= j <= |evs|
  {
  }

  lemma NoEvents(e0: int, p: Path)
    ensures IsCurrent(e0, [], p, 0, 0)
  {
  }

  /** The first event of its epoch. */
  lemma CurrentFirst(e0: int, evs: seq<Event>, p: Path, j: nat)
    requires evs != [] && InLastEpoch(evs, |evs| - 1) && AfterLastSet(evs, p, |evs| - 1, j)
    requires NoneAbove(evs[|evs| - 1..], p)
    ensures IsCurrent(e0, evs, p, |evs| - 1, j)
  {
    hide Added;
    hide SetPlusIncs;
    hide Wrap64;
    var n := |evs| - 1;
    var b := Logged(Opened(e0), evs[..n]);
    LastEpoch(e0, evs[..n]);
    NoneAboveFront(evs, n, p);
    LastEventCounts(evs, p, n, j);
    assert ValueAt(RolledOver(b, evs[n].epoch).current.values, p) == 0;
    ZeroWraps();
    CurrentValueStep(b, evs, p, n, j);
    AddedAt(b, evs[n], p);
  }

  lemma ZeroWraps()
    ensures Wrap64(0) == 0
  {
  }

  /** A further event of its epoch. */
  lemma {:induction false} CurrentInside(e0: int, evs: seq<Event>, p: Path, k: nat, j: nat)
    requires k < |evs| - 1 && InLastEpoch(evs, k) && AfterLastSet(evs, p, k, j) && NoneAbove(evs[k..], p)
    ensures IsCurrent(e0, evs, p, k, j)
    decreases |evs|, 0
  {
    hide Added;
    hide SetPlusIncs;
    hide Wrap64;
    hide AfterLastSet;
    hide NoneAbove;
    BoundsOf(evs, p, k, j);
    var n := |evs| - 1;
    var front := evs[..n];
    LastEpoch(e0, front);
    NoneAboveFront(evs, k, p);
    LastEventCounts(evs, p, k, j);
    var j0 := j;
    if j > n {
      j0 := LastSet(front, p, k);
    }
    BoundsOf(front, p, k, j0);
    CurrentValue(e0, front, p, k, j0);
    CurrentValueStep(Logged(Opened(e0), front), evs, p, k, j);
    AddedAt(Logged(Opened(e0), front), evs[n], p);
  }

  lemma CurrentValueStep(b: Book, evs: seq<Event>, p: Path, k: nat, j: nat)
    requires evs != [] && k < |evs| && AfterLastSet(evs, p, k, j) && !IsAbove(evs[|evs| - 1], p)
    requires var r := RolledOver(b, evs[|evs| - 1].epoch).current.values;
      !Blocked(r, p) && (j < |evs| ==> ValueAt(r, p) == Wrap64(SetPlusIncs(evs[..|evs| - 1], p, k, j)))
    ensures var v := Added(b, evs[|evs| - 1]).current.values;
      !Blocked(v, p) && ValueAt(v, p) == Wrap64(SetPlusIncs(evs, p, k, j))
  {
    hide Added;
    hide RolledOver;
    hide Wrap64;
    hide Blocked;
    hide SetPlusIncs;
    hide Split;
    var n := |evs| - 1;
    LastEventCounts(evs, p, k, j);
    AddedAt(b, evs[n], p);
    if j <= n {
      Wrap64Add(SetPlusIncs(evs[..n], p, k, j), evs[n].item.Val);
    }
  }

  lemma NoneAboveFront(evs: seq<Event>, k: nat, p: Path)
    requires k < |evs| && NoneAbove(evs[k..], p)
    ensures NoneAbove(evs[..|evs| - 1][k..], p) && !IsAbove(evs[|evs| - 1], p)
  {
    var n := |evs| - 1;
    assert evs[k..] == evs[..n][k..] + [evs[n]];
    assert evs[n] in evs[k..];
    forall ev <- evs[..n][k..] ensures ev in evs[k..] {
    }
  }

  lemma LastEventCounts(evs: seq<Event>, p: Path, k: nat, j: nat)
    requires evs != [] && k < |evs| && AfterLastSet(evs, p, k, j)
    ensures var n := |evs| - 1;
      && (j <= n <==> !(Hits(evs[n], p) && evs[n].item.typ.SET?))
      && (j > n ==> SetPlusIncs(evs, p, k, j) == evs[n].item.Val)
      && (j <= n ==> AfterLastSet(evs[..n], p, k, j))
      && (j <= n && k == n ==> SetPlusIncs(evs[..n], p, k, j) == 0)
      && (j <= n ==> SetPlusIncs(evs, p, k, j) ==
                     SetPlusIncs(evs[..n], p, k, j) + if Hits(evs[n], p) then evs[n].item.Val else 0)
  {
    var n := |evs| - 1;
    if j <= n {
      assert evs[j..][..n - j] == evs[..n][j..];
    }
  }

  /** There always is one. */
  lemma {:induction false} LastSet(evs: seq<Event>, p: Path, k: nat) returns (j: nat)
    requires k <= |evs|
    ensures AfterLastSet(evs, p, k, j)
  {
    j := |evs|;
    while j > k && !(Hits(evs[j - 1], p) && evs[j - 1].item.typ.SET?)
      invariant k <= j <= |evs|
      invariant forall i :: j <= i < |evs| && Hits(evs[i], p) ==> evs[i].item.typ.INC?
    {
      j := j - 1;
    }
  }

  lemma LastEpoch(e0: int, evs: seq<Event>)
    ensures Logged(Opened(e0), evs).current.epoch == if evs == [] then e0 else evs[|evs| - 1].epoch
  {
  }

  // ---- what is persisted ----

  /** How often the bucket number changes. */
  ghost function Changes(e0: int, evs: seq<Event>): nat
    decreases |evs|
  {
    if evs == [] then 0 else (if evs[0].epoch != e0 then 1 else 0) + Changes(evs[0].epoch, evs[1..])
  }

  lemma {:induction false} ChangesSnoc(e0: int, evs: seq<Event>)
    requires evs != []
    ensures var n := |evs| - 1;
      Changes(e0, evs) ==
      Changes(e0, evs[..n]) + if evs[n].epoch != (if n == 0 then e0 else evs[n - 1].epoch) then 1 else 0
    decreases |evs|
  {
    var n := |evs| - 1;
    if n > 0 {
      ChangesSnoc(evs[0].epoch, evs[1..]);
      assert evs[1..][..n - 1] == evs[..n][1..];
    }
  }

  /** Each change persists the bucket as it stood just before, whatever is in it, and nothing else does;
      persisted buckets stay in order and as they are. */
  lemma {:induction false} PersistedAtChange(e0: int, evs: seq<Event>, i: nat)
    requires i < |evs|
    ensures |Logged(Opened(e0), evs).closed| == Changes(e0, evs)
    ensures evs[i].epoch != (if i == 0 then e0 else evs[i - 1].epoch) ==>
              var m := Changes(e0, evs[..i]);
              m < Changes(e0, evs) && Logged(Opened(e0), evs).closed[m] == Logged(Opened(e0), evs[..i]).current
  {
    hide Applied;
    var n := |evs| - 1;
    ChangesSnoc(e0, evs);
    LastEpoch(e0, evs[..n]);
    if n > 0 {
      PersistedAtChange(e0, evs[..n], if i < n then i else 0);
    }
    if i < n {
      assert evs[..n][..i] == evs[..i];
    } else {
      ClosedSoFar(e0, evs[..n]);
    }
  }

  lemma {:induction false} ClosedSoFar(e0: int, evs: seq<Event>)
    ensures |Logged(Opened(e0), evs).closed| == Changes(e0, evs)
  {
    hide Applied;
    if evs != [] {
      var n := |evs| - 1;
      ChangesSnoc(e0, evs);
      LastEpoch(e0, evs[..n]);
      ClosedSoFar(e0, evs[..n]);
    }
  }

  // ---- nothing is lost between buckets ----

  ghost function Buckets(b: Book): seq<Bucket> {
    b.closed + [b.current]
  }

  /** The sum of a key's values over the buckets of interest. */
  ghost function Total(bs: seq<Bucket>, p: Path, of: int -> bool): int {
    if bs == [] then 0
    else
      var b := bs[|bs| - 1];
      Total(bs[..|bs| - 1], p, of) + if of(b.epoch) then ValueAt(b.values, p) else 0
  }

  ghost predicate OnlyIncs(evs: seq<Event>, p: Path) {
    forall ev <- evs :: Hits(ev, p) ==> ev.item.typ.INC?
  }

  lemma TotalSnoc(bs: seq<Bucket>, b: Bucket, p: Path, of: int -> bool)
    ensures Total(bs + [b], p, of) == Total(bs, p, of) + if of(b.epoch) then ValueAt(b.values, p) else 0
  {
    assert (bs + [b])[..|bs|] == bs;
  }

  lemma OpenedTotal(e0: int, p: Path, of: int -> bool)
    ensures Total(Buckets(Opened(e0)), p, of) == 0
  {
    TotalSnoc([], Opened(e0).current, p, of);
  }

  /** What an event loses of the increments at p: its own, if a value lies above p, or what p holds, if it
      puts a value above p. */
  ghost function LossAt(b: Book, ev: Event, p: Path): int {
    var l := RolledOver(b, ev.epoch).current.values;
    if Hits(ev, p) && Blocked(l, p) then ev.item.Val
    else if IsAbove(ev, p) && !Blocked(l, Split(ev.item.Key)) then ValueAt(l, p)
    else 0
  }

  ghost function Lost(b: Book, evs: seq<Event>, p: Path, of: int -> bool): int {
    if evs == [] then 0
    else
      var n := |evs| - 1;
      Lost(b, evs[..n], p, of) + if of(evs[n].epoch) then LossAt(Logged(b, evs[..n]), evs[n], p) else 0
  }

  /** What an event adds to the increments at p, less what it loses of them. */
  ghost function Gain(b: Book, ev: Event, p: Path, of: int -> bool): int {
    if of(ev.epoch) then (if Hits(ev, p) then ev.item.Val else 0) - LossAt(b, ev, p) else 0
  }

  /** One event moves the total by its gain, up to wrap-around. */
  lemma TotalAfterAdded(b: Book, ev: Event, p: Path, of: int -> bool)
    requires Hits(ev, p) ==> ev.item.typ.INC?
    ensures var v := ValueAt(RolledOver(b, ev.epoch).current.values, p) as int;
      Total(Buckets(Added(b, ev)), p, of) == Total(Buckets(b), p, of) + Wrap64(v + Gain(b, ev, p, of)) - v
  {
    hide Applied;
    hide Total;
    hide Wrap64;
    hide Split;
    hide PutLeaf;
    AddedAt(b, ev, p);
    var r, b' := RolledOver(b, ev.epoch), Added(b, ev);
    WrapsToItself(ValueAt(r.current.values, p));
    WrapsToItself(0);
    OpenedTotal(ev.epoch, p, of);
    TotalSnoc(b.closed, b.current, p, of);
    TotalSnoc(r.closed, r.current, p, of);
    TotalSnoc(b'.closed, b'.current, p, of);
    assert r.closed == b'.closed;
  }

  lemma WrapsToItself(v: int64)
    ensures Wrap64(v) == v
  {
  }

  lemma Wrap64Shift(t: int, v: int, inc: int, s: int)
    requires Wrap64(t) == Wrap64(s)
    ensures Wrap64(t + Wrap64(v + inc) - v) == Wrap64(s + inc)
  {
    hide Wrap64;
    var k := Wrap64Differs(v + inc);
    assert t + Wrap64(v + inc) - v == (t + inc) + (-k) * TWO_TO_THE_64;
    WrapTurns(t + inc, -k);
    Wrap64Add(t, inc);
    Wrap64Add(s, inc);
  }

  lemma WrapTurns(x: int, k: int)
    ensures Wrap64(x + k * TWO_TO_THE_64) == Wrap64(x)
  {
    ModShift(x, k);
  }

  /** Whatever the clock does and whatever the keys, the persisted buckets and the current one together hold
      the increments of p less exactly what conflicting keys lost of them, for every choice of epochs to
      add up, in int64 arithmetic. */
  lemma {:induction false} IncsAccounted(e0: int, evs: seq<Event>, p: Path, of: int -> bool)
    requires OnlyIncs(evs, p)
    ensures Wrap64(Total(Buckets(Logged(Opened(e0), evs)), p, of))
         == Wrap64(IncSum(evs, p, of) - Lost(Opened(e0), evs, p, of))
  {
    hide Wrap64;
    hide Added;
    hide Total;
    hide LossAt;
    hide Hits;
    if evs == [] {
      OpenedTotal(e0, p, of);
    } else {
      var n := |evs| - 1;
      var front, ev := evs[..n], evs[n];
      var b := Logged(Opened(e0), front);
      assert ev in evs;
      IncsAccounted(e0, front, p, of);
      TotalAfterAdded(b, ev, p, of);
      Wrap64Shift(Total(Buckets(b), p, of), ValueAt(RolledOver(b, ev.epoch).current.values, p), Gain(b, ev, p, of),
                  IncSum(front, p, of) - Lost(Opened(e0), front, p, of));
    }
  }

  // ---- keys that never meet ----

  /** No bucket gets in between. */
  ghost predicate SameBucket(evs: seq<Event>, i: nat, j: nat) {
    i <= j < |evs| && forall m :: i <= m <= j ==> evs[m].epoch == evs[j].epoch
  }

  ghost predicate Meet(evs: seq<Event>, p: Path, i: nat, j: nat) {
    && SameBucket(evs, i, j)
    && ((IsAbove(evs[i], p) && Hits(evs[j], p)) || (Hits(evs[i], p) && IsAbove(evs[j], p)))
  }

  /** No event at a key above p falls in one bucket with an event at p. */
  ghost predicate NeverMeet(evs: seq<Event>, p: Path) {
    forall i: nat, j: nat :: !Meet(evs, p, i, j)
  }

  /** Some event of the bucket being filled is above p, or at p. */
  ghost predicate AboveInLast(evs: seq<Event>, p: Path) {
    evs != [] && exists i: nat :: SameBucket(evs, i, |evs| - 1) && IsAbove(evs[i], p)
  }

  ghost predicate HitInLast(evs: seq<Event>, p: Path) {
    evs != [] && exists i: nat :: SameBucket(evs, i, |evs| - 1) && Hits(evs[i], p)
  }

  lemma InLastSnoc(evs: seq<Event>, p: Path)
    requires evs != []
    ensures var n := |evs| - 1; var front := evs[..n];
      && (IsAbove(evs[n], p) ==> AboveInLast(evs, p))
      && (Hits(evs[n], p) ==> HitInLast(evs, p))
      && (n > 0 && evs[n - 1].epoch == evs[n].epoch && AboveInLast(front, p) ==> AboveInLast(evs, p))
      && (n > 0 && evs[n - 1].epoch == evs[n].epoch && HitInLast(front, p) ==> HitInLast(evs, p))
  {
    var n := |evs| - 1;
    var front := evs[..n];
    assert SameBucket(evs, n, n);
    if n > 0 && evs[n - 1].epoch == evs[n].epoch && AboveInLast(front, p) {
      var i: nat :| SameBucket(front, i, n - 1) && IsAbove(front[i], p);
      BucketExtends(evs, i);
    }
    if n > 0 && evs[n - 1].epoch == evs[n].epoch && HitInLast(front, p) {
      var i: nat :| SameBucket(front, i, n - 1) && Hits(front[i], p);
      BucketExtends(evs, i);
    }
  }

  lemma BucketExtends(evs: seq<Event>, i: nat)
    requires |evs| > 1 && evs[|evs| - 2].epoch == evs[|evs| - 1].epoch
    requires SameBucket(evs[..|evs| - 1], i, |evs| - 2)
    ensures SameBucket(evs, i, |evs| - 1)
  {
    var front := evs[..|evs| - 1];
    forall m | i <= m <= |evs| - 1 ensures evs[m].epoch == evs[|evs| - 1].epoch {
      if m < |evs| - 1 {
        assert front[m].epoch == front[|evs| - 2].epoch;
      }
    }
  }

  /** A value lies above p, or at p, only if an event of the bucket put it there. */
  lemma {:induction false} LastBucket(e0: int, evs: seq<Event>, p: Path)
    ensures var l := Logged(Opened(e0), evs).current.values;
      && (Blocked(l, p) ==> AboveInLast(evs, p))
      && (p in l ==> HitInLast(evs, p))
  {
    hide Applied;
    hide AboveInLast;
    hide HitInLast;
    if evs != [] {
      var n := |evs| - 1;
      LastBucket(e0, evs[..n], p);
      LastEpoch(e0, evs[..n]);
      InLastSnoc(evs, p);
      AppliedAt(RolledOver(Logged(Opened(e0), evs[..n]), evs[n].epoch).current.values, evs[n].item, p);
      PrefixOrEqual(Split(evs[n].item.Key), p);
    }
  }

  lemma NeverMeetFront(evs: seq<Event>, p: Path)
    requires evs != [] && NeverMeet(evs, p)
    ensures NeverMeet(evs[..|evs| - 1], p)
  {
    var front := evs[..|evs| - 1];
    forall i: nat, j: nat ensures !Meet(front, p, i, j) {
      if Meet(front, p, i, j) {
        SameBucketInFront(evs, i, j);
        assert Meet(evs, p, i, j);
      }
    }
  }

  lemma SameBucketInFront(evs: seq<Event>, i: nat, j: nat)
    requires evs != [] && SameBucket(evs[..|evs| - 1], i, j)
    ensures SameBucket(evs, i, j)
  {
    var front := evs[..|evs| - 1];
    forall m | i <= m <= j ensures evs[m].epoch == evs[j].epoch {
      assert front[m].epoch == front[j].epoch;
    }
  }

  /** If the last event loses anything, it meets an event of its bucket. */
  lemma LossMeets(e0: int, evs: seq<Event>, p: Path) returns (i: nat)
    requires evs != []
    requires var n := |evs| - 1;
      var l := RolledOver(Logged(Opened(e0), evs[..n]), evs[n].epoch).current.values;
      (Hits(evs[n], p) && Blocked(l, p)) || (IsAbove(evs[n], p) && p in l)
    ensures Meet(evs, p, i, |evs| - 1)
  {
    hide Logged;
    hide Split;
    var n := |evs| - 1;
    var front := evs[..n];
    LastBucket(e0, front, p);
    LastEpoch(e0, front);
    if Hits(evs[n], p) && Blocked(RolledOver(Logged(Opened(e0), front), evs[n].epoch).current.values, p) {
      i :| SameBucket(front, i, n - 1) && IsAbove(front[i], p);
    } else {
      i :| SameBucket(front, i, n - 1) && Hits(front[i], p);
    }
    BucketExtends(evs, i);
  }

  lemma NoLossAtEnd(e0: int, evs: seq<Event>, p: Path)
    requires evs != [] && NeverMeet(evs, p)
    ensures LossAt(Logged(Opened(e0), evs[..|evs| - 1]), evs[|evs| - 1], p) == 0
  {
    hide Logged;
    if LossAt(Logged(Opened(e0), evs[..|evs| - 1]), evs[|evs| - 1], p) != 0 {
      var i := LossMeets(e0, evs, p);
      assert false;
    }
  }

  lemma {:induction false} NothingLost(e0: int, evs: seq<Event>, p: Path, of: int -> bool)
    requires NeverMeet(evs, p)
    ensures Lost(Opened(e0), evs, p, of) == 0
  {
    hide NeverMeet;
    hide LossAt;
    hide Logged;
    if evs != [] {
      NeverMeetFront(evs, p);
      NothingLost(e0, evs[..|evs| - 1], p, of);
      NoLossAtEnd(e0, evs, p);
    }
  }

  /** So where conflicting keys never meet in a bucket, increments are conserved. */
  lemma IncsConserved(e0: int, evs: seq<Event>, p: Path, of: int -> bool)
    requires NeverMeet(evs, p) && OnlyIncs(evs, p)
    ensures Wrap64(Total(Buckets(Logged(Opened(e0), evs)), p, of)) == Wrap64(IncSum(evs, p, of))
  {
    hide Wrap64;
    hide Total;
    hide NeverMeet;
    IncsAccounted(e0, evs, p, of);
    NothingLost(e0, evs, p, of);
  }

  function Size(x: int): nat {
    if x < 0 then -x else x
  }

  /** The size of everything added to p. */
  ghost function Volume(evs: seq<Event>, p: Path): nat {
    if evs == [] then 0
    else
      var ev := evs[|evs| - 1];
      Volume(evs[..|evs| - 1], p) + if Hits(ev, p) then Size(ev.item.Val) else 0
  }

  /** Without overflow the account is exact. */
  lemma {:induction false} IncsAccountedExactly(e0: int, evs: seq<Event>, p: Path, of: int -> bool)
    requires OnlyIncs(evs, p) && Volume(evs, p) < TWO_TO_THE_63
    ensures var b := Logged(Opened(e0), evs);
      && Total(Buckets(b), p, of) == IncSum(evs, p, of) - Lost(Opened(e0), evs, p, of)
      && Size(ValueAt(b.current.values, p)) <= Volume(evs, p)
  {
    hide Wrap64;
    hide Added;
    hide Total;
    hide Split;
    if evs == [] {
      OpenedTotal(e0, p, of);
    } else {
      var n := |evs| - 1;
      var ev := evs[n];
      var b := Logged(Opened(e0), evs[..n]);
      assert ev in evs;
      IncsAccountedExactly(e0, evs[..n], p, of);
      TotalAfterAdded(b, ev, p, of);
      AddedAt(b, ev, p);
      GainFits(b, ev, p, of, Volume(evs[..n], p));
    }
  }

  /** The value after the gain needs no wrapping. */
  lemma GainFits(b: Book, ev: Event, p: Path, of: int -> bool, volume: nat)
    requires Size(ValueAt(b.current.values, p)) <= volume
    requires volume + (if Hits(ev, p) then Size(ev.item.Val) else 0) < TWO_TO_THE_63
    ensures var v := ValueAt(RolledOver(b, ev.epoch).current.values, p) as int;
      && Wrap64(v + Gain(b, ev, p, of)) == v + Gain(b, ev, p, of)
      && (Hits(ev, p) ==> FitsInt64(v + ev.item.Val) && Wrap64(v + ev.item.Val) == v + ev.item.Val)
  {
    hide Wrap64;
    hide Split;
    hide Blocked;
  }

  lemma IncsConservedExactly(e0: int, evs: seq<Event>, p: Path, of: int -> bool)
    requires NeverMeet(evs, p) && OnlyIncs(evs, p) && Volume(evs, p) < TWO_TO_THE_63
    ensures Total(Buckets(Logged(Opened(e0), evs)), p, of) == IncSum(evs, p, of)
  {
    hide Total;
    hide NeverMeet;
    IncsAccountedExactly(e0, evs, p, of);
    NothingLost(e0, evs, p, of);
  }

  // ---- a clock that does not go back ----

  ghost predicate Ordered(e0: int, evs: seq<Event>) {
    && (forall ev <- evs :: e0 <= ev.epoch)
    && forall i, j :: 0 <= i < j < |evs| ==> evs[i].epoch <= evs[j].epoch
  }

  ghost predicate Increasing(bs: seq<Bucket>) {
    forall i, j :: 0 <= i < j < |bs| ==> bs[i].epoch < bs[j].epoch
  }

  lemma {:induction false} EpochsIncrease(e0: int, evs: seq<Event>)
    requires Ordered(e0, evs)
    ensures Increasing(Buckets(Logged(Opened(e0), evs)))
    ensures Logged(Opened(e0), evs).current.epoch == if evs == [] then e0 else evs[|evs| - 1].epoch
  {
    hide Added;
    hide Increasing;
    LastEpoch(e0, evs);
    if evs == [] {
      OneIncreases(Opened(e0).current);
    } else {
      var n := |evs| - 1;
      assert evs[n] in evs;
      assert forall i :: 0 <= i < n ==> evs[i] in evs;
      EpochsIncrease(e0, evs[..n]);
      AddedIncreases(Logged(Opened(e0), evs[..n]), evs[n]);
    }
  }

  lemma OneIncreases(b: Bucket)
    ensures Increasing([] + [b])
  {
  }

  lemma AddedIncreases(b: Book, ev: Event)
    requires Increasing(Buckets(b)) && b.current.epoch <= ev.epoch
    ensures Increasing(Buckets(Added(b, ev)))
  {
    hide Applied;
    var bs, bs' := Buckets(b), Buckets(Added(b, ev));
    assert forall i :: 0 <= i < |bs| ==> bs'[i].epoch == bs[i].epoch;
    assert bs[|bs| - 1] == b.current;
    if |bs'| > |bs| {
      assert bs'[|bs|].epoch == ev.epoch;
    }
  }

  lemma {:induction false} TotalOfOne(bs: seq<Bucket>, i: nat, p: Path)
    requires Increasing(bs) && i < |bs|
    ensures Total(bs, p, e => e == bs[i].epoch) == ValueAt(bs[i].values, p)
  {
    var n := |bs| - 1;
    if i < n {
      TotalOfOne(bs[..n], i, p);
    } else {
      TotalOfNone(bs[..n], p, bs[n].epoch);
    }
  }

  lemma {:induction false} TotalOfNone(bs: seq<Bucket>, p: Path, epoch: int)
    requires forall b <- bs :: b.epoch != epoch
    ensures Total(bs, p, e => e == epoch) == 0
  {
    if bs != [] {
      TotalOfNone(bs[..|bs| - 1], p, epoch);
    }
  }

  /** Under such a clock every bucket, persisted or current, holds exactly its own epoch's increments. */
  lemma BucketHoldsItsEpoch(e0: int, evs: seq<Event>, p: Path, i: nat)
    requires Ordered(e0, evs) && NeverMeet(evs, p) && OnlyIncs(evs, p) && i < |Buckets(Logged(Opened(e0), evs))|
    ensures var b := Buckets(Logged(Opened(e0), evs))[i];
      ValueAt(b.values, p) == Wrap64(IncSum(evs, p, e => e == b.epoch))
  {
    var bs := Buckets(Logged(Opened(e0), evs));
    EpochsIncrease(e0, evs);
    TotalOfOne(bs, i, p);
    IncsConserved(e0, evs, p, e => e == bs[i].epoch);
  }

  // ---- two time amounts over the same clock ----

  /** An item and the time it was added. */
  datatype Reading = Reading(item: Item, now: int)

  ghost function EventsOf(ta: TimeAmount, rs: seq<Reading>): seq<Event>
    requires ta.amount > 0
  {
    seq(|rs|, i requires 0 <= i < |rs| => Event(rs[i].item, ToTrendrrEpoch(ta, rs[i].now)))
  }

  /** What a bucket opened at epoch e0 and the items after it come to. */
  ghost function BookAfter(ta: TimeAmount, e0: int, rs: seq<Reading>): Book
    requires ta.amount > 0
  {
    Logged(Opened(e0), EventsOf(ta, rs))
  }

  /** Only increments at p, and none in one bucket with an item above p. */
  ghost predicate Undisturbed(ta: TimeAmount, rs: seq<Reading>, p: Path)
    requires ta.amount > 0
  {
    OnlyIncs(EventsOf(ta, rs), p) && NeverMeet(EventsOf(ta, rs), p)
  }

  ghost function VolumeOf(rs: seq<Reading>, p: Path): nat {
    if rs == [] then 0
    else
      var item := rs[|rs| - 1].item;
      VolumeOf(rs[..|rs| - 1], p) + if Split(item.Key) == p then Size(item.Val) else 0
  }

  /** What never meets in the coarse buckets never meets in the fine ones. */
  lemma FineUndisturbed(fine: TimeAmount, coarse: TimeAmount, k: int, rs: seq<Reading>, p: Path)
    requires fine.amount > 0 && coarse.amount > 0 && k > 0 && BucketNanos(coarse) == BucketNanos(fine) * k
    requires Undisturbed(coarse, rs, p)
    ensures Undisturbed(fine, rs, p)
  {
    hide ToTrendrrEpoch;
    hide TruncDiv;
    hide BucketNanos;
    hide Split;
    var cs, fs := EventsOf(coarse, rs), EventsOf(fine, rs);
    forall ev <- fs | Hits(ev, p) ensures ev.item.typ.INC? {
      var i :| 0 <= i < |fs| && fs[i] == ev;
      assert cs[i] in cs;
    }
    forall i: nat, j: nat ensures !Meet(fs, p, i, j) {
      if Meet(fs, p, i, j) {
        FineMeets(fine, coarse, k, rs, p, i, j);
        assert false;
      }
    }
  }

  lemma FineMeets(fine: TimeAmount, coarse: TimeAmount, k: int, rs: seq<Reading>, p: Path, i: nat, j: nat)
    requires fine.amount > 0 && coarse.amount > 0 && k > 0 && BucketNanos(coarse) == BucketNanos(fine) * k
    requires Meet(EventsOf(fine, rs), p, i, j)
    ensures Meet(EventsOf(coarse, rs), p, i, j)
  {
    hide ToTrendrrEpoch;
    hide TruncDiv;
    hide BucketNanos;
    hide Split;
    var cs, fs := EventsOf(coarse, rs), EventsOf(fine, rs);
    forall m | i <= m <= j ensures cs[m].epoch == cs[j].epoch {
      assert fs[m].epoch == fs[j].epoch;
      assert cs[m].epoch == ToTrendrrEpoch(coarse, rs[m].now) && cs[j].epoch == ToTrendrrEpoch(coarse, rs[j].now);
      CoarseBucketFromFine(fine, coarse, k, rs[m].now);
      CoarseBucketFromFine(fine, coarse, k, rs[j].now);
    }
  }

  lemma {:induction false} EventsVolume(ta: TimeAmount, rs: seq<Reading>, p: Path)
    requires ta.amount > 0
    ensures Volume(EventsOf(ta, rs), p) == VolumeOf(rs, p)
  {
    if rs != [] {
      var n := |rs| - 1;
      assert EventsOf(ta, rs)[..n] == EventsOf(ta, rs[..n]);
      EventsVolume(ta, rs[..n], p);
    }
  }

  lemma {:induction false} SameSum(fine: TimeAmount, coarse: TimeAmount, k: int, rs: seq<Reading>, p: Path,
                                   of: int -> bool)
    requires fine.amount > 0 && coarse.amount > 0 && k > 0 && BucketNanos(coarse) == BucketNanos(fine) * k
    ensures IncSum(EventsOf(coarse, rs), p, of) == IncSum(EventsOf(fine, rs), p, e => of(TruncDiv(e, k)))
  {
    hide BucketNanos;
    hide TruncDiv;
    hide ToTrendrrEpoch;
    if rs != [] {
      var n := |rs| - 1;
      assert EventsOf(coarse, rs)[..n] == EventsOf(coarse, rs[..n]);
      assert EventsOf(fine, rs)[..n] == EventsOf(fine, rs[..n]);
      CoarseBucketFromFine(fine, coarse, k, rs[n].now);
      SameSum(fine, coarse, k, rs[..n], p, of);
    }
  }

  /** Roll-up: when one time amount is k times another, the coarse buckets of any epochs hold together
      what the fine buckets of those epochs hold, the epochs of the fine ones divided by k. */
  lemma RollUp(fine: TimeAmount, coarse: TimeAmount, k: int, f0: int, c0: int, rs: seq<Reading>, p: Path,
               of: int -> bool)
    requires fine.amount > 0 && coarse.amount > 0 && k > 0 && BucketNanos(coarse) == BucketNanos(fine) * k
    requires Undisturbed(coarse, rs, p)
    ensures var c := Total(Buckets(BookAfter(coarse, c0, rs)), p, of);
      var f := Total(Buckets(BookAfter(fine, f0, rs)), p, e => of(TruncDiv(e, k)));
      Wrap64(c) == Wrap64(f) && (VolumeOf(rs, p) < TWO_TO_THE_63 ==> c == f)
  {
    hide BucketNanos;
    hide TruncDiv;
    hide ToTrendrrEpoch;
    hide Wrap64;
    var cs, fs, ofFine := EventsOf(coarse, rs), EventsOf(fine, rs), e => of(TruncDiv(e, k));
    FineUndisturbed(fine, coarse, k, rs, p);
    SameSum(fine, coarse, k, rs, p, of);
    IncsConserved(c0, cs, p, of);
    IncsConserved(f0, fs, p, ofFine);
    if VolumeOf(rs, p) < TWO_TO_THE_63 {
      EventsVolume(coarse, rs, p);
      EventsVolume(fine, rs, p);
      IncsConservedExactly(c0, cs, p, of);
      IncsConservedExactly(f0, fs, p, ofFine);
    }
  }

  /** A clock that does not go back from start on. */
  ghost predicate Forward(start: int, rs: seq<Reading>) {
    && (forall r <- rs :: start <= r.now)
    && forall i, j :: 0 <= i < j < |rs| ==> rs[i].now <= rs[j].now
  }

  lemma ForwardOrders(ta: TimeAmount, start: int, rs: seq<Reading>)
    requires ta.amount > 0 && Forward(start, rs)
    ensures Ordered(ToTrendrrEpoch(ta, start), EventsOf(ta, rs))
    ensures Increasing(Buckets(BookAfter(ta, ToTrendrrEpoch(ta, start), rs)))
  {
    hide ToTrendrrEpoch;
    var evs := EventsOf(ta, rs);
    forall ev <- evs ensures ToTrendrrEpoch(ta, start) <= ev.epoch {
      var i :| 0 <= i < |rs| && ev == evs[i];
      assert rs[i] in rs;
      ToTrendrrEpochMonotone(ta, start, rs[i].now);
    }
    forall i, j | 0 <= i < j < |rs| ensures evs[i].epoch <= evs[j].epoch {
      ToTrendrrEpochMonotone(ta, rs[i].now, rs[j].now);
    }
    EpochsIncrease(ToTrendrrEpoch(ta, start), evs);
  }

  /** Under such a clock each single coarse bucket holds the sum of the fine buckets that fall in it. */
  lemma CoarseBucketIsSumOfFine(fine: TimeAmount, coarse: TimeAmount, k: int, f0: int, start: int,
                                rs: seq<Reading>, p: Path, i: nat)
    requires fine.amount > 0 && coarse.amount > 0 && k > 0 && BucketNanos(coarse) == BucketNanos(fine) * k
    requires Undisturbed(coarse, rs, p) && Forward(start, rs) && VolumeOf(rs, p) < TWO_TO_THE_63
    requires i < |Buckets(BookAfter(coarse, ToTrendrrEpoch(coarse, start), rs))|
    ensures var b := Buckets(BookAfter(coarse, ToTrendrrEpoch(coarse, start), rs))[i];
      ValueAt(b.values, p) == Total(Buckets(BookAfter(fine, f0, rs)), p, e => TruncDiv(e, k) == b.epoch)
  {
    hide BucketNanos;
    hide TruncDiv;
    hide ToTrendrrEpoch;
    hide BookAfter;
    var bs := Buckets(BookAfter(coarse, ToTrendrrEpoch(coarse, start), rs));
    var here: int -> bool := e => e == bs[i].epoch;
    ForwardOrders(coarse, start, rs);
    TotalOfOne(bs, i, p);
    RollUp(fine, coarse, k, f0, ToTrendrrEpoch(coarse, start), rs, p, here);
    SamePredicate(Buckets(BookAfter(fine, f0, rs)), p, e => here(TruncDiv(e, k)), e => TruncDiv(e, k) == bs[i].epoch);
    SamePredicate(bs, p, here, e => e == bs[i].epoch);
  }

  lemma {:induction false} SamePredicate(bs: seq<Bucket>, p: Path, f: int -> bool, g: int -> bool)
    requires forall e :: f(e) == g(e)
    ensures Total(bs, p, f) == Total(bs, p, g)
  {
    if bs != [] {
      SamePredicate(bs[..|bs| - 1], p, f, g);
    }
  }

  // ---- keys in each other's way lose increments ----

  /** An item below a key that holds a number is dropped, and the numbers below an item's key go, whatever
      they had counted: exactly these. */
  lemma ConflictingKeysLose(l: Leaves<int64>, item: Item, p: Path)
    requires PrefixFree(l) && p in l
    ensures p < Split(item.Key) ==> Applied(l, item) == l
    ensures p in Applied(l, item) <==> !(Split(item.Key) < p)
    ensures p in Applied(l, item) && Split(item.Key) != p ==> Applied(l, item)[p] == l[p]
  {
    var path := Split(item.Key);
    PrefixOrEqual(path, p);
    assert path < p ==> forall q <- l :: q < path ==> q <= p;
  }
}
