/** The statistics collector (stats/stats.go): per time amount a bucket number and a DynMap of values,
    advanced item by item. BookOf gives a time amount's history, and every step is one step of StatsLog. */
module Stats {
  import opened Wrappers
  import opened Integers
  import opened Paths
  import opened LeafMaps
  import opened TreeContents
  import opened GoMaps
  import opened DynMaps
  import opened TimeAmounts
  import opened StatsLog

  datatype StatsSave = StatsSave(Epoch: int, TimeAmount: TimeAmount, Values: DynMap<int64>)

  /** Only a dotted put can have made these leaves: no key has a dot in it. */
  ghost predicate DottedPutsOnly(l: Leaves<int64>) {
    forall p <- l, s <- p :: Dotless(s)
  }

  lemma AppliedByDottedPut(l: Leaves<int64>, item: Item)
    requires DottedPutsOnly(l)
    ensures DottedPutsOnly(Applied(l, item))
  {
    JoinOfSplit(item.Key);
  }

  /** So a look-up finds what is at the path of the key. */
  lemma FoundAlongDots(l: Leaves<int64>, key: string)
    requires DottedPutsOnly(l)
    ensures Found<int64>(Grown<int64>(l), key) == At<int64>(Grown<int64>(l), Split(key))
    ensures Split(key) in l <==>
            Found<int64>(Grown<int64>(l), key).Some? && Found<int64>(Grown<int64>(l), key).value.Present?
    ensures Split(key) in l ==> Found<int64>(Grown<int64>(l), key) == Some(Present(l[Split(key)]))
  {
    JoinOfSplit(key);
    GrownAt(l, [key]);
    GrownAt(l, Split(key));
    if |Split(key)| > 1 {
      DottedKeyIsNoSegment(key);
      assert forall p <- l :: p != [] ==> p[0] in p && p[0] != key;
    } else {
      assert Split(key) == [key];
    }
  }

  /** The value as an int64, or def where there is none or a map. */
  method MustInt64(mp: DynMap<int64>, key: string, def: int64) returns (v: int64)
    requires mp.Valid()
    ensures v == match Found<int64>(mp.Contents, key) case Some(Present(n)) => n case _ => def
    ensures var at := if [key] in mp.Contents then [key] else Split(key);
            v == if at in mp.Contents && mp.Contents[at].Present? then mp.Contents[at].value else def
  {
    var r := mp.Get(key);
    return if r.Some? && r.value.Leaf? then r.value.value else def;
  }

  /** The history of a time amount, and the objects its current map lies within. */
  datatype File = File(book: Book, foot: set<object>)

  ghost predicate Kept(ta: TimeAmount, sts: StatsSave, f: File)
    reads f.foot
  {
    && ta.amount > 0 && sts.TimeAmount == ta && sts.Epoch == f.book.current.epoch
    && sts.Values in f.foot && sts.Values.Repr <= f.foot
    && sts.Values.Valid() && sts.Values.Contents == Grown<int64>(f.book.current.values)
    && DottedPutsOnly(f.book.current.values)
  }

  /** The put of Add: an increment of what MustInt64 finds, or the value itself. */
  method AddItem(values: DynMap<int64>, item: Item, ghost l: Leaves<int64>)
    requires values.Valid() && values.Contents == Grown<int64>(l) && DottedPutsOnly(l)
    modifies values, values.Repr
    ensures values.Valid() && fresh(values.Repr - old(values.Repr))
    ensures values.Contents == Grown<int64>(Applied(l, item)) && DottedPutsOnly(Applied(l, item))
  {
    hide DynMap.Valid;
    hide Split;
    hide PutAt;
    hide PutLeaf;
    hide Grown;
    hide DottedPutsOnly;
    hide Found;
    hide Wrap64;
    FoundAlongDots(l, item.Key);
    AppliedByDottedPut(l, item);
    ApplicationGrows(values, item, l);
    var val := item.Val;
    if item.typ.INC? {
      val := MustInt64(values, item.Key, 0);
      val := Wrap64(val + item.Val);
    }
    assert val == NewValue(l, item);
    var _ := values.PutWithDot(item.Key, Argument<int64>.Plain(val));
  }

  lemma ApplicationGrows(values: DynMap<int64>, item: Item, l: Leaves<int64>)
    requires values.Valid() && values.Contents == Grown<int64>(l)
    ensures PutAt<int64>(Grown<int64>(l), Split(item.Key), Single<int64>(NewValue(l, item)))
         == Grown<int64>(Applied(l, item))
  {
    hide PutAt;
    hide PutLeaf;
    hide Split;
    hide Wrap64;
    hide Tree;
    hide Inner;
    assert [] in l ==> [] in Grown<int64>(l);
    GrownPut(l, Split(item.Key), NewValue(l, item));
  }

  /** The files' objects are among all, and no two files share one. */
  ghost predicate Apart(files: map<TimeAmount, File>, all: set<object>) {
    && (forall ta <- files :: files[ta].foot <= all)
    && forall ta <- files, tb <- files | ta != tb :: files[ta].foot !! files[tb].foot
  }

  lemma ApartFrom(files: map<TimeAmount, File>, all: set<object>, o: object)
    requires Apart(files, all) && o !in all
    ensures forall ta <- files :: o !in files[ta].foot
  {
  }

  lemma ApartOne(files: map<TimeAmount, File>, all: set<object>, ta: TimeAmount)
    requires Apart(files, all) && ta in files
    ensures files[ta].foot <= all
    ensures forall tb <- files | tb != ta :: files[tb].foot !! files[ta].foot
  {
  }

  lemma ApartAfter(files: map<TimeAmount, File>, all: set<object>, ta: TimeAmount, f: File)
    requires Apart(files, all)
    requires forall o <- f.foot :: o !in all || (ta in files && o in files[ta].foot)
    ensures Apart(files[ta := f], all + f.foot)
  {
  }

  ghost function BooksOf(files: map<TimeAmount, File>): map<TimeAmount, Book> {
    map ta | ta in files :: files[ta].book
  }

  lemma BooksAfter(files: map<TimeAmount, File>, ta: TimeAmount, f: File)
    ensures BooksOf(files[ta := f]) == BooksOf(files)[ta := f.book]
    ensures ta in files <==> ta in BooksOf(files)
    ensures ta in files ==> BooksOf(files)[ta] == files[ta].book
  {
  }

  lemma CountsInPlace(b: Book, item: Item)
    ensures Added(b, Event(item, b.current.epoch)).current == Bucket(b.current.epoch, Applied(b.current.values, item))
  {
  }

  lemma RollThenCount(b: Book, item: Item, epoch: int)
    ensures RolledOver(b, epoch).current.epoch == epoch
    ensures Added(RolledOver(b, epoch), Event(item, epoch)) == Added(b, Event(item, epoch))
  {
  }

  method NewSave(ta: TimeAmount, epoch: int, ghost closed: seq<Bucket>) returns (sts: StatsSave, ghost f: File)
    requires ta.amount > 0
    ensures Kept(ta, sts, f) && fresh(f.foot) && f.book == Book(Bucket(epoch, map[]), closed)
  {
    var values := new DynMap<int64>();
    sts := StatsSave(epoch, ta, values);
    f := File(Book(Bucket(epoch, map[]), closed), {values} + values.Repr);
  }

  /** One item into a save. */
  method AddItemTo(ta: TimeAmount, sts: StatsSave, item: Item, ghost f: File) returns (ghost g: File)
    requires Kept(ta, sts, f)
    modifies f.foot
    ensures Kept(ta, sts, g) && f.foot <= g.foot && fresh(g.foot - f.foot)
    ensures g.book == Added(f.book, Event(item, f.book.current.epoch))
  {
    hide DynMap.Valid;
    hide Added;
    hide Applied;
    CountsInPlace(f.book, item);
    AddItem(sts.Values, item, f.book.current.values);
    g := File(Added(f.book, Event(item, f.book.current.epoch)), f.foot + sts.Values.Repr);
  }

  class Stats {
    var items: map<TimeAmount, StatsSave>
    ghost var files: map<TimeAmount, File>
    ghost var Repr: set<object>

    ghost predicate Valid()
      reads this, Repr
    {
      && this !in Repr && files.Keys == items.Keys && Apart(files, Repr)
      && forall ta <- items :: Kept(ta, items[ta], files[ta])
    }

    /** Per time amount the current bucket and what persist was given before it. */
    ghost function Books(): map<TimeAmount, Book>
      reads this
    {
      BooksOf(files)
    }

    lemma Keeps(ta: TimeAmount)
      requires Valid() && ta in Books()
      ensures ta in items && ta.amount > 0 && items[ta].TimeAmount == ta
      ensures items[ta].Epoch == Books()[ta].current.epoch
      ensures items[ta].Values.Contents == Grown<int64>(Books()[ta].current.values)
    {
    }

    constructor ()
      ensures Valid() && items == map[] && Books() == map[] && fresh(Repr)
    {
      items := map[];
      files := map[];
      Repr := {};
    }

    /** A new, empty bucket for a time amount. */
    method Open(ta: TimeAmount, epoch: int, ghost closed: seq<Bucket>) returns (ghost f: File)
      requires Valid() && ta.amount > 0
      modifies this
      ensures Valid() && files == old(files)[ta := f] && f.book == Book(Bucket(epoch, map[]), closed)
      ensures Repr == old(Repr) + f.foot && fresh(f.foot)
    {
      hide Kept;
      hide Apart;
      var sts;
      sts, f := NewSave(ta, epoch, closed);
      ApartFrom(files, Repr, this);
      ApartAfter(files, Repr, ta, f);
      items, files, Repr := items[ta := sts], files[ta := f], Repr + f.foot;
    }

    /** One item into the current bucket of a time amount. */
    method Count(ta: TimeAmount, item: Item) returns (ghost f: File)
      requires Valid() && ta in files
      modifies this, Repr
      ensures Valid() && files == old(files)[ta := f]
      ensures f.book == Added(old(files)[ta].book, Event(item, old(files)[ta].book.current.epoch))
      ensures Repr == old(Repr) + f.foot && fresh(f.foot - old(Repr))
    {
      hide Kept;
      hide Added;
      hide Apart;
      ApartFrom(files, Repr, this);
      ApartOne(files, Repr, ta);
      var sts := items[ta];
      f := AddItemTo(ta, sts, item, files[ta]);
      ApartAfter(files, Repr, ta, f);
      files, Repr := files[ta := f], Repr + f.foot;
    }

    /** A time amount whose bucket number has changed gets a new bucket, and persist the old one. */
    method Roll(ta: TimeAmount, epoch: int)
      requires Valid() && ta in Books()
      modifies this
      ensures Valid() && fresh(Repr - old(Repr))
      ensures Books() == old(Books())[ta := RolledOver(old(Books())[ta], epoch)]
    {
      Keeps(ta);
      hide Valid;
      if epoch != items[ta].Epoch {
        BooksAfter(files, ta, files[ta]);
        ghost var was := files;
        ghost var f := Open(ta, epoch, Buckets(Books()[ta]));
        BooksAfter(was, ta, f);
      }
    }

    /** The body of Add's loop, for one time amount. */
    method AddTo(ta: TimeAmount, item: Item, epoch: int)
      requires Valid() && ta in Books()
      modifies this, Repr
      ensures Valid() && fresh(Repr - old(Repr))
      ensures Books() == old(Books())[ta := Added(old(Books())[ta], Event(item, epoch))]
    {
      hide Valid;
      hide Added;
      hide RolledOver;
      hide BooksOf;
      RollThenCount(Books()[ta], item, epoch);
      Roll(ta, epoch);
      ghost var was := files;
      BooksAfter(was, ta, File(Books()[ta], {}));
      ghost var f := Count(ta, item);
      BooksAfter(was, ta, f);
    }

    /** now has the clock reading taken for each time amount. */
    method Add(item: Item, now: map<TimeAmount, int>)
      requires Valid() && Books().Keys <= now.Keys
      modifies this, Repr
      ensures Valid() && fresh(Repr - old(Repr))
      ensures Books() == AllAdded(old(Books()), item, now) && Books().Keys == old(Books()).Keys
      ensures forall ta <- old(Books()) ::
                && ta in Books() && ta.amount > 0
                && Books()[ta] == Added(old(Books())[ta], Event(item, ToTrendrrEpoch(ta, now[ta])))
    {
      hide Added;
      hide ToTrendrrEpoch;
      hide Kept;
      hide Apart;
      var todo := items.Keys;
      ghost var was := Books();
      forall ta <- was ensures ta.amount > 0 {
        Keeps(ta);
      }
      while todo != {}
        invariant Valid() && fresh(Repr - old(Repr)) && todo <= Books().Keys == was.Keys
        invariant forall ta <- was :: Books()[ta] == if ta in todo then was[ta] else OneAdded(was, item, now, ta)
      {
        var ta :| ta in todo;
        hide Books;
        hide Valid;
        Keeps(ta);
        AddTo(ta, item, ToTrendrrEpoch(ta, now[ta]));
        todo := todo - {ta};
      }
    }

    /** Clones of everything: no map is shared with the collector. */
    method Get() returns (mp: map<TimeAmount, StatsSave>, ghost objects: set<object>)
      requires Valid()
      ensures mp.Keys == Books().Keys && Shown(mp, Books(), objects) && fresh(objects)
      ensures forall ta <- mp ::
                && mp[ta].Values in objects && mp[ta].Values.Repr <= objects && mp[ta].TimeAmount == ta
                && mp[ta].Epoch == Books()[ta].current.epoch
                && mp[ta].Values.Contents == Grown<int64>(Books()[ta].current.values)
    {
      hide DynMap.Valid;
      hide Kept;
      hide Apart;
      hide DottedPutsOnly;
      mp := map[];
      objects := {};
      var todo := items.Keys;
      while todo != {}
        invariant todo <= items.Keys && mp.Keys == items.Keys - todo
        invariant Shown(mp, Books(), objects) && fresh(objects)
      {
        var ta :| ta in todo;
        CanCopy(ta);
        var values := items[ta].Values.Clone();
        mp := mp[ta := StatsSave(items[ta].Epoch, items[ta].TimeAmount, values)];
        objects := objects + {values} + values.Repr;
        todo := todo - {ta};
      }
    }

    lemma CanCopy(ta: TimeAmount)
      requires Valid() && ta in items
      ensures ta in Books() && items[ta].Values.Valid() && items[ta].TimeAmount == ta
      ensures items[ta].Epoch == Books()[ta].current.epoch
      ensures items[ta].Values.Contents == Grown<int64>(Books()[ta].current.values)
    {
    }

    /** Items and requests for the state as they come out of the channels. What a reply shows is the state
        when it was taken, still after everything that came later. */
    method EventLoop(cmds: seq<Command>) returns (replies: seq<map<TimeAmount, StatsSave>>, ghost taken: seq<Taken>)
      requires Valid() && forall c <- cmds | c.AddOne? :: Books().Keys <= c.now.Keys
      modifies this, Repr
      ensures Valid() && Books() == Run(old(Books()), cmds)
      ensures |replies| == |taken| && TakenAtGets(cmds, |cmds|, taken)
      ensures forall i :: 0 <= i < |replies| ==>
                && replies[i].Keys == old(Books()).Keys
                && Shown(replies[i], Run(old(Books()), Until(cmds, taken[i].at)), taken[i].objects)
    {
      hide Valid;
      hide Shown;
      hide BooksOf;
      hide AllAdded;
      hide TakenAtGets;
      NothingTaken(cmds);
      ghost var start := Books();
      replies, taken := [], [];
      assert cmds[..0] == [];
      for n := 0 to |cmds|
        invariant Valid() && Books() == Run(start, cmds[..n]) && Books().Keys == start.Keys
        invariant fresh(Repr - old(Repr))
        invariant |replies| == |taken| && TakenAtGets(cmds, n, taken)
        invariant forall i :: 0 <= i < |replies| ==>
                    && replies[i].Keys == start.Keys && fresh(taken[i].objects) && taken[i].objects !! Repr
                    && Shown(replies[i], Run(start, Until(cmds, taken[i].at)), taken[i].objects)
      {
        RunSnoc(start, cmds, n);
        if cmds[n].AddOne? {
          TakenSnoc(cmds, n, taken, Taken(n, {}));
          Add(cmds[n].item, cmds[n].now);
        } else {
          var reply, objects := Get();
          TakenSnoc(cmds, n, taken, Taken(n, objects));
          replies, taken := replies + [reply], taken + [Taken(n, objects)];
        }
      }
      assert cmds[..|cmds|] == cmds;
    }
  }

  /** What the clones show is the current bucket of each time amount. */
  ghost predicate Shown(mp: map<TimeAmount, StatsSave>, books: map<TimeAmount, Book>, objects: set<object>)
    reads objects
  {
    forall ta <- mp ::
      && mp[ta].Values in objects && mp[ta].Values.Repr <= objects && mp[ta].Values.Valid() && mp[ta].TimeAmount == ta
      && ta in books && mp[ta].Epoch == books[ta].current.epoch
      && mp[ta].Values.Contents == Grown<int64>(books[ta].current.values)
  }

  /** The book of one time amount after an item. */
  ghost function OneAdded(books: map<TimeAmount, Book>, item: Item, now: map<TimeAmount, int>, ta: TimeAmount): Book
    requires ta in books
  {
    if ta.amount > 0 && ta in now then Added(books[ta], Event(item, ToTrendrrEpoch(ta, now[ta]))) else books[ta]
  }

  ghost function AllAdded(books: map<TimeAmount, Book>, item: Item, now: map<TimeAmount, int>): map<TimeAmount, Book> {
    map ta | ta in books :: OneAdded(books, item, now, ta)
  }

  // ---- runs ----

  datatype Command = AddOne(item: Item, now: map<TimeAmount, int>) | GetAll

  /** Which command a reply answers, and the objects it hands out. */
  datatype Taken = Taken(at: nat, objects: set<object>)

  /** The first n commands' requests, and only those, are answered, in order. */
  ghost predicate TakenAtGets(cmds: seq<Command>, n: nat, taken: seq<Taken>)
    requires n <= |cmds|
  {
    && (forall i :: 0 <= i < |taken| ==> taken[i].at < n && cmds[taken[i].at].GetAll?)
    && (forall i, j :: 0 <= i < j < |taken| ==> taken[i].at < taken[j].at)
    && forall k :: 0 <= k < n && cmds[k].GetAll? ==> Answered(taken, k)
  }

  ghost function Until(cmds: seq<Command>, n: nat): seq<Command> {
    if n <= |cmds| then cmds[..n] else cmds
  }

  ghost predicate Answered(taken: seq<Taken>, k: nat) {
    exists i :: 0 <= i < |taken| && taken[i].at == k
  }

  ghost function Run(books: map<TimeAmount, Book>, cmds: seq<Command>): map<TimeAmount, Book> {
    if cmds == [] then books
    else
      var before, c := Run(books, cmds[..|cmds| - 1]), cmds[|cmds| - 1];
      if c.AddOne? then AllAdded(before, c.item, c.now) else before
  }

  lemma RunSnoc(books: map<TimeAmount, Book>, cmds: seq<Command>, n: nat)
    requires n < |cmds|
    ensures var before := Run(books, cmds[..n]);
      Run(books, cmds[..n + 1]) == if cmds[n].AddOne? then AllAdded(before, cmds[n].item, cmds[n].now) else before
  {
    assert cmds[..n + 1][..n] == cmds[..n];
  }

  lemma NothingTaken(cmds: seq<Command>)
    ensures TakenAtGets(cmds, 0, [])
  {
  }

  lemma TakenSnoc(cmds: seq<Command>, n: nat, taken: seq<Taken>, t: Taken)
    requires n < |cmds| && TakenAtGets(cmds, n, taken)
    ensures cmds[n].AddOne? ==> TakenAtGets(cmds, n + 1, taken)
    ensures cmds[n].GetAll? && t.at == n ==> TakenAtGets(cmds, n + 1, taken + [t])
  {
    AnsweredSnoc(taken, t);
  }

  lemma AnsweredSnoc(taken: seq<Taken>, t: Taken)
    ensures forall k: nat :: Answered(taken + [t], k) <==> Answered(taken, k) || t.at == k
  {
    forall k: nat ensures Answered(taken + [t], k) <==> Answered(taken, k) || t.at == k {
      if Answered(taken, k) {
        var i :| 0 <= i < |taken| && taken[i].at == k;
        assert (taken + [t])[i].at == k;
      }
      if t.at == k {
        assert (taken + [t])[|taken|].at == k;
      }
    }
  }

  /** The events of one time amount. */
  ghost function EventsFor(ta: TimeAmount, cmds: seq<Command>): seq<Event>
    requires ta.amount > 0 && forall c <- cmds | c.AddOne? :: ta in c.now
  {
    if cmds == [] then []
    else
      var c := cmds[|cmds| - 1];
      assert c in cmds;
      EventsFor(ta, cmds[..|cmds| - 1]) + if c.AddOne? then [Event(c.item, ToTrendrrEpoch(ta, c.now[ta]))] else []
  }

  /** Every item is one event of every time amount, in order; requests are none. */
  lemma {:induction false} EventsInOrder(ta: TimeAmount, a: seq<Command>, c: Command, b: seq<Command>)
    requires ta.amount > 0 && forall d <- a + [c] + b | d.AddOne? :: ta in d.now
    ensures forall d <- a | d.AddOne? :: d in a + [c] + b && ta in d.now
    ensures forall d <- b | d.AddOne? :: d in a + [c] + b && ta in d.now
    ensures c.AddOne? ==> c in a + [c] + b && ta in c.now
    ensures EventsFor(ta, a + [c] + b) ==
            EventsFor(ta, a) + (if c.AddOne? then [Event(c.item, ToTrendrrEpoch(ta, c.now[ta]))] else [])
            + EventsFor(ta, b)
    decreases |b|
  {
    hide ToTrendrrEpoch;
    assert c in a + [c] + b;
    assert forall d <- a :: d in a + [c] + b;
    assert forall d <- b :: d in a + [c] + b;
    if b == [] {
      assert a + [c] + b == a + [c] && (a + [c])[..|a|] == a;
    } else {
      var n := |b| - 1;
      assert (a + [c] + b)[..|a| + 1 + n] == a + [c] + b[..n];
      assert forall d <- a + [c] + b[..n] :: d in a + [c] + b;
      EventsInOrder(ta, a, c, b[..n]);
    }
  }

  /** A run of the collector is, time amount by time amount, the log of its events. */
  lemma {:induction false} RunIsLogged(books: map<TimeAmount, Book>, cmds: seq<Command>, ta: TimeAmount)
    requires ta in books && ta.amount > 0 && forall c <- cmds | c.AddOne? :: ta in c.now
    ensures ta in Run(books, cmds) && Run(books, cmds)[ta] == Logged(books[ta], EventsFor(ta, cmds))
  {
    hide Added;
    hide ToTrendrrEpoch;
    if cmds != [] {
      var n := |cmds| - 1;
      var c := cmds[n];
      assert c in cmds;
      RunIsLogged(books, cmds[..n], ta);
      var evs := EventsFor(ta, cmds);
      if c.AddOne? {
        assert evs[..|evs| - 1] == EventsFor(ta, cmds[..n]);
      } else {
        assert evs == EventsFor(ta, cmds[..n]);
      }
    }
  }

  /** The items with the reading of one time amount. */
  ghost function ReadingsFor(ta: TimeAmount, cmds: seq<Command>): seq<Reading>
    requires forall c <- cmds | c.AddOne? :: ta in c.now
  {
    if cmds == [] then []
    else
      var c := cmds[|cmds| - 1];
      assert c in cmds;
      ReadingsFor(ta, cmds[..|cmds| - 1]) + if c.AddOne? then [Reading(c.item, c.now[ta])] else []
  }

  lemma {:induction false} EventsFromReadings(ta: TimeAmount, tb: TimeAmount, cmds: seq<Command>)
    requires ta.amount > 0 && forall c <- cmds | c.AddOne? :: ta in c.now && tb in c.now && c.now[ta] == c.now[tb]
    ensures EventsFor(ta, cmds) == EventsOf(ta, ReadingsFor(tb, cmds))
  {
    hide ToTrendrrEpoch;
    if cmds != [] {
      assert cmds[|cmds| - 1] in cmds;
      EventsFromReadings(ta, tb, cmds[..|cmds| - 1]);
    }
  }

  /** So two time amounts of one collector, read off one clock, roll up. */
  lemma CollectorRollsUp(first: map<TimeAmount, Book>, cmds: seq<Command>, fine: TimeAmount, coarse: TimeAmount, k: int,
                         p: Path, of: int -> bool)
    requires fine.amount > 0 && coarse.amount > 0 && k > 0 && BucketNanos(coarse) == BucketNanos(fine) * k
    requires fine in first && first[fine] == Opened(first[fine].current.epoch)
    requires coarse in first && first[coarse] == Opened(first[coarse].current.epoch)
    requires forall c <- cmds | c.AddOne? :: fine in c.now && coarse in c.now && c.now[fine] == c.now[coarse]
    requires Undisturbed(coarse, ReadingsFor(fine, cmds), p) && VolumeOf(ReadingsFor(fine, cmds), p) < TWO_TO_THE_63
    ensures var last := Run(first, cmds);
      && fine in last && coarse in last
      && Total(Buckets(last[coarse]), p, of) == Total(Buckets(last[fine]), p, e => of(TruncDiv(e, k)))
  {
    hide ToTrendrrEpoch;
    hide BucketNanos;
    hide TruncDiv;
    hide Run;
    hide Total;
    hide Undisturbed;
    hide VolumeOf;
    RunIsLogged(first, cmds, fine);
    RunIsLogged(first, cmds, coarse);
    EventsFromReadings(fine, fine, cmds);
    EventsFromReadings(coarse, fine, cmds);
    RollUp(fine, coarse, k, first[fine].current.epoch, first[coarse].current.epoch, ReadingsFor(fine, cmds), p, of);
  }

  // ---- starting ----

  datatype Started = Running(stats: Stats) | Refused(error: string) | Panicked

  /** A text that stops New: no time amount, or none of it. */
  predicate Bad(text: string) {
    Parse(text).Err? || Parse(text).value.amount == 0
  }

  predicate FirstBad(texts: seq<string>, i: nat) {
    i < |texts| && Bad(texts[i]) && forall j :: 0 <= j < i ==> !Bad(texts[j])
  }

  ghost predicate StartedAt(texts: seq<string>, now: seq<int>, i: nat, ta: TimeAmount, b: Book) {
    && i < |texts| && i < |now| && Parse(texts[i]) == Ok(ta)
    && ta.amount > 0 && b == Opened(ToTrendrrEpoch(ta, now[i]))
  }

  ghost predicate SomeStart(texts: seq<string>, now: seq<int>, ta: TimeAmount, b: Book) {
    exists i: nat :: StartedAt(texts, now, i, ta, b)
  }

  /** The first text that is no time amount is refused, a zero amount before it divides by zero, and
      otherwise every time amount starts with an empty bucket at a reading of the clock. */
  method New(timeamounts: seq<string>, now: seq<int>) returns (r: Started)
    requires |now| == |timeamounts|
    ensures r.Running? <==> forall i :: 0 <= i < |timeamounts| ==> !Bad(timeamounts[i])
    ensures r.Refused? <==> exists i: nat :: FirstBad(timeamounts, i) && Parse(timeamounts[i]).Err?
    ensures r.Panicked? <==> exists i: nat :: FirstBad(timeamounts, i) && Parse(timeamounts[i]).Ok?
    ensures r.Running? ==> fresh(r.stats) && fresh(r.stats.Repr) && r.stats.Valid()
    ensures r.Running? ==> forall ta <- r.stats.Books() :: SomeStart(timeamounts, now, ta, r.stats.Books()[ta])
    ensures r.Running? ==> forall i :: 0 <= i < |timeamounts| ==> Parse(timeamounts[i]).value in r.stats.Books()
  {
    hide Parse;
    hide Kept;
    hide Apart;
    hide BooksOf;
    hide ToTrendrrEpoch;
    var s := new Stats();
    for i := 0 to |timeamounts|
      invariant fresh(s) && fresh(s.Repr) && s.Valid()
      invariant forall j :: 0 <= j < i ==> !Bad(timeamounts[j]) && Parse(timeamounts[j]).value in s.Books()
      invariant forall ta <- s.Books() :: SomeStart(timeamounts, now, ta, s.Books()[ta])
    {
      var ta := Parse(timeamounts[i]);
      ParsedAmount(timeamounts[i]);
      assert Bad(timeamounts[i]) ==> FirstBad(timeamounts, i) && forall k: nat :: FirstBad(timeamounts, k) ==> k == i;
      if ta.Err? {
        return Refused(ta.error);
      }
      if ta.value.amount == 0 {
        return Panicked;
      }
      ghost var was, books := s.files, s.Books();
      ghost var f := s.Open(ta.value, ToTrendrrEpoch(ta.value, now[i]), []);
      BooksAfter(was, ta.value, f);
      assert s.Books() == books[ta.value := f.book];
      assert StartedAt(timeamounts, now, i, ta.value, f.book);
    }
    return Running(s);
  }

  lemma ParsedAmount(text: string)
    ensures Parse(text).Ok? ==> Parse(text).value.amount >= 0
  {
  }
}
