/** Nested Go maps on the heap, and what changing one entry does to every path through them. */
module GoMaps {
  import opened Wrappers
  import opened Paths
  import opened LeafMaps
  import opened TreeContents

  /** What a key of a Go map holds: a value, or another map, by reference. */
  datatype Value<V(!new)> = Leaf(value: V) | Ref(ref: GoMap<V>)

  class GoMap<V(!new)> {
    var m: map<string, Value<V>>

    constructor ()
      ensures m == map[]
    {
      m := map[];
    }

    /** Assigns one entry. Seen from a set of maps, the entry changes, and the maps in more, which hold
        what is assigned, join the set. */
    method Set(k: string, v: Value<V>, ghost maps: set<GoMap<V>>, ghost more: set<GoMap<V>>)
      requires this in maps && maps !! more
      modifies this
      ensures m == old(m)[k := v]
      ensures Snap(maps + more) == Updated(old(Snap(maps)), this, k, Some(v), old(Snap(more)))
    {
      m := m[k := v];
      assert Snap(maps + more) == Updated(old(Snap(maps)), this, k, Some(v), old(Snap(more)));
    }

    /** Removes one entry. */
    method Delete(k: string, ghost maps: set<GoMap<V>>)
      requires this in maps
      modifies this
      ensures m == old(m) - {k}
      ensures Snap(maps) == Updated(old(Snap(maps)), this, k, None, map[])
    {
      m := m - {k};
      assert Snap(maps) == Updated(old(Snap(maps)), this, k, None, map[]);
    }
  }

  /** The contents of some maps at one moment. */
  type Store<V(!new)> = map<GoMap<V>, map<string, Value<V>>>

  ghost function Snap<V(!new)>(maps: set<GoMap<V>>): Store<V>
    reads maps
  {
    map o | o in maps :: o.m
  }

  /** What lies at the end of a non-empty path from root. */
  ghost function Entry<V(!new)>(s: Store<V>, root: GoMap<V>, q: Path): Option<Value<V>>
    requires q != []
    decreases |q|, 0
  {
    match Walk(s, root, q[..|q| - 1])
    case None => None
    case Some(o) => if o in s && q[|q| - 1] in s[o] then Some(s[o][q[|q| - 1]]) else None
  }

  /** The map a path leads to. */
  ghost function Walk<V(!new)>(s: Store<V>, root: GoMap<V>, q: Path): Option<GoMap<V>>
    decreases |q|, 1
  {
    if q == [] then Some(root)
    else
      match Entry(s, root, q)
      case Some(Ref(r)) => Some(r)
      case _ => None
  }

  ghost predicate Closed<V(!new)>(s: Store<V>) {
    forall o <- s, k <- s[o] :: s[o][k].Ref? ==> s[o][k].ref in s
  }

  /** The maps reached from root form a tree: no two paths lead to the same map. */
  ghost predicate Tree<V(!new)>(s: Store<V>, root: GoMap<V>) {
    && root in s && Closed(s)
    && forall p, q :: Walk(s, root, p).Some? && Walk(s, root, p) == Walk(s, root, q) ==> p == q
  }

  /** One entry of one map assigned or deleted; the maps of t come in with it. */
  ghost function Updated<V(!new)>(s: Store<V>, o: GoMap<V>, k: string, val: Option<Value<V>>, t: Store<V>): Store<V>
    requires o in s
  {
    (s + t)[o := match val case None => s[o] - {k} case Some(v) => s[o][k := v]]
  }

  /** What is assigned is a value, or a tree in maps of its own. */
  ghost predicate Separate<V(!new)>(s: Store<V>, val: Option<Value<V>>, t: Store<V>) {
    && s.Keys !! t.Keys && Closed(t)
    && (val.Some? && val.value.Ref? ==> Tree(t, val.value.ref))
  }

  lemma {:induction false} WalkStays<V(!new)>(s: Store<V>, root: GoMap<V>, q: Path)
    requires root in s && Closed(s)
    ensures Walk(s, root, q).Some? ==> Walk(s, root, q).value in s
    decreases |q|
  {
    if q != [] {
      WalkStays(s, root, q[..|q| - 1]);
    }
  }

  /** What is at a path, or below it, in what was assigned. */
  ghost function EntryIn<V(!new)>(val: Option<Value<V>>, t: Store<V>, r: Path): Option<Value<V>> {
    if r == [] then val
    else
      match val
      case Some(Ref(n)) => Entry(t, n, r)
      case _ => None
  }

  ghost function WalkIn<V(!new)>(val: Option<Value<V>>, t: Store<V>, r: Path): Option<GoMap<V>> {
    match val
    case Some(Ref(n)) => Walk(t, n, r)
    case _ => None
  }

  /** Changing the entry k of the map at path p changes what is at p + [k] and below it; at every other
      path nothing changes. */
  lemma {:induction false} EntryAfterUpdate<V(!new)>(s: Store<V>, root: GoMap<V>, p: Path, o: GoMap<V>, k: string,
                                                     val: Option<Value<V>>, t: Store<V>, q: Path)
    requires Tree(s, root) && Walk(s, root, p) == Some(o) && o in s && q != [] && Separate(s, val, t)
    ensures Entry(Updated(s, o, k, val, t), root, q)
         == if p + [k] <= q then EntryIn(val, t, q[|p| + 1..]) else Entry(s, root, q)
    decreases |q|, 0
  {
    hide Updated;
    var path, s' := p + [k], Updated(s, o, k, val, t);
    var q0, z := q[..|q| - 1], q[|q| - 1];
    assert q == q0 + [z];
    WalkAfterUpdate(s, root, p, o, k, val, t, q0);
    WalkStays(s, root, q0);
    UpdatedAt(s, o, k, val, t);
    if path <= q0 {
      assert q[|path|..] == q0[|path|..] + [z];
      if val.Some? && val.value.Ref? {
        WalkStays(t, val.value.ref, q0[|path|..]);
        assert q[|path|..][..|q| - 1 - |path|] == q0[|path|..];
      }
    } else {
      PrefixOrEqual(path, q);
      assert path <= q <==> q0 == p && z == k;
      assert path <= q ==> q[|path|..] == [];
    }
  }

  lemma WalkAfterUpdate<V(!new)>(s: Store<V>, root: GoMap<V>, p: Path, o: GoMap<V>, k: string,
                                 val: Option<Value<V>>, t: Store<V>, q: Path)
    requires Tree(s, root) && Walk(s, root, p) == Some(o) && o in s && Separate(s, val, t)
    ensures Walk(Updated(s, o, k, val, t), root, q)
         == if p + [k] <= q then WalkIn(val, t, q[|p| + 1..]) else Walk(s, root, q)
    decreases |q|, 1
  {
    if q != [] {
      EntryAfterUpdate(s, root, p, o, k, val, t, q);
    }
  }

  lemma UpdatedAt<V(!new)>(s: Store<V>, o: GoMap<V>, k: string, val: Option<Value<V>>, t: Store<V>)
    requires o in s && s.Keys !! t.Keys
    ensures var s' := Updated(s, o, k, val, t);
      && (forall x :: x in s' <==> x in s || x in t)
      && (forall x <- t :: s'[x] == t[x])
      && (forall x <- s :: x != o ==> s'[x] == s[x])
      && (forall z: string :: z != k ==> (z in s'[o] <==> z in s[o]) && (z in s[o] ==> s'[o][z] == s[o][z]))
      && (k in s'[o] <==> val.Some?) && (val.Some? ==> s'[o][k] == val.value)
  {
  }

  lemma ClosedAfterUpdate<V(!new)>(s: Store<V>, o: GoMap<V>, k: string, val: Option<Value<V>>, t: Store<V>)
    requires o in s && Closed(s) && Separate(s, val, t)
    ensures Closed(Updated(s, o, k, val, t))
  {
  }

  lemma TreeAfterUpdate<V(!new)>(s: Store<V>, root: GoMap<V>, p: Path, o: GoMap<V>, k: string,
                                 val: Option<Value<V>>, t: Store<V>)
    requires Tree(s, root) && Walk(s, root, p) == Some(o) && o in s && Separate(s, val, t)
    ensures Tree(Updated(s, o, k, val, t), root)
  {
    hide Walk;
    hide Entry;
    hide Closed;
    ClosedAfterUpdate(s, o, k, val, t);
    var path, s' := p + [k], Updated(s, o, k, val, t);
    forall a, b | Walk(s', root, a).Some? && Walk(s', root, a) == Walk(s', root, b) ensures a == b {
      WalkAfterUpdate(s, root, p, o, k, val, t, a);
      WalkAfterUpdate(s, root, p, o, k, val, t, b);
      WalkStays(s, root, a);
      WalkStays(s, root, b);
      if path <= a {
        WalkStays(t, val.value.ref, a[|path|..]);
        assert a == path + a[|path|..];
      }
      if path <= b {
        WalkStays(t, val.value.ref, b[|path|..]);
        assert b == path + b[|path|..];
      }
    }
  }

  // ---- the contents ----

  ghost function Kind<V(!new)>(e: Option<Value<V>>): Option<Node<V>> {
    match e
    case None => None
    case Some(Leaf(v)) => Some(Present(v))
    case Some(Ref(_)) => Some(Nested)
  }

  /** The maps reached from root hold exactly c. */
  ghost predicate Denotes<V(!new)>(s: Store<V>, root: GoMap<V>, c: Contents<V>) {
    [] !in c && forall q :: q != [] ==> Kind(Entry(s, root, q)) == At(c, q)
  }

  /** What is assigned holds tc, itself included. */
  ghost predicate Holds<V(!new)>(val: Option<Value<V>>, t: Store<V>, tc: Contents<V>) {
    match val
    case None => tc == map[]
    case Some(Leaf(v)) => tc == Single(v)
    case Some(Ref(n)) => exists c :: Denotes(t, n, c) && tc == Whole(c)
  }

  lemma HoldsAt<V(!new)>(val: Option<Value<V>>, t: Store<V>, tc: Contents<V>, r: Path)
    requires Holds(val, t, tc)
    ensures Kind(EntryIn(val, t, r)) == At(tc, r)
  {
    hide Entry;
    if val.Some? && val.value.Ref? {
      var c :| Denotes(t, val.value.ref, c) && tc == Whole(c);
      assert r != [] ==> At(tc, r) == At(c, r);
    }
  }

  lemma {:induction false} NothingBelow<V(!new)>(s: Store<V>, root: GoMap<V>, p: Path, q: Path)
    requires p != [] && p < q && Walk(s, root, p).None?
    ensures Entry(s, root, q).None?
    decreases |q|
  {
    var q0 := q[..|q| - 1];
    PrefixOrEqual(p, q0);
    if p != q0 {
      assert p < q0;
      NothingBelow(s, root, p, q0);
    }
  }

  /** What denotes anything has a map at every path above something. */
  lemma DenotesWellFormed<V(!new)>(s: Store<V>, root: GoMap<V>, c: Contents<V>)
    requires Denotes(s, root, c)
    ensures WellFormed(c)
  {
    forall p <- c, q: Path | q != [] && q < p ensures q in c && c[q].Nested? {
      assert At(c, p) == Kind(Entry(s, root, p)) && At(c, q) == Kind(Entry(s, root, q));
      if Walk(s, root, q).None? {
        NothingBelow(s, root, q, p);
      }
    }
  }

  lemma {:induction false} StepsAreNested<V(!new)>(s: Store<V>, root: GoMap<V>, c: Contents<V>, p: Path, q: Path)
    requires Denotes(s, root, c) && Walk(s, root, p).Some? && q != [] && q <= p
    ensures At(c, q) == Some(Nested)
    decreases |p|
  {
    PrefixOrEqual(q, p);
    assert Kind(Entry(s, root, p)) == At(c, p);
    if q != p {
      assert q <= p[..|p| - 1];
      StepsAreNested(s, root, c, p[..|p| - 1], q);
    }
  }

  /** Assigning or deleting one entry is putting at its path; nothing was in the way. */
  lemma UpdateDenotes<V(!new)>(s: Store<V>, root: GoMap<V>, p: Path, o: GoMap<V>, k: string, val: Option<Value<V>>,
                               t: Store<V>, c: Contents<V>, tc: Contents<V>)
    requires Tree(s, root) && Denotes(s, root, c) && Walk(s, root, p) == Some(o) && o in s
    requires Separate(s, val, t) && Holds(val, t, tc)
    ensures !Barred(c, p + [k])
    ensures var s' := Updated(s, o, k, val, t);
      Tree(s', root) && Denotes(s', root, PutAt(c, p + [k], tc))
  {
    hide Walk;
    hide Entry;
    hide Updated;
    hide Tree;
    hide PutAt;
    hide Holds;
    hide EntryIn;
    var path, s' := p + [k], Updated(s, o, k, val, t);
    TreeAfterUpdate(s, root, p, o, k, val, t);
    forall q <- c | q < path ensures c[q].Nested? {
      StepsAreNested(s, root, c, p, q);
    }
    RootAfterPut(c, path, tc);
    forall q: Path | q != [] ensures Kind(Entry(s', root, q)) == At(PutAt(c, path, tc), q) {
      EntryAfterUpdate(s, root, p, o, k, val, t, q);
      AtAfterPut(c, path, tc, q);
      if path <= q {
        HoldsAt(val, t, tc, q[|path|..]);
      } else if q < path {
        StepsAreNested(s, root, c, p, q);
      }
    }
  }

  lemma EmptyDenotes<V(!new)>(root: GoMap<V>)
    ensures Tree(map[root := map[]], root) && Denotes<V>(map[root := map[]], root, map[])
  {
    var s: Store<V> := map[root := map[]];
    forall q | q != [] ensures Entry(s, root, q).None? && Walk(s, root, q).None? {
      NothingInEmpty(root, q);
    }
  }

  lemma {:induction false} NothingInEmpty<V(!new)>(root: GoMap<V>, q: Path)
    requires q != []
    ensures Entry<V>(map[root := map[]], root, q).None?
    decreases |q|
  {
    if |q| > 1 {
      NothingInEmpty(root, q[..|q| - 1]);
    }
  }

  // ---- sub-maps ----

  lemma {:induction false} EntryOfSub<V(!new)>(s: Store<V>, root: GoMap<V>, k: string, sub: GoMap<V>, q: Path)
    requires Walk(s, root, [k]) == Some(sub)
    ensures Walk(s, root, [k] + q) == Walk(s, sub, q)
    ensures q != [] ==> Entry(s, root, [k] + q) == Entry(s, sub, q)
    decreases |q|
  {
    if q == [] {
      assert [k] + q == [k];
    } else {
      EntryOfSub(s, root, k, sub, q[..|q| - 1]);
      assert ([k] + q)[..|q|] == [k] + q[..|q| - 1];
    }
  }

  lemma RootEntry<V(!new)>(s: Store<V>, root: GoMap<V>, k: string)
    requires root in s
    ensures Entry(s, root, [k]) == if k in s[root] then Some(s[root][k]) else None
  {
    assert [k][..0] == [];
    assert Walk(s, root, []) == Some(root);
  }

  /** A nested map of a tree is a tree of its own. */
  lemma SubTree<V(!new)>(s: Store<V>, root: GoMap<V>, k: string, c: Contents<V>)
    requires Tree(s, root) && Denotes(s, root, c) && k in s[root] && s[root][k].Ref?
    ensures var sub := s[root][k].ref; sub in s && Tree(s, sub) && Denotes(s, sub, Below(c, k))
    ensures At(c, [k]) == Some(Nested) && Sub(c, k) == Whole(Below(c, k))
  {
    var sub := s[root][k].ref;
    RootEntry(s, root, k);
    assert Kind(Entry(s, root, [k])) == At(c, [k]);
    assert [k] + [] == [k];
    forall p, q | Walk(s, sub, p).Some? && Walk(s, sub, p) == Walk(s, sub, q) ensures p == q {
      hide Walk;
      EntryOfSub(s, root, k, sub, p);
      EntryOfSub(s, root, k, sub, q);
      assert [k] + p == [k] + q;
      assert p == ([k] + p)[1..];
    }
    forall q: Path | q != [] ensures Kind(Entry(s, sub, q)) == At(Below(c, k), q) {
      EntryOfSub(s, root, k, sub, q);
      assert Kind(Entry(s, root, [k] + q)) == At(c, [k] + q);
    }
  }
}
