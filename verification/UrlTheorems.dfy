/** What flattening and rebuilding do to the contents, for every order in which Go visits the maps. */
module UrlTheorems {
  import opened Wrappers
  import opened Paths
  import opened LeafMaps
  import opened TreeContents
  import opened GoMaps
  import opened DynMaps
  import opened UrlEncoding

  // ---- rebuilding, on the values alone and on the maps alone ----

  ghost predicate Keys(order: seq<string>, values: Values) {
    forall k <- order :: k in values
  }

  ghost function RebuiltLeaves(l: Leaves<Scalar>, values: Values, order: seq<string>): Leaves<Scalar>
    requires Keys(order, values)
  {
    if order == [] then l
    else
      var n := |order| - 1;
      assert order[n] in order;
      PutLeaf(RebuiltLeaves(l, values, order[..n]), PathOfUrlKey(order[n]), ValueOf(values[order[n]]))
  }

  lemma PutKeepsWellFormed<V>(c: Contents<V>, path: Path, v: V)
    requires WellFormed(c) && path != []
    ensures WellFormed(PutAt(c, path, Single(v)))
  {
    if !Barred(c, path) {
      var c' := PutAt(c, path, Single(v));
      RootAfterPut(c, path, Single(v));
      forall p <- c', q: Path | q != [] && q < p ensures q in c' && c'[q].Nested? {
        PutKeepsStep(c, path, v, p, q);
      }
    }
  }

  lemma PutKeepsStep<V>(c: Contents<V>, path: Path, v: V, p: Path, q: Path)
    requires WellFormed(c) && path != [] && !Barred(c, path)
    requires p in PutAt(c, path, Single(v)) && q != [] && q < p
    ensures At(PutAt(c, path, Single(v)), q) == Some(Nested)
  {
    AtAfterPut(c, path, Single(v), p);
    AtAfterPut(c, path, Single(v), q);
    PrefixOrEqual(path, p);
    assert path <= p ==> (p[|path|..] == [] <==> |p| == |path|);
    assert path <= q ==> path <= p && |p| > |path|;
    if path <= p {
      assert p == path;
    } else if p < path {
      assert q < path;
    }
  }

  /** The values come out as if there were no maps. */
  lemma {:induction false} LeavesOfRebuilt(c: Contents<Scalar>, values: Values, order: seq<string>)
    requires WellFormed(c) && Keys(order, values)
    ensures WellFormed(Rebuilt(c, values, order))
    ensures LeavesOf(Rebuilt(c, values, order)) == RebuiltLeaves(LeavesOf(c), values, order)
  {
    hide WellFormed;
    hide PutAt;
    hide PutLeaf;
    hide LeavesOf;
    hide PathOfUrlKey;
    if order != [] {
      var n := |order| - 1;
      assert order[n] in order;
      var path := PathOfUrlKey(order[n]);
      PathIsNotRoot(order[n]);
      LeavesOfRebuilt(c, values, order[..n]);
      RootOutside(Rebuilt(c, values, order[..n]));
      PutKeepsWellFormed(Rebuilt(c, values, order[..n]), path, ValueOf(values[order[n]]));
      LeavesAfterPut(Rebuilt(c, values, order[..n]), path, ValueOf(values[order[n]]));
    }
  }

  lemma PathIsNotRoot(k: string)
    ensures PathOfUrlKey(k) != []
  {
  }

  lemma RootOutside<V>(c: Contents<V>)
    requires WellFormed(c)
    ensures [] !in c
  {
  }

  /** The key's path is at or above m. */
  ghost predicate Covers(order: seq<string>, m: Path) {
    exists k <- order :: PathOfUrlKey(k) <= m
  }

  ghost predicate IsNested<V>(c: Contents<V>, m: Path) {
    At(c, m) == Some(Nested)
  }

  lemma NestedAfterPut(c: Contents<Scalar>, path: Path, v: Scalar, m: Path)
    requires WellFormed(c) && path != [] && m != []
    ensures IsNested(PutAt(c, path, Single(v)), m) <==>
            if Barred(c, path) then IsNested(c, m)
            else m < path || (!(path <= m) && IsNested(c, m))
    ensures Barred(c, path) && path <= m ==> !IsNested(c, m)
  {
    PrefixOrEqual(path, m);
    if Barred(c, path) {
      var r :| r in c && r < path && c[r].Present?;
      assert r != [] && (path <= m ==> r < m);
    } else {
      AtAfterPut(c, path, Single(v), m);
    }
  }

  /** Nested maps afterwards: those that no key is at or above, and those on the way to a value. */
  lemma {:induction false} NestedOfRebuilt(c: Contents<Scalar>, values: Values, order: seq<string>, m: Path)
    requires WellFormed(c) && Keys(order, values) && m != []
    ensures IsNested(Rebuilt(c, values, order), m) <==>
            (IsNested(c, m) && !Covers(order, m)) || Inner(LeavesOf(Rebuilt(c, values, order)), m)
  {
    hide WellFormed;
    hide PutAt;
    hide PutLeaf;
    hide LeavesOf;
    hide PathOfUrlKey;
    hide IsNested;
    if order == [] {
      if Inner(LeavesOf(c), m) {
        InnerIsNested(c, m);
      }
    } else {
      var n := |order| - 1;
      assert order[n] in order && order == order[..n] + [order[n]];
      var c1, path, v := Rebuilt(c, values, order[..n]), PathOfUrlKey(order[n]), ValueOf(values[order[n]]);
      PathIsNotRoot(order[n]);
      NestedOfRebuilt(c, values, order[..n], m);
      LeavesOfRebuilt(c, values, order[..n]);
      RootOutside(c1);
      LeavesAfterPut(c1, path, v);
      BarredIsBlocked(c1, path);
      NestedAfterPut(c1, path, v, m);
      InnerPut(LeavesOf(c1), path, v, m);
      assert Covers(order, m) <==> Covers(order[..n], m) || path <= m;
    }
  }

  lemma InnerIsNested<V>(c: Contents<V>, m: Path)
    requires WellFormed(c) && m != [] && Inner(LeavesOf(c), m)
    ensures IsNested(c, m)
  {
    var p :| p in LeavesOf(c) && m < p;
    assert p in c;
  }

  lemma InnerPut<V>(l: Leaves<V>, path: Path, v: V, m: Path)
    ensures Inner(PutLeaf(l, path, v), m) <==>
            if Blocked(l, path) then Inner(l, m) else m < path || (!(path <= m) && Inner(l, m))
  {
    if !Blocked(l, path) {
      InnerAfterPut(l, path, v, m);
      PrefixOrEqual(path, m);
      PrefixOrEqual(m, path);
      if m < path {
        assert path in PutLeaf(l, path, v);
      }
    }
  }

  lemma SameByLeaves<V>(a: Contents<V>, b: Contents<V>)
    requires [] !in a && [] !in b && LeavesOf(a) == LeavesOf(b)
    requires forall m: Path :: m != [] ==> (IsNested(a, m) <==> IsNested(b, m))
    ensures a == b
  {
    forall q: Path | q != [] ensures At(a, q) == At(b, q) {
      assert q in LeavesOf(a) <==> q in LeavesOf(b);
      assert IsNested(a, q) <==> IsNested(b, q);
    }
    SameContents(a, b);
  }

  // ---- when the order makes no difference ----

  /** Putting the keys as map entries, without regard to leaves above and below. */
  ghost function Inserted(m: Leaves<Scalar>, values: Values, order: seq<string>): Leaves<Scalar>
    requires forall k <- order :: k in values
  {
    if order == [] then m
    else
      var n := |order| - 1;
      assert order[n] in order;
      Inserted(m, values, order[..n])[PathOfUrlKey(order[n]) := ValueOf(values[order[n]])]
  }

  lemma {:induction false} RebuiltIsMinimal(m: Leaves<Scalar>, values: Values, order: seq<string>)
    requires Keys(order, values)
    ensures RebuiltLeaves(Minimal(m), values, order) == Minimal(Inserted(m, values, order))
  {
    if order != [] {
      var n := |order| - 1;
      assert order[n] in order;
      RebuiltIsMinimal(m, values, order[..n]);
      PutLeafIsMinimal(Inserted(m, values, order[..n]), PathOfUrlKey(order[n]), ValueOf(values[order[n]]));
    }
  }

  ghost predicate Named(keys: seq<string>, p: Path) {
    exists k <- keys :: PathOfUrlKey(k) == p
  }

  /** The value comes from one of the keys. */
  ghost predicate Gives(values: Values, keys: seq<string>, p: Path, v: Scalar)
    requires Keys(keys, values)
  {
    exists k <- keys :: PathOfUrlKey(k) == p && v == ValueOf(values[k])
  }

  lemma {:induction false} InsertedAt(m: Leaves<Scalar>, values: Values, order: seq<string>, p: Path)
    requires Keys(order, values)
    ensures p in Inserted(m, values, order) <==> p in m || Named(order, p)
    ensures Named(order, p) ==> Gives(values, order, p, Inserted(m, values, order)[p])
    ensures !Named(order, p) && p in m ==> Inserted(m, values, order)[p] == m[p]
  {
    hide PathOfUrlKey;
    hide ValueOf;
    if order != [] {
      var n := |order| - 1;
      assert order[n] in order;
      assert order == order[..n] + [order[n]];
      InsertedAt(m, values, order[..n], p);
    }
  }

  /** A key's path lies strictly above p. */
  ghost predicate BlockedByKey(values: Values, p: Path) {
    exists k <- values :: PathOfUrlKey(k) < p
  }

  lemma InsertedBlocks(m: Leaves<Scalar>, values: Values, order: seq<string>, p: Path)
    requires Lists(order, values.Keys)
    ensures Keys(order, values)
    ensures Blocked(Inserted(m, values, order), p) <==> Blocked(m, p) || BlockedByKey(values, p)
  {
    hide PathOfUrlKey;
    hide ValueOf;
    hide Inserted;
    var ins := Inserted(m, values, order);
    if Blocked(ins, p) {
      var r :| r in ins && r < p;
      InsertedAt(m, values, order, r);
    }
    if Blocked(m, p) {
      var r :| r in m && r < p;
      InsertedAt(m, values, order, r);
    }
    if BlockedByKey(values, p) {
      var k :| k in values && PathOfUrlKey(k) < p;
      assert k in order;
      InsertedAt(m, values, order, PathOfUrlKey(k));
    }
  }

  /** Two keys that name one path, with no value on the way to it, carry the same values. */
  ghost predicate NoClash(l: Leaves<Scalar>, values: Values) {
    forall j <- values, k <- values ::
      PathOfUrlKey(j) == PathOfUrlKey(k) && !Blocked(l, PathOfUrlKey(k)) && !BlockedByKey(values, PathOfUrlKey(k))
      ==> values[j] == values[k]
  }

  lemma ValueOfInjective(a: seq<string>, b: seq<string>)
    requires ValueOf(a) == ValueOf(b)
    ensures a == b
  {
    if |a| != 1 {
      assert forall i :: 0 <= i < |a| ==> Texts(a)[i] == Text(a[i]) && Texts(b)[i] == Text(b[i]);
    }
  }

  lemma SameAt(l: Leaves<Scalar>, values: Values, a: seq<string>, b: seq<string>, p: Path)
    requires NoClash(l, values) && Lists(a, values.Keys) && Lists(b, values.Keys)
    ensures Keys(a, values) && Keys(b, values)
    ensures var x, y := Minimal(Inserted(l, values, a)), Minimal(Inserted(l, values, b));
      (p in x <==> p in y) && (p in x ==> x[p] == y[p])
  {
    hide PathOfUrlKey;
    hide ValueOf;
    hide Inserted;
    InsertedBlocks(l, values, a, p);
    InsertedBlocks(l, values, b, p);
    InsertedAt(l, values, a, p);
    InsertedAt(l, values, b, p);
    if Named(a, p) {
      var k :| k in a && PathOfUrlKey(k) == p;
      assert k in b;
    }
    if Named(b, p) {
      var k :| k in b && PathOfUrlKey(k) == p;
      assert k in a;
    }
  }

  lemma SameLeaves(l: Leaves<Scalar>, values: Values, a: seq<string>, b: seq<string>)
    requires PrefixFree(l) && NoClash(l, values) && Lists(a, values.Keys) && Lists(b, values.Keys)
    ensures Keys(a, values) && Keys(b, values)
    ensures RebuiltLeaves(l, values, a) == RebuiltLeaves(l, values, b)
  {
    hide Inserted;
    hide NoClash;
    hide RebuiltLeaves;
    hide PrefixFree;
    hide Minimal;
    MinimalOfPrefixFree(l);
    RebuiltIsMinimal(l, values, a);
    RebuiltIsMinimal(l, values, b);
    var x, y := Minimal(Inserted(l, values, a)), Minimal(Inserted(l, values, b));
    forall p: Path ensures (p in x <==> p in y) && (p in x ==> x[p] == y[p]) {
      SameAt(l, values, a, b, p);
    }
  }

  lemma LeavesPrefixFree<V>(c: Contents<V>)
    requires WellFormed(c)
    ensures PrefixFree(LeavesOf(c))
  {
    forall p, q | p in LeavesOf(c) && q in LeavesOf(c) && p <= q ensures p == q {
      PrefixOrEqual(p, q);
    }
  }

  lemma SameRebuilt(c: Contents<Scalar>, values: Values, a: seq<string>, b: seq<string>)
    requires WellFormed(c) && NoClash(LeavesOf(c), values) && Lists(a, values.Keys) && Lists(b, values.Keys)
    ensures Keys(a, values) && Keys(b, values) && Rebuilt(c, values, a) == Rebuilt(c, values, b)
  {
    hide WellFormed;
    hide NoClash;
    hide LeavesOf;
    hide Rebuilt;
    LeavesPrefixFree(c);
    SameLeaves(LeavesOf(c), values, a, b);
    LeavesOfRebuilt(c, values, a);
    LeavesOfRebuilt(c, values, b);
    RootOutside(Rebuilt(c, values, a));
    RootOutside(Rebuilt(c, values, b));
    forall m: Path | m != [] ensures IsNested(Rebuilt(c, values, a), m) <==> IsNested(Rebuilt(c, values, b), m) {
      NestedOfRebuilt(c, values, a, m);
      NestedOfRebuilt(c, values, b, m);
      assert Covers(a, m) <==> Covers(b, m);
    }
    SameByLeaves(Rebuilt(c, values, a), Rebuilt(c, values, b));
  }

  /** Every finite set can be listed with a given member last. */
  lemma ListOf<T(!new)>(all: set<T>) returns (order: seq<T>)
    ensures Lists(order, all)
  {
    if all == {} {
      order := [];
    } else {
      var x :| x in all;
      var rest := ListOf(all - {x});
      order := rest + [x];
    }
  }

  lemma LastWins(c: Contents<Scalar>, values: Values, k: string) returns (order: seq<string>)
    requires WellFormed(c) && k in values
    requires !Blocked(LeavesOf(c), PathOfUrlKey(k)) && !BlockedByKey(values, PathOfUrlKey(k))
    ensures Lists(order, values.Keys) && Keys(order, values)
    ensures At(Rebuilt(c, values, order), PathOfUrlKey(k)) == Some(Present(ValueOf(values[k])))
  {
    hide PathOfUrlKey;
    hide ValueOf;
    hide WellFormed;
    hide Rebuilt;
    hide PutLeaf;
    var rest := ListOf(values.Keys - {k});
    order := rest + [k];
    assert order[..|rest|] == rest;
    LeavesPrefixFree(c);
    MinimalOfPrefixFree(LeavesOf(c));
    LeavesOfRebuilt(c, values, order);
    RebuiltIsMinimal(LeavesOf(c), values, order);
    InsertedBlocks(LeavesOf(c), values, order, PathOfUrlKey(k));
    var p, ins := PathOfUrlKey(k), Inserted(LeavesOf(c), values, order);
    assert order[|order| - 1] == k;
    assert p in ins && ins[p] == ValueOf(values[k]);
    assert p in LeavesOf(Rebuilt(c, values, order));
  }

  /** The order in which Go visits the keys makes no difference exactly when no two keys clash. */
  lemma OrderIrrelevant(c: Contents<Scalar>, values: Values)
    requires WellFormed(c)
    ensures (forall a, b :: Lists(a, values.Keys) && Lists(b, values.Keys) ==>
               Keys(a, values) && Keys(b, values) && Rebuilt(c, values, a) == Rebuilt(c, values, b))
       <==> NoClash(LeavesOf(c), values)
  {
    hide PathOfUrlKey;
    hide ValueOf;
    hide WellFormed;
    hide Rebuilt;
    hide LeavesOf;
    hide Lists;
    if NoClash(LeavesOf(c), values) {
      forall a, b | Lists(a, values.Keys) && Lists(b, values.Keys)
        ensures Keys(a, values) && Keys(b, values) && Rebuilt(c, values, a) == Rebuilt(c, values, b)
      {
        SameRebuilt(c, values, a, b);
      }
    } else {
      var j, k :| j in values && k in values && PathOfUrlKey(j) == PathOfUrlKey(k)
        && !Blocked(LeavesOf(c), PathOfUrlKey(k)) && !BlockedByKey(values, PathOfUrlKey(k))
        && values[j] != values[k];
      if ValueOf(values[j]) == ValueOf(values[k]) {
        ValueOfInjective(values[j], values[k]);
      }
      var a := LastWins(c, values, j);
      var b := LastWins(c, values, k);
    }
  }

  // ---- there and back ----

  ghost predicate CleanLeaves(l: Leaves<Scalar>) {
    forall p <- l :: Clean(p)
  }

  ghost predicate KeyOf(order: seq<Path>, k: string) {
    exists p <- order :: p != [] && k == UrlKey(p)
  }

  lemma AddAllNew(m: Values, key: string, vs: seq<string>)
    requires key !in m && vs != []
    ensures AddAll(m, key, vs) == m[key := vs]
  {
    assert [] + vs == vs;
  }

  lemma {:induction false} EncodedAt(l: Leaves<Scalar>, order: seq<Path>)
    requires [] !in l && CleanLeaves(l) && forall p <- order :: p in l
    requires forall i, j :: 0 <= i < j < |order| ==> order[i] != order[j]
    ensures forall k <- Encoded(l, order, map[]) :: KeyOf(order, k)
    ensures forall p <- order :: UrlKey(p) in Encoded(l, order, map[])
                              && Encoded(l, order, map[])[UrlKey(p)] == Added(l[p])
  {
    hide UrlKey;
    hide Added;
    hide AddAll;
    if order != [] {
      var n := |order| - 1;
      var first, last := order[..n], order[n];
      assert last in order && order == first + [last];
      EncodedAt(l, first);
      var e0 := Encoded(l, first, map[]);
      if UrlKey(last) in e0 {
        var p :| p in first && p != [] && UrlKey(last) == UrlKey(p);
        UrlKeyInjective(p, last);
        assert false;
      }
      AddAllNew(e0, UrlKey(last), Added(l[last]));
      var e := Encoded(l, order, map[]);
      assert e == e0[UrlKey(last) := Added(l[last])];
      forall k <- e ensures KeyOf(order, k) {
        if k != UrlKey(last) {
          assert KeyOf(first, k);
        }
      }
      forall p <- order ensures UrlKey(p) in e && e[UrlKey(p)] == Added(l[p]) {
        if p != last {
          assert p in first;
          if UrlKey(p) == UrlKey(last) {
            UrlKeyInjective(p, last);
          }
        }
      }
    }
  }

  /** No two keys name the same path. */
  ghost predicate DistinctPaths(values: Values) {
    forall j <- values, k <- values :: PathOfUrlKey(j) == PathOfUrlKey(k) ==> j == k
  }

  /** The values as they come back. */
  ghost function Echo(l: Leaves<Scalar>): Leaves<Scalar> {
    map p | p in l :: ValueOf(Added(l[p]))
  }

  lemma EncodedPaths(l: Leaves<Scalar>, order: seq<Path>)
    requires [] !in l && CleanLeaves(l) && Lists(order, l.Keys)
    ensures var e := Encoded(l, order, map[]);
      && DistinctPaths(e)
      && (forall k <- e :: PathOfUrlKey(k) in l && e[k] == Added(l[PathOfUrlKey(k)]))
      && forall p <- l :: UrlKey(p) in e && PathOfUrlKey(UrlKey(p)) == p
  {
    EncodedAt(l, order);
    forall p <- l ensures PathOfUrlKey(UrlKey(p)) == p {
      UrlKeyRoundTrip(p);
    }
  }

  /** One value: a text comes back as it was, anything else that is not a list as its printed form, an empty
      list as its printed form, and a list of texts as those texts followed by its printed form. */
  lemma EchoOfValue(v: Scalar)
    ensures v.Text? ==> ValueOf(Added(v)) == v
    ensures v.Other? ==> ValueOf(Added(v)) == Text(v.printed)
    ensures v == Slice([]) ==> ValueOf(Added(v)) == Text("[]")
    ensures v.Slice? && v.elems != [] && (forall e <- v.elems :: e.Text?) ==>
              ValueOf(Added(v)) == Slice(v.elems + [Text(Sprint(v))])
  {
    if v.Slice? && v.elems != [] && forall e <- v.elems :: e.Text? {
      AddedByTexts(v.elems);
      var vs := Added(v);
      assert Texts(vs) == v.elems + [Text(Sprint(v))];
    }
  }

  lemma EchoForms(l: Leaves<Scalar>)
    ensures var back := Echo(l);
      && back.Keys == l.Keys
      && forall p <- l ::
        && (l[p].Text? ==> back[p] == l[p])
        && (l[p].Other? ==> back[p] == Text(l[p].printed))
        && (l[p] == Slice([]) ==> back[p] == Text("[]"))
        && (l[p].Slice? && l[p].elems != [] && (forall e <- l[p].elems :: e.Text?) ==>
              back[p] == Slice(l[p].elems + [Text(Sprint(l[p]))]))
  {
    hide ValueOf;
    hide Sprint;
    hide Added;
    forall p <- l {
      EchoOfValue(l[p]);
    }
  }

  lemma RebuiltIsEcho(l: Leaves<Scalar>, order: seq<Path>, keys: seq<string>)
    requires PrefixFree(l) && CleanLeaves(l) && Lists(order, l.Keys)
    requires Lists(keys, Encoded(l, order, map[]).Keys)
    ensures Keys(keys, Encoded(l, order, map[])) && RebuiltLeaves(map[], Encoded(l, order, map[]), keys) == Echo(l)
  {
    hide Encoded;
    hide RebuiltLeaves;
    hide Inserted;
    hide PathOfUrlKey;
    hide Added;
    EncodedPaths(l, order);
    InsertedEcho(l, Encoded(l, order, map[]), keys);
    assert Minimal<Scalar>(map[]) == map[];
    RebuiltIsMinimal(map[], Encoded(l, order, map[]), keys);
    MinimalOfPrefixFree(Echo(l));
  }

  /** Whatever the orders of flattening and rebuilding, leaves at clean paths all come back, the lists with
      their printed form at the end. */
  lemma RebuiltOfEncoded(l: Leaves<Scalar>, order: seq<Path>, keys: seq<string>)
    requires PrefixFree(l) && CleanLeaves(l) && Lists(order, l.Keys)
    requires Lists(keys, Encoded(l, order, map[]).Keys)
    ensures Keys(keys, Encoded(l, order, map[]))
    ensures var back := RebuiltLeaves(map[], Encoded(l, order, map[]), keys);
      && back.Keys == l.Keys
      && forall p <- l ::
        && (l[p].Text? ==> back[p] == l[p])
        && (l[p].Other? ==> back[p] == Text(l[p].printed))
        && (l[p] == Slice([]) ==> back[p] == Text("[]"))
        && (l[p].Slice? && l[p].elems != [] && (forall e <- l[p].elems :: e.Text?) ==>
              back[p] == Slice(l[p].elems + [Text(Sprint(l[p]))]))
  {
    hide *;
    RebuiltIsEcho(l, order, keys);
    EchoForms(l);
  }

  /** None of the rebuilding puts fails. */
  lemma NoPutRefused(l: Leaves<Scalar>, order: seq<Path>, keys: seq<string>, i: nat)
    requires PrefixFree(l) && CleanLeaves(l) && Lists(order, l.Keys)
    requires Lists(keys, Encoded(l, order, map[]).Keys) && i < |keys|
    ensures Keys(keys[..i], Encoded(l, order, map[]))
    ensures !Barred(Rebuilt(map[], Encoded(l, order, map[]), keys[..i]), PathOfUrlKey(keys[i]))
  {
    hide Encoded;
    hide Rebuilt;
    hide RebuiltLeaves;
    hide Inserted;
    hide PathOfUrlKey;
    hide Added;
    var e, before, path := Encoded(l, order, map[]), keys[..i], PathOfUrlKey(keys[i]);
    EncodedPaths(l, order);
    assert keys[i] in keys;
    var none: Leaves<Scalar> := map[];
    assert Minimal(none) == none;
    RebuiltIsMinimal(none, e, before);
    LeavesOfRebuilt(map[], e, before);
    assert LeavesOf<Scalar>(map[]) == none;
    BarredIsBlocked(Rebuilt(map[], e, before), path);
    forall r <- Inserted(none, e, before) ensures r in l {
      InsertedAt(none, e, before, r);
    }
  }

  lemma InsertedEcho(l: Leaves<Scalar>, e: Values, keys: seq<string>)
    requires DistinctPaths(e) && Lists(keys, e.Keys)
    requires forall k <- e :: PathOfUrlKey(k) in l && e[k] == Added(l[PathOfUrlKey(k)])
    requires forall p <- l :: p != [] && UrlKey(p) in e && PathOfUrlKey(UrlKey(p)) == p
    ensures Keys(keys, e) && Inserted(map[], e, keys) == Echo(l)
  {
    hide PathOfUrlKey;
    hide UrlKey;
    hide Inserted;
    hide Added;
    hide ValueOf;
    var ins := Inserted(map[], e, keys);
    forall p: Path ensures (p in ins <==> p in l) && (p in ins ==> ins[p] == Echo(l)[p]) {
      InsertedAt(map[], e, keys, p);
      if p in l {
        assert UrlKey(p) in keys;
      }
    }
  }

  lemma {:induction false} RebuiltIsClean(values: Values, keys: seq<string>)
    requires Keys(keys, values)
    ensures CleanLeaves(RebuiltLeaves(map[], values, keys))
  {
    if keys != [] {
      var n := |keys| - 1;
      assert keys[n] in keys;
      RebuiltIsClean(values, keys[..n]);
      PathOfUrlKeyIsClean(keys[n]);
    }
  }

  lemma LeavesRoundTrip(l: Leaves<Scalar>, order: seq<Path>, keys: seq<string>)
    requires PrefixFree(l) && Lists(order, l.Keys) && AllLeaves(l, order)
    requires Lists(keys, Encoded(l, order, map[]).Keys)
    ensures Keys(keys, Encoded(l, order, map[]))
    ensures RebuiltLeaves(map[], Encoded(l, order, map[]), keys) == l <==> CleanLeaves(l) && forall p <- l :: l[p].Text?
  {
    hide Encoded;
    hide RebuiltLeaves;
    hide PrefixFree;
    hide Lists;
    assert Keys(keys, Encoded(l, order, map[])) by {
      ListsIn(keys, Encoded(l, order, map[]).Keys);
    }
    RebuiltIsClean(Encoded(l, order, map[]), keys);
    if CleanLeaves(l) {
      RebuiltIsEcho(l, order, keys);
      EchoIsSame(l);
    }
  }

  lemma EchoIsSame(l: Leaves<Scalar>)
    ensures Echo(l) == l <==> forall p <- l :: l[p].Text?
  {
    forall p <- l ensures Echo(l)[p] == l[p] <==> l[p].Text? {
      EchoOfValue(l[p]);
    }
  }

  /** Flattening and rebuilding gives the same contents exactly for trees whose paths have no separators,
      whose leaves are single texts and whose maps are not empty, in every order of visiting the maps. */
  lemma UrlRoundTrip(c: Contents<Scalar>, order: seq<Path>, keys: seq<string>)
    requires WellFormed(c) && Lists(order, LeavesOf(c).Keys) && AllLeaves(LeavesOf(c), order)
    requires Lists(keys, Encoded(LeavesOf(c), order, map[]).Keys)
    ensures Keys(keys, Encoded(LeavesOf(c), order, map[]))
    ensures Rebuilt(map[], Encoded(LeavesOf(c), order, map[]), keys) == c <==>
            CleanLeaves(LeavesOf(c)) && (forall p <- LeavesOf(c) :: LeavesOf(c)[p].Text?) && NoEmptyMap(c)
  {
    hide WellFormed;
    hide Encoded;
    hide Rebuilt;
    hide Lists;
    hide CleanLeaves;
    var l, e := LeavesOf(c), Encoded(LeavesOf(c), order, map[]);
    LeavesPrefixFree(c);
    LeavesRoundTrip(l, order, keys);
    var none: Contents<Scalar> := map[];
    NothingIsWellFormed<Scalar>();
    var d := Rebuilt(none, e, keys);
    LeavesOfRebuilt(none, e, keys);
    assert LeavesOf(none) == map[];
    RootOutside(c);
    RootOutside(d);
    forall m: Path | m != [] ensures IsNested(d, m) <==> Inner(LeavesOf(d), m) {
      NestedOfRebuilt(none, e, keys, m);
    }
    forall m: Path | m != [] && Inner(l, m) ensures IsNested(c, m) {
      InnerIsNested(c, m);
    }
    if NoEmptyMap(c) && LeavesOf(d) == l {
      SameByLeaves(d, c);
    }
    assert NoEmptyMap(d);
  }

  lemma NothingIsWellFormed<V>()
    ensures WellFormed<V>(map[])
  {
  }

  /** MarshalURL, then UnmarshalURLValues into an empty map. */
  method ThroughUrl(mp: DynMap<Scalar>) returns (back: DynMap<Scalar>)
    requires mp.Valid()
    ensures fresh(back) && back.Valid() && fresh(back.Repr)
    ensures var c := mp.Contents;
      back.Contents == c <==>
      CleanLeaves(LeavesOf(c)) && (forall p <- LeavesOf(c) :: LeavesOf(c)[p].Text?) && NoEmptyMap(c)
  {
    hide Denotes;
    hide Tree;
    hide Encoded;
    hide Rebuilt;
    hide LeavesOf;
    hide WellFormed;
    DenotesWellFormed(Snap(mp.Repr), mp.Map, mp.Contents);
    var vals, order := MarshalURL(mp);
    back := new DynMap();
    var keys := UnmarshalURLValues(back, vals.m);
    UrlRoundTrip(mp.Contents, order, keys);
  }
}
