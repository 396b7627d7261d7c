/** Rails-style flattening of a DynMap into url.Values and back (dynmap/dynmap.go: MarshalURL, urlEncode,
    UnmarshalURLValues). Go visits the keys of a map in any order: the orders taken are ghost results, and
    the theorems hold for all of them. */
module UrlEncoding {
  import opened Wrappers
  import opened Paths
  import opened LeafMaps
  import opened TreeContents
  import opened GoMaps
  import opened DynMaps

  /** A text, anything else that is not a map or a slice by its printed form, or a slice. */
  datatype Scalar = Text(text: string) | Other(printed: string) | Slice(elems: seq<Scalar>)

  type Values = map<string, seq<string>>

  /** fmt.Sprint. */
  function Sprint(v: Scalar): string
    decreases v
  {
    match v
    case Text(s) => s
    case Other(s) => s
    case Slice(es) => "[" + Spaced(es) + "]"
  }

  function Spaced(es: seq<Scalar>): string
    decreases es
  {
    if es == [] then "" else if |es| == 1 then Sprint(es[0]) else Sprint(es[0]) + " " + Spaced(es[1..])
  }

  /** A slice is printed in brackets with a space between its elements. */
  lemma {:induction false} SpacedConcat(a: seq<Scalar>, b: seq<Scalar>)
    requires a != [] && b != []
    ensures Spaced(a + b) == Spaced(a) + " " + Spaced(b)
  {
    if |a| == 1 {
      assert (a + b)[1..] == b;
    } else {
      assert (a + b)[1..] == a[1..] + b;
      SpacedConcat(a[1..], b);
    }
  }

  lemma SprintOfSlice(v: Scalar, a: seq<Scalar>, b: seq<Scalar>)
    requires a != [] && b != []
    ensures Sprint(Slice([])) == "[]" && Sprint(Slice([v])) == "[" + Sprint(v) + "]"
    ensures var x, y := Sprint(Slice(a)), Sprint(Slice(b));
      |x| >= 2 && |y| >= 2 && Sprint(Slice(a + b)) == x[..|x| - 1] + " " + y[1..]
  {
    SpacedConcat(a, b);
  }

  /** What urlEncode adds for one leaf: a slice gives its elements and then itself, printed. */
  function Added(v: Scalar): (vs: seq<string>)
    ensures |vs| >= (if v.Slice? then |v.elems| else 0) + 1
    ensures !v.Slice? ==> |vs| == 1
    decreases v
  {
    (if v.Slice? then AddedByAll(v.elems) else []) + [Sprint(v)]
  }

  function AddedByAll(es: seq<Scalar>): (vs: seq<string>)
    ensures |vs| >= |es|
    decreases es
  {
    if es == [] then [] else AddedByAll(es[..|es| - 1]) + Added(es[|es| - 1])
  }

  lemma {:induction false} AddedByAllConcat(a: seq<Scalar>, b: seq<Scalar>)
    ensures AddedByAll(a + b) == AddedByAll(a) + AddedByAll(b)
  {
    if b == [] {
      assert a + b == a;
    } else {
      var n := |b| - 1;
      assert (a + b)[..|a| + n] == a + b[..n];
      AddedByAllConcat(a, b[..n]);
    }
  }

  /** A slice adds what its elements add, in their order, and then its printed form; anything else its
      printed form alone. */
  lemma AddedOfSlice(v: Scalar, a: seq<Scalar>, b: seq<Scalar>)
    ensures !v.Slice? ==> Added(v) == [Sprint(v)]
    ensures Added(Slice([])) == ["[]"] && Added(Slice([v])) == Added(v) + ["[" + Sprint(v) + "]"]
    ensures var x, y := Added(Slice(a)), Added(Slice(b));
      Added(Slice(a + b)) == x[..|x| - 1] + y[..|y| - 1] + [Sprint(Slice(a + b))]
  {
    hide AddedByAll;
    hide Sprint;
    AddedByAllConcat(a, b);
    AddedByOne(v);
    SprintOfSlice(v, [v], [v]);
  }

  lemma AddedByOne(v: Scalar)
    ensures AddedByAll([]) == [] && AddedByAll([v]) == Added(v)
  {
    assert [v][..0] == [];
    assert AddedByAll([v]) == AddedByAll([]) + Added(v);
  }

  /** A slice of texts adds them as they are. */
  lemma {:induction false} AddedByTexts(es: seq<Scalar>)
    requires forall e <- es :: e.Text?
    ensures |AddedByAll(es)| == |es| && forall i :: 0 <= i < |es| ==> Text(AddedByAll(es)[i]) == es[i]
  {
    if es != [] {
      var n := |es| - 1;
      AddedByTexts(es[..n]);
      AddedByOne(es[n]);
      AddedByAllConcat(es[..n], [es[n]]);
      assert es == es[..n] + [es[n]];
      assert es[n] in es && Added(es[n]) == [es[n].text];
    }
  }

  function AddAll(m: Values, key: string, vs: seq<string>): Values {
    if vs == [] then m else m[key := (if key in m then m[key] else []) + vs]
  }

  lemma AddAllConcat(m: Values, key: string, a: seq<string>, b: seq<string>)
    ensures AddAll(AddAll(m, key, a), key, b) == AddAll(m, key, a + b)
  {
    if a == [] {
      assert a + b == b;
    } else if b == [] {
      assert a + b == a;
    } else {
      var old' := if key in m then m[key] else [];
      assert old' + a + b == old' + (a + b);
    }
  }

  ghost predicate AllLeaves(l: Leaves<Scalar>, order: seq<Path>) {
    forall p <- order :: p in l && p != []
  }

  /** The leaves at the paths of order, added one after another. */
  ghost function Encoded(l: Leaves<Scalar>, order: seq<Path>, m: Values): Values
    requires AllLeaves(l, order)
  {
    if order == [] then m
    else
      var n := |order| - 1;
      assert order[n] in order;
      AddAll(Encoded(l, order[..n], m), UrlKey(order[n]), Added(l[order[n]]))
  }

  lemma {:induction false} EncodedConcat(l: Leaves<Scalar>, a: seq<Path>, b: seq<Path>, m: Values)
    requires AllLeaves(l, a) && AllLeaves(l, b)
    ensures AllLeaves(l, a + b) && Encoded(l, a + b, m) == Encoded(l, b, Encoded(l, a, m))
    decreases |b|
  {
    if b == [] {
      assert a + b == a;
    } else {
      var n := |b| - 1;
      assert (a + b)[..|a| + n] == a + b[..n];
      EncodedConcat(l, a, b[..n], m);
    }
  }

  /** Every member of the set, once. */
  ghost predicate Lists<T(!new)>(order: seq<T>, all: set<T>) {
    && (forall x :: x in order <==> x in all)
    && forall i, j :: 0 <= i < j < |order| ==> order[i] != order[j]
  }

  class UrlValues {
    var m: Values

    constructor ()
      ensures m == map[]
    {
      m := map[];
    }

    method Add(key: string, value: string)
      modifies this
      ensures m == old(m)[key := if key in old(m) then old(m)[key] + [value] else [value]]
      ensures m == AddAll(old(m), key, [value])
    {
      assert [] + [value] == [value];
      m := m[key := (if key in m then m[key] else []) + [value]];
    }
  }

  // ---- flattening ----

  method MarshalURL(mp: DynMap<Scalar>) returns (vals: UrlValues, ghost order: seq<Path>)
    requires mp.Valid()
    ensures fresh(vals) && Lists(order, LeavesOf(mp.Contents).Keys) && AllLeaves(LeavesOf(mp.Contents), order)
    ensures vals.m == Encoded(LeavesOf(mp.Contents), order, map[])
  {
    vals := new UrlValues();
    WalkNowhere(Snap(mp.Repr), mp.Map);
    order := EncodeEntries(vals, None, mp.Map, mp.Repr, mp.Map, [], mp.Contents);
    assert UpTo(LeavesOf(mp.Contents), [], {}) == LeavesOf(mp.Contents).Keys;
  }

  /** The leaves below a path that do not continue with one of the keys. */
  ghost function UpTo(l: Leaves<Scalar>, path: Path, todo: set<string>): set<Path> {
    set p | p in l && path < p && p[|path|] !in todo
  }

  /** The leaf at a path or the leaves below it. */
  ghost function From(l: Leaves<Scalar>, path: Path): set<Path> {
    set p | p in l && path <= p
  }

  lemma FromMap(l: Leaves<Scalar>, path: Path)
    requires path !in l
    ensures From(l, path) == UpTo(l, path, {})
  {
    forall p <- l ensures path <= p <==> path < p || path == p {
      PrefixOrEqual(path, p);
    }
  }

  /** The loops over a map's entries in MarshalURL, where a key stands alone, and in urlEncode, where it
      follows the key of the map in brackets. */
  method EncodeEntries(vals: UrlValues, key: Option<string>, mp: GoMap<Scalar>, ghost repr: set<GoMap<Scalar>>,
                       ghost root: GoMap<Scalar>, ghost path: Path, ghost c: Contents<Scalar>)
    returns (ghost order: seq<Path>)
    requires Tree(Snap(repr), root) && Denotes(Snap(repr), root, c)
    requires mp in repr && Walk(Snap(repr), root, path) == Some(mp)
    requires if path == [] then key == None else key == Some(UrlKey(path))
    modifies vals
    ensures Lists(order, UpTo(LeavesOf(c), path, {})) && AllLeaves(LeavesOf(c), order)
    ensures vals.m == Encoded(LeavesOf(c), order, old(vals.m))
    decreases Longest(c) + 1 - |path|, 0
  {
    hide Walk;
    hide Entry;
    hide Tree;
    hide Denotes;
    hide Encoded;
    hide UrlKey;
    hide Longest;
    hide UpTo;
    hide From;
    hide Lists;
    hide AllLeaves;
    hide LeavesOf;
    order := [];
    ghost var s, l := Snap(repr), LeavesOf(c);
    NothingEncoded(s, root, path, mp, c, vals.m);
    ListsNone<Path>();
    var todo := mp.m.Keys;
    while todo != {}
      invariant todo <= mp.m.Keys
      invariant Lists(order, UpTo(l, path, todo)) && AllLeaves(l, order)
      invariant vals.m == Encoded(l, order, old(vals.m))
      decreases |todo|
    {
      var k :| k in todo;
      BelowEntry(s, root, path, mp, k);
      var nextKey := if key.None? then k else key.value + "[" + k + "]";
      var next := UrlEncode(vals, nextKey, mp.m[k], repr, root, path + [k], c);
      EncodedConcat(l, order, next, old(vals.m));
      MoreEncoded(l, path, todo, k);
      ListsConcat(order, UpTo(l, path, todo), next, From(l, path + [k]));
      order := order + next;
      todo := todo - {k};
    }
  }

  lemma NothingEncoded(s: Store<Scalar>, root: GoMap<Scalar>, path: Path, mp: GoMap<Scalar>, c: Contents<Scalar>,
                       m: Values)
    requires Denotes(s, root, c) && Walk(s, root, path) == Some(mp) && mp in s
    ensures UpTo(LeavesOf(c), path, s[mp].Keys) == {} && |path| <= Longest(c) && path !in LeavesOf(c)
    ensures AllLeaves(LeavesOf(c), []) && Encoded(LeavesOf(c), [], m) == m
  {
    DenotesWellFormed(s, root, c);
    forall p <- c | path < p ensures p[|path|] in s[mp] {
      var q := p[..|path| + 1];
      assert q[..|path|] == path;
      PrefixOrEqual(q, p);
      KindIsAt(s, root, c, q);
    }
    if path != [] {
      KindIsAt(s, root, c, path);
    }
  }

  lemma BelowEntry(s: Store<Scalar>, root: GoMap<Scalar>, path: Path, mp: GoMap<Scalar>, k: string)
    requires Walk(s, root, path) == Some(mp) && mp in s && k in s[mp]
    ensures Entry(s, root, path + [k]) == Some(s[mp][k])
    ensures UrlKey(path + [k]) == if path == [] then k else UrlKey(path) + "[" + k + "]"
  {
    assert (path + [k])[..|path|] == path;
  }

  lemma MoreEncoded(l: Leaves<Scalar>, path: Path, todo: set<string>, k: string)
    requires k in todo && path !in l
    ensures UpTo(l, path, todo - {k}) == UpTo(l, path, todo) + From(l, path + [k])
    ensures UpTo(l, path, todo) !! From(l, path + [k])
  {
    forall p <- l ensures path + [k] <= p <==> path < p && p[|path|] == k {
      if path < p && p[|path|] == k {
        assert p[..|path| + 1] == path + [k];
      }
    }
  }

  lemma ListsNone<T(!new)>()
    ensures Lists<T>([], {})
  {
  }

  lemma ListsIn<T(!new)>(order: seq<T>, all: set<T>)
    requires Lists(order, all)
    ensures forall x <- order :: x in all
  {
  }

  lemma ListsConcat<T(!new)>(a: seq<T>, all: set<T>, b: seq<T>, more: set<T>)
    requires Lists(a, all) && Lists(b, more) && all !! more
    ensures Lists(a + b, all + more)
  {
    var c := a + b;
    forall i, j | 0 <= i < j < |c| ensures c[i] != c[j] {
      if i < |a| <= j {
        assert a[i] in a && b[j - |a|] in b;
      }
    }
  }

  /** What is at a path, and for a value that nothing is below. */
  lemma EntryFound(s: Store<Scalar>, root: GoMap<Scalar>, path: Path, value: Value<Scalar>, c: Contents<Scalar>)
    requires Tree(s, root) && Denotes(s, root, c) && path != [] && Entry(s, root, path) == Some(value)
    ensures |path| <= Longest(c)
    ensures value.Ref? ==> path !in LeavesOf(c) && value.ref in s && Walk(s, root, path) == Some(value.ref)
    ensures value.Leaf? ==> path in LeavesOf(c) && LeavesOf(c)[path] == value.value && !Inner(LeavesOf(c), path)
  {
    KindIsAt(s, root, c, path);
    DenotesWellFormed(s, root, c);
    WalkStays(s, root, path);
  }

  lemma OneLeaf(l: Leaves<Scalar>, path: Path, m: Values)
    requires path in l && path != [] && !Inner(l, path)
    ensures AllLeaves(l, [path]) && Encoded(l, [path], m) == AddAll(m, UrlKey(path), Added(l[path]))
    ensures Lists([path], From(l, path))
  {
    assert [path][..0] == [];
    forall p <- l | path <= p ensures p == path {
      PrefixOrEqual(path, p);
    }
  }

  method UrlEncode(vals: UrlValues, key: string, value: Value<Scalar>, ghost repr: set<GoMap<Scalar>>,
                   ghost root: GoMap<Scalar>, ghost path: Path, ghost c: Contents<Scalar>)
    returns (ghost order: seq<Path>)
    requires Tree(Snap(repr), root) && Denotes(Snap(repr), root, c)
    requires path != [] && Entry(Snap(repr), root, path) == Some(value) && key == UrlKey(path)
    modifies vals
    ensures Lists(order, From(LeavesOf(c), path)) && AllLeaves(LeavesOf(c), order)
    ensures vals.m == Encoded(LeavesOf(c), order, old(vals.m))
    decreases Longest(c) + 1 - |path|, 1
  {
    hide Walk;
    hide Entry;
    hide Tree;
    hide Denotes;
    hide Encoded;
    hide UrlKey;
    hide Longest;
    hide AllLeaves;
    hide LeavesOf;
    EntryFound(Snap(repr), root, path, value, c);
    match value {
      case Ref(ref) =>
        FromMap(LeavesOf(c), path);
        order := EncodeEntries(vals, Some(key), ref, repr, root, path, c);
      case Leaf(v) =>
        EncodeLeaf(vals, key, v);
        order := [path];
        OneLeaf(LeavesOf(c), path, old(vals.m));
    }
  }

  /** urlEncode of what is not a map. */
  method EncodeLeaf(vals: UrlValues, key: string, v: Scalar)
    modifies vals
    ensures vals.m == AddAll(old(vals.m), key, Added(v))
    decreases v
  {
    hide AddAll;
    ghost var elems := if v.Slice? then v.elems else [];
    AddNothing(old(vals.m), key);
    if v.Slice? {
      for i := 0 to |v.elems|
        invariant vals.m == AddAll(old(vals.m), key, AddedByAll(v.elems[..i]))
      {
        EncodeLeaf(vals, key, v.elems[i]);
        assert v.elems[..i + 1][..i] == v.elems[..i];
        AddAllConcat(old(vals.m), key, AddedByAll(v.elems[..i]), Added(v.elems[i]));
      }
      assert v.elems[..|v.elems|] == v.elems;
    }
    vals.Add(key, Sprint(v));
    AddAllConcat(old(vals.m), key, AddedByAll(elems), [Sprint(v)]);
  }

  lemma AddNothing(m: Values, key: string)
    ensures AddAll(m, key, []) == m
  {
  }

  // ---- rebuilding ----

  function Texts(vs: seq<string>): seq<Scalar> {
    seq(|vs|, i requires 0 <= i < |vs| => Text(vs[i]))
  }

  /** What UnmarshalURLValues puts for the values of one key. */
  function ValueOf(vs: seq<string>): Scalar {
    if |vs| == 1 then Text(vs[0]) else Slice(Texts(vs))
  }

  /** The puts for the keys of order, one after another. */
  ghost function Rebuilt(c: Contents<Scalar>, values: Values, order: seq<string>): Contents<Scalar>
    requires forall k <- order :: k in values
  {
    if order == [] then c
    else
      var n := |order| - 1;
      assert order[n] in order;
      PutAt(Rebuilt(c, values, order[..n]), PathOfUrlKey(order[n]), Single(ValueOf(values[order[n]])))
  }

  lemma RebuiltSnoc(c: Contents<Scalar>, values: Values, order: seq<string>, k: string)
    requires k in values && forall j <- order :: j in values
    ensures Rebuilt(c, values, order + [k]) ==
            PutAt(Rebuilt(c, values, order), Split(Unbracket(k)), Single(ValueOf(values[k])))
  {
    assert (order + [k])[..|order|] == order;
  }

  lemma PutBelowOrBeside(c: Contents<Scalar>, q: Path, v: Scalar, path: Path)
    requires !(q <= path) && path != [] && !Barred(c, path)
    ensures !Barred(PutAt(c, q, Single(v)), path)
    ensures At(c, path).Some? && At(c, path).value.Present? ==> At(PutAt(c, q, Single(v)), path) == At(c, path)
  {
    if !Barred(c, q) {
      var c' := PutAt(c, q, Single(v));
      forall p <- c' | p < path ensures !c'[p].Present? {
        if q <= p {
          PrefixOrEqual(q, path);
          assert false;
        } else if !(p < q) {
          assert p in c;
        }
      }
      AtAfterPut(c, q, Single(v), path);
    }
  }

  lemma PutHere(c: Contents<Scalar>, v: Scalar, path: Path)
    requires path != [] && !Barred(c, path)
    ensures At(PutAt(c, path, Single(v)), path) == Some(Present(v))
    ensures !Barred(PutAt(c, path, Single(v)), path)
  {
    AtAfterPut(c, path, Single(v), path);
  }

  /** The key's path is neither below a value nor at or below the path of another key. */
  ghost predicate Free(c: Contents<Scalar>, keys: set<string>, k: string) {
    !Barred(c, PathOfUrlKey(k)) && forall j <- keys :: j != k ==> !(PathOfUrlKey(j) <= PathOfUrlKey(k))
  }

  lemma {:induction false} RebuiltAtKey(c: Contents<Scalar>, values: Values, order: seq<string>, k: string)
    requires (forall j <- order :: j in values) && Free(c, values.Keys, k)
    ensures !Barred(Rebuilt(c, values, order), PathOfUrlKey(k))
    ensures k in order ==>
      At(Rebuilt(c, values, order), PathOfUrlKey(k)) == Some(Present(ValueOf(values[k])))
  {
    hide PutAt;
    hide Barred;
    hide At;
    hide ValueOf;
    hide PathOfUrlKey;
    if order != [] {
      var n := |order| - 1;
      var j := order[n];
      assert j in order && order == order[..n] + [j];
      RebuiltAtKey(c, values, order[..n], k);
      var c' := Rebuilt(c, values, order[..n]);
      KeyIsNotRoot(k);
      if j == k {
        PutHere(c', ValueOf(values[k]), PathOfUrlKey(k));
      } else {
        PutBelowOrBeside(c', PathOfUrlKey(j), ValueOf(values[j]), PathOfUrlKey(k));
      }
    }
  }

  /** The value of a key on its own: the one text, or the list of all of them. */
  lemma EachFreeKeyFound(c: Contents<Scalar>, values: Values, order: seq<string>)
    requires Lists(order, values.Keys)
    ensures forall k <- values ::
      !Barred(c, PathOfUrlKey(k))
      && (forall j <- values :: j != k ==> !(PathOfUrlKey(j) <= PathOfUrlKey(k)))
      ==>
        var vs, found := values[k], At(Rebuilt(c, values, order), PathOfUrlKey(k));
        && found.Some? && found.value.Present?
        && (|vs| == 1 ==> found.value.value == Text(vs[0]))
        && (|vs| != 1 ==>
              && found.value.value.Slice? && |found.value.value.elems| == |vs|
              && forall i :: 0 <= i < |vs| ==> found.value.value.elems[i] == Text(vs[i]))
  {
    hide PutAt;
    hide Barred;
    hide At;
    hide PathOfUrlKey;
    hide Rebuilt;
    forall k <- values | Free(c, values.Keys, k)
      ensures At(Rebuilt(c, values, order), PathOfUrlKey(k)) == Some(Present(ValueOf(values[k])))
    {
      RebuiltAtKey(c, values, order, k);
    }
  }

  lemma KeyIsNotRoot(k: string)
    ensures PathOfUrlKey(k) != []
  {
  }

  lemma ListsSnoc<T(!new)>(order: seq<T>, all: set<T>, x: T)
    requires Lists(order, all) && x !in all
    ensures Lists(order + [x], all + {x})
  {
    assert forall i :: 0 <= i < |order| ==> order[i] in order;
  }

  method UnmarshalURLValues(mp: DynMap<Scalar>, values: Values) returns (ghost order: seq<string>)
    requires mp.Valid()
    modifies mp, mp.Repr
    ensures mp.Valid() && fresh(mp.Repr - old(mp.Repr)) && Lists(order, values.Keys)
    ensures mp.Contents == Rebuilt(old(mp.Contents), values, order)
    ensures forall k <- values ::
      !Barred(old(mp.Contents), PathOfUrlKey(k))
      && (forall j <- values :: j != k ==> !(PathOfUrlKey(j) <= PathOfUrlKey(k)))
      ==>
        var vs, found := values[k], At(mp.Contents, PathOfUrlKey(k));
        && found.Some? && found.value.Present?
        && (|vs| == 1 ==> found.value.value == Text(vs[0]))
        && (|vs| != 1 ==>
              && found.value.value.Slice? && |found.value.value.elems| == |vs|
              && forall i :: 0 <= i < |vs| ==> found.value.value.elems[i] == Text(vs[i]))
  {
    hide PutAt;
    hide ValueOf;
    hide DynMap.Valid;
    hide PathOfUrlKey;
    hide Split;
    hide Unbracket;
    hide Single;
    hide Lists;
    order := [];
    ListsNone<string>();
    assert values.Keys - values.Keys == {};
    var todo := values.Keys;
    while todo != {}
      invariant todo <= values.Keys && mp.Valid() && fresh(mp.Repr - old(mp.Repr))
      invariant Lists(order, values.Keys - todo) && forall k <- order :: k in values
      invariant mp.Contents == Rebuilt(old(mp.Contents), values, order)
    {
      var k :| k in todo;
      var r := mp.PutWithDot(Unbracket(k), Plain(ValueOf(values[k])));
      RebuiltSnoc(old(mp.Contents), values, order, k);
      ListsSnoc(order, values.Keys - todo, k);
      assert values.Keys - (todo - {k}) == values.Keys - todo + {k};
      order := order + [k];
      todo := todo - {k};
    }
    assert values.Keys - {} == values.Keys;
    EachFreeKeyFound(old(mp.Contents), values, order);
  }
}
