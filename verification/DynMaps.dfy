/** DynMap (dynmap/dynmap.go) over nested Go maps. Valid() keeps the nested maps a tree whose contents
    are the ghost map Contents, empty maps included. */
module DynMaps {
  import opened Wrappers
  import opened Paths
  import opened LeafMaps
  import opened TreeContents
  import opened GoMaps

  /** Where a key is looked up: under the literal key if there is anything, else along its dots. */
  ghost function PathFor<V>(c: Contents<V>, key: string): Path {
    if [key] in c then [key] else Split(key)
  }

  ghost function Found<V>(c: Contents<V>, key: string): Option<Node<V>> {
    At(c, PathFor(c, key))
  }

  lemma AtAside<V>(c: Contents<V>, path: Path, t: Contents<V>, q: Path)
    requires !Barred(c, path) && q != [] && !Comparable(path, q)
    ensures At(PutAt(c, path, t), q) == At(c, q)
  {
    AtAfterPut(c, path, t, q);
  }

  /** A successful dotted put is what a look-up of its key then finds, unless the dotted key itself is an
      entry, which then still answers; a look-up along any path neither above nor below is unchanged. */
  lemma FoundAfterPutWithDot<V>(c: Contents<V>, key: string, t: Contents<V>, other: string)
    requires !Barred(c, Split(key)) && [] in t
    ensures var c' := PutAt(c, Split(key), t);
      && Found(c', key) == (if Split(key) == [key] || [key] !in c then Some(t[[]]) else Found(c, key))
      && ([key] !in c' ==> At(c', Split(key)) == Some(t[[]]))
      && (Split(key) != [key] ==> At(c', [key]) == At(c, [key]))
      && (!Comparable(Split(key), Split(other)) ==> Found(c', other) == Found(c, other))
  {
    hide Split;
    hide PutAt;
    hide Barred;
    hide Comparable;
    var path := Split(key);
    PutIsThere(c, path, t);
    LiteralApart(key, key);
    LiteralApart(key, other);
    if path != [key] {
      AtAside(c, path, t, [key]);
    }
    if !Comparable(path, Split(other)) {
      AtAside(c, path, t, Split(other));
      if Split(other) != [other] {
        AtAside(c, path, t, [other]);
      }
    }
  }

  lemma PutIsThere<V>(c: Contents<V>, path: Path, t: Contents<V>)
    requires !Barred(c, path) && path != [] && [] in t
    ensures At(PutAt(c, path, t), path) == Some(t[[]])
  {
    AtAfterPut(c, path, t, path);
    assert path[|path|..] == [];
  }

  /** A dotted key is no segment of any path, so neither above nor below one. */
  lemma LiteralApart(key: string, other: string)
    ensures Split(other) != [other] ==> !Comparable(Split(key), [other])
  {
    JoinOfSplit(key);
    JoinOfSplit(other);
    if |Split(other)| > 1 {
      DottedKeyIsNoSegment(other);
      assert Split(key)[0] in Split(key);
    }
  }

  lemma {:induction false} DottedKeyIsNoSegment(key: string)
    requires |Split(key)| > 1
    ensures '.' in key
  {
    if key[0] != '.' {
      DottedKeyIsNoSegment(key[1..]);
    }
  }

  /** What can be put: a plain value, or a map. */
  datatype Argument<V(!new)> = Plain(value: V) | Map(dynmap: DynMap<V>) {
    /** How it is stored; a map by reference. */
    function Stored(): Value<V> {
      if Plain? then Leaf(value) else Ref(dynmap.Map)
    }

    ghost function Maps(): set<GoMap<V>>
      reads if Map? then {dynmap} else {}
    {
      if Plain? then {} else dynmap.Repr
    }

    /** Its contents with an entry for itself. */
    ghost function Whole(): Contents<V>
      reads if Map? then {dynmap} else {}
    {
      if Plain? then Single(value) else TreeContents.Whole(dynmap.Contents)
    }

    /** A map is a tree in maps of its own. */
    ghost predicate Apart(from: set<GoMap<V>>)
      reads if Map? then {dynmap} + dynmap.Repr else {}
    {
      Map? ==> dynmap.Valid() && dynmap.Repr !! from
    }
  }

  class DynMap<V(!new)> {
    const Map: GoMap<V>
    ghost var Repr: set<GoMap<V>>
    ghost var Contents: Contents<V>

    ghost predicate Valid()
      reads this, Repr
    {
      Map in Repr && Tree(Snap(Repr), Map) && Denotes(Snap(Repr), Map, Contents)
    }

    constructor ()
      ensures Valid() && fresh(Repr) && Contents == map[]
    {
      Map := new GoMap();
      new;
      Repr := {Map};
      Contents := map[];
      EmptyDenotes(Map);
      assert Snap(Repr) == map[Map := map[]];
    }

    /** ToDynMap of a nested map: the same map, not a copy. */
    constructor Around(mp: GoMap<V>, ghost repr: set<GoMap<V>>, ghost contents: Contents<V>)
      requires mp in repr && Tree(Snap(repr), mp) && Denotes(Snap(repr), mp, contents)
      ensures Valid() && Map == mp && Repr == repr && Contents == contents
    {
      Map := mp;
      Repr := repr;
      Contents := contents;
    }

    /** Assigns one entry of the nested map mp, reached by prefix, when the nested maps hold c. */
    method Assign(mp: GoMap<V>, key: string, value: Argument<V>, ghost prefix: Path, ghost c: Contents<V>)
      requires Map in Repr && Tree(Snap(Repr), Map) && Denotes(Snap(Repr), Map, c)
      requires mp in Repr && Walk(Snap(Repr), Map, prefix) == Some(mp) && value.Apart(Repr)
      modifies this, mp
      ensures Valid() && Repr == old(Repr) + value.Maps() && mp.m == old(mp.m)[key := value.Stored()]
      ensures !Barred(c, prefix + [key]) && Contents == PutAt(c, prefix + [key], value.Whole())
    {
      hide Walk;
      hide Denotes;
      hide Tree;
      hide Updated;
      hide PutAt;
      hide Barred;
      hide Holds;
      ArgumentHolds(value, Repr);
      SnapHolds(Repr);
      UpdateDenotes(Snap(Repr), Map, prefix, mp, key, Some(value.Stored()), Snap(value.Maps()), c, value.Whole());
      mp.Set(key, value.Stored(), Repr, value.Maps());
      Repr, Contents := Repr + value.Maps(), PutAt(c, prefix + [key], value.Whole());
    }

    /** Puts a value, or a map by reference, under the literal key, whatever was there. */
    method Put(key: string, value: Argument<V>)
      requires Valid() && value.Apart(Repr)
      modifies this, Repr
      ensures Valid() && Repr == old(Repr) + value.Maps()
      ensures !Barred(old(Contents), [key]) && Contents == PutAt(old(Contents), [key], value.Whole())
      ensures forall q: Path :: q != [] ==>
        At(Contents, q) ==
        if q == [key] then Some(if value.Plain? then Present(value.value) else Nested)
        else if [key] < q then (if value.Plain? then None else At(old(value.dynmap.Contents), q[1..]))
        else At(old(Contents), q)
    {
      hide Denotes;
      hide Tree;
      hide Walk;
      hide PutAt;
      hide Barred;
      WalkNowhere(Snap(Repr), Map);
      assert [] + [key] == [key];
      Assign(Map, key, value, [], Contents);
      AfterPutOf(old(Contents), [key], value);
    }

    /** A new, empty map for the next step of a path. */
    method OpenStep(mp: GoMap<V>, k: string, ghost prefix: Path, ghost c0: Contents<V>, ghost c: Contents<V>)
        returns (newmap: GoMap<V>, ghost c': Contents<V>)
      requires Map in Repr && Tree(Snap(Repr), Map) && Denotes(Snap(Repr), Map, c) && MapsAlong(c0, c, prefix)
      requires mp in Repr && Walk(Snap(Repr), Map, prefix) == Some(mp) && k !in mp.m
      modifies this`Repr, mp
      ensures fresh(newmap) && newmap.m == map[] && Repr == old(Repr) + {newmap}
      ensures Tree(Snap(Repr), Map) && Denotes(Snap(Repr), Map, c') && MapsAlong(c0, c', prefix + [k])
      ensures Walk(Snap(Repr), Map, prefix + [k]) == Some(newmap)
    {
      hide Walk;
      hide Denotes;
      hide Tree;
      hide Updated;
      hide MapsAlong;
      SnapHolds(Repr);
      newmap := new GoMap();
      c' := OpenNew(Snap(Repr), Map, c0, c, prefix, mp, k, newmap);
      SnapNew(newmap);
      mp.Set(k, Ref(newmap), Repr, {newmap});
      Repr := Repr + {newmap};
    }

    /** Fails exactly when the path runs through a value that is not a map, and then nothing has changed. */
    method PutWithDot(key: string, value: Argument<V>) returns (r: Result<(), ()>)
      requires Valid() && value.Apart(Repr)
      modifies this, Repr
      ensures Valid() && old(Repr) <= Repr && fresh(Repr - old(Repr) - value.Maps())
      ensures r.Err? <==> Barred(old(Contents), Split(key))
      ensures r.Err? <==> exists p <- old(Contents) :: p < Split(key) && old(Contents)[p].Present?
      ensures r.Err? ==> Contents == old(Contents)
      ensures r.Ok? ==> var path := Split(key); forall q: Path :: q != [] ==>
        At(Contents, q) ==
        if q == path then Some(if value.Plain? then Present(value.value) else Nested)
        else if path < q then (if value.Plain? then None else At(old(value.dynmap.Contents), q[|path|..]))
        else if q < path then Some(Nested)
        else At(old(Contents), q)
      ensures Contents == PutAt(old(Contents), Split(key), value.Whole())
      ensures r.Err? ==> Repr == old(Repr) && forall o <- Repr :: o.m == old(o.m)
    {
      hide Walk;
      hide Entry;
      hide Tree;
      hide Denotes;
      hide PutAt;
      hide Barred;
      hide Split;
      hide Updated;
      hide Snap;
      hide Holds;
      hide MapsAlong;
      hide WellFormed;
      var path := Split(key);
      if |path| == 1 {
        SingleSegment(key);
        BarredMeans(Contents, path);
        Put(key, value);
        return Ok(());
      }
      var mapKeys, last := path[..|path| - 1], path[|path| - 1];
      var mp := Map;
      ghost var s0, c0, c, created := Snap(Repr), Contents, Contents, false;
      WalkNowhere(s0, Map);
      DenotesWellFormed(s0, Map, c0);
      NoMapsYet(c0);
      BarredMeans(c0, path);
      SnapHolds(Repr);
      assert mapKeys[..0] == [];
      for i := 0 to |mapKeys|
        invariant Contents == c0 && old(Repr) <= Repr && fresh(Repr - old(Repr))
        invariant mp in Repr && Tree(Snap(Repr), Map) && Walk(Snap(Repr), Map, mapKeys[..i]) == Some(mp)
        invariant Denotes(Snap(Repr), Map, c) && MapsAlong(c0, c, mapKeys[..i])
        invariant if created then mp.m == map[] else Repr == old(Repr) && Snap(Repr) == s0
      {
        var k := mapKeys[i];
        SnapHolds(Repr);
        assert mapKeys[..i + 1] == mapKeys[..i] + [k];
        StepDown(Snap(Repr), Map, c, mapKeys[..i], mp, k);
        if k !in mp.m {
          mp, c := OpenStep(mp, k, mapKeys[..i], c0, c);
          created := true;
        } else {
          match mp.m[k] {
            case Ref(ref) =>
              MapsAlongFurther(c0, c, mapKeys[..i], k);
              mp := ref;
            case Leaf(_) =>
              assert path[..i + 1] == mapKeys[..i + 1];
              ValueBars(c0, c, mapKeys[..i], k, path, value.Whole());
              return Err(());
          }
        }
      }
      assert mapKeys[..|mapKeys|] == mapKeys && path == mapKeys + [last];
      MapsAlongPut(c0, c, mapKeys, last, value.Whole());
      Assign(mp, last, value, mapKeys, c);
      AfterPutOf(c0, path, value);
      return Ok(());
    }

    method Get(key: string) returns (r: Option<Value<V>>)
      requires Valid()
      ensures Kind(r) == Found(Contents, key)
      ensures Kind(r) == if [key] in Contents then Some(Contents[[key]]) else At(Contents, Split(key))
    {
      hide Split;
      hide Denotes;
      ghost var s := Snap(Repr);
      RootEntry(s, Map, key);
      KindIsAt(s, Map, Contents, [key]);
      if key in Map.m {
        return Some(Map.m[key]);
      }
      var path := Split(key);
      KindIsAt(s, Map, Contents, path);
      if |path| == 1 {
        SingleSegment(key);
        return None;
      }
      var mp := Map;
      for i := 0 to |path|
        invariant i < |path|
        invariant mp in Repr && Walk(s, Map, path[..i]) == Some(mp)
      {
        var k := path[i];
        assert path[..i + 1][..i] == path[..i];
        assert Entry(s, Map, path[..i + 1]) == if k in mp.m then Some(mp.m[k]) else None;
        if i == |path| - 1 {
          assert path[..i + 1] == path;
          return if k in mp.m then Some(mp.m[k]) else None;
        }
        if k !in mp.m || mp.m[k].Leaf? {
          NothingBelow(s, Map, path[..i + 1], path);
          return None;
        }
        mp := mp.m[k].ref;
      }
    }

    method PutIfAbsent(key: string, value: Argument<V>) returns (r: Value<V>, absent: bool)
      requires Valid() && value.Apart(Repr)
      modifies this, Repr
      ensures Valid() && (absent <==> Found(old(Contents), key).None?)
      ensures absent <==> [key] !in old(Contents) && Split(key) !in old(Contents)
      ensures absent ==> r == value.Stored() && Repr == old(Repr) + value.Maps()
      ensures absent ==> Contents == PutAt(old(Contents), [key], value.Whole())
      ensures !absent ==> Kind(Some(r)) == Found(old(Contents), key) && Repr == old(Repr)
      ensures !absent ==> Contents == old(Contents) && forall o <- Repr :: o.m == old(o.m)
    {
      var v := Get(key);
      if v.Some? {
        return v.value, false;
      }
      Put(key, value);
      return value.Stored(), true;
    }

    method Remove(key: string) returns (r: Option<Value<V>>)
      requires Valid()
      modifies this, Repr
      ensures Valid() && Repr == old(Repr)
      ensures Kind(r) == At(old(Contents), [key])
      ensures Contents == PutAt(old(Contents), [key], map[])
    {
      hide Denotes;
      hide Tree;
      hide PutAt;
      ghost var s := Snap(Repr);
      RootEntry(s, Map, key);
      KindIsAt(s, Map, Contents, [key]);
      r := if key in Map.m then Some(Map.m[key]) else None;
      WalkNowhere(s, Map);
      assert [] + [key] == [key];
      UpdateDenotes(s, Map, [], Map, key, None, map[], Contents, map[]);
      Map.Delete(key, Repr);
      Contents := PutAt(Contents, [key], map[]);
    }

    /** A copy of the whole tree that shares no map with it. */
    method Clone() returns (mp: DynMap<V>)
      requires Valid()
      ensures fresh(mp) && mp.Valid() && fresh(mp.Repr) && mp.Contents == Contents
      decreases Longest(Contents), 1
    {
      hide Valid;
      hide At;
      hide Barred;
      hide PutAt;
      hide HeadsOutside;
      hide Sub;
      hide Longest;
      mp := new DynMap();
      var todo := Map.m.Keys;
      NothingYet();
      while todo != {}
        invariant todo <= Map.m.Keys
        invariant fresh(mp) && fresh(mp.Repr) && mp.Valid()
        invariant mp.Contents == HeadsOutside(Contents, todo)
        decreases |todo|
      {
        var k :| k in todo;
        KeyDone(todo, k);
        var v := CloneEntry(k);
        mp.Put(k, v);
        todo := todo - {k};
      }
      AllCopied(Contents);
    }

    lemma NothingYet()
      requires Valid()
      ensures HeadsOutside(Contents, Map.m.Keys) == map[]
    {
      NothingCopied(Snap(Repr), Map, Contents);
    }

    lemma KeyDone(todo: set<string>, k: string)
      requires Valid() && k in todo && k in Map.m
      ensures PutAt(HeadsOutside(Contents, todo), [k], Sub(Contents, k)) == HeadsOutside(Contents, todo - {k})
    {
      RootHolds(Snap(Repr), Map, Contents, k);
      HeadDone(Contents, todo, k);
    }

    /** The value at a key, or a clone of the map there. */
    method CloneEntry(k: string) returns (v: Argument<V>)
      requires Valid() && k in Map.m
      ensures fresh(v.Maps()) && (v.Map? ==> fresh(v.dynmap) && v.dynmap.Valid())
      ensures v.Whole() == Sub(Contents, k)
      decreases Longest(Contents), 0
    {
      hide Walk;
      hide Entry;
      hide Tree;
      hide Denotes;
      hide PutAt;
      hide HeadsOutside;
      hide Sub;
      hide Below;
      hide Longest;
      hide Snap;
      SnapHolds(Repr);
      RootHolds(Snap(Repr), Map, Contents, k);
      HeadDone(Contents, {k}, k);
      if Map.m[k].Leaf? {
        return Plain(Map.m[k].value);
      }
      SubTree(Snap(Repr), Map, k, Contents);
      LongestBelow(Contents, k);
      var submp := new DynMap.Around(Map.m[k].ref, Repr, Below(Contents, k));
      var clone := submp.Clone();
      return Argument.Map(clone);
    }
  }

  lemma BarredMeans<V>(c: Contents<V>, path: Path)
    ensures Barred(c, path) <==> exists p <- c :: p < path && c[p].Present?
  {
  }

  /** What is at every path after a put of a value or of a map. */
  lemma AfterPutOf<V(!new)>(c: Contents<V>, path: Path, value: Argument<V>)
    requires !Barred(c, path) && path != []
    ensures forall q: Path :: q != [] ==>
      At(PutAt(c, path, value.Whole()), q) ==
      if q == path then Some(if value.Plain? then Present(value.value) else Nested)
      else if path < q then (if value.Plain? then None else At(value.dynmap.Contents, q[|path|..]))
      else if q < path then Some(Nested)
      else At(c, q)
  {
    hide PutAt;
    hide Barred;
    forall q: Path | q != []
      ensures At(PutAt(c, path, value.Whole()), q) ==
        if path <= q then At(value.Whole(), q[|path|..]) else if q < path then Some(Nested) else At(c, q)
      ensures path <= q ==> (q[|path|..] == [] <==> q == path)
    {
      AtAfterPut(c, path, value.Whole(), q);
      PrefixOrEqual(path, q);
    }
  }

  lemma KindIsAt<V(!new)>(s: Store<V>, root: GoMap<V>, c: Contents<V>, q: Path)
    requires Denotes(s, root, c) && q != []
    ensures Kind(Entry(s, root, q)) == At(c, q)
  {
  }

  lemma WalkNowhere<V(!new)>(s: Store<V>, root: GoMap<V>)
    ensures Walk(s, root, []) == Some(root)
  {
  }

  lemma SnapHolds<V(!new)>(maps: set<GoMap<V>>)
    ensures Snap(maps).Keys == maps && forall o <- maps :: Snap(maps)[o] == o.m
  {
  }

  lemma SingleSegment(key: string)
    requires |Split(key)| == 1
    ensures Split(key) == [key]
  {
    JoinOfSplit(key);
  }

  /** An argument's store is separate and holds its contents. */
  lemma ArgumentHolds<V(!new)>(value: Argument<V>, maps: set<GoMap<V>>)
    requires value.Apart(maps)
    ensures value.Maps() !! maps
    ensures Separate(Snap(maps), Some(value.Stored()), Snap(value.Maps()))
    ensures Holds(Some(value.Stored()), Snap(value.Maps()), value.Whole())
  {
  }

  // ---- walking down, opening maps on the way ----

  /** c is c0 with a map at every step of the prefix, where c0 had a map or nothing. */
  ghost predicate MapsAlong<V>(c0: Contents<V>, c: Contents<V>, prefix: Path) {
    && [] !in c0 && [] !in c
    && forall q: Path :: q != [] ==>
         if q <= prefix then At(c, q) == Some(Nested) && (q in c0 ==> c0[q].Nested?) else At(c, q) == At(c0, q)
  }

  lemma NoMapsYet<V>(c0: Contents<V>)
    ensures [] !in c0 ==> MapsAlong(c0, c0, [])
  {
  }

  lemma MapsAlongFurther<V>(c0: Contents<V>, c: Contents<V>, prefix: Path, k: string)
    requires MapsAlong(c0, c, prefix) && At(c, prefix + [k]) == Some(Nested)
    ensures MapsAlong(c0, c, prefix + [k])
  {
    var p := prefix + [k];
    forall q: Path | q != []
      ensures if q <= p then At(c, q) == Some(Nested) && (q in c0 ==> c0[q].Nested?) else At(c, q) == At(c0, q)
    {
      PrefixOrEqual(q, p);
      assert q < p ==> q <= prefix;
      assert q <= prefix ==> q <= p;
    }
  }

  /** What the map at the end of a prefix says of the next step. */
  lemma StepDown<V(!new)>(s: Store<V>, root: GoMap<V>, c: Contents<V>, prefix: Path, o: GoMap<V>, k: string)
    requires Tree(s, root) && Denotes(s, root, c) && Walk(s, root, prefix) == Some(o) && o in s
    ensures [] !in c
    ensures At(c, prefix + [k]) == Kind(if k in s[o] then Some(s[o][k]) else None)
    ensures k in s[o] && s[o][k].Ref? ==>
      s[o][k].ref in s && Walk(s, root, prefix + [k]) == Some(s[o][k].ref)
  {
    assert (prefix + [k])[..|prefix|] == prefix;
    KindIsAt(s, root, c, prefix + [k]);
  }

  /** A new, empty map for the next step. */
  lemma OpenNew<V(!new)>(s: Store<V>, root: GoMap<V>, c0: Contents<V>, c: Contents<V>, prefix: Path, o: GoMap<V>,
                         k: string, n: GoMap<V>) returns (c': Contents<V>)
    requires Tree(s, root) && Denotes(s, root, c) && Walk(s, root, prefix) == Some(o) && o in s
    requires MapsAlong(c0, c, prefix) && k !in s[o] && n !in s
    ensures var s' := Updated(s, o, k, Some(Ref(n)), map[n := map[]]);
      Tree(s', root) && Denotes(s', root, c') && Walk(s', root, prefix + [k]) == Some(n)
    ensures MapsAlong(c0, c', prefix + [k])
  {
    hide Walk;
    hide Entry;
    hide Tree;
    hide Denotes;
    hide PutAt;
    hide Barred;
    hide Updated;
    var p, t := prefix + [k], map[n := map[]];
    EmptyDenotes(n);
    NewIsSeparate(s, n);
    c' := PutAt(c, p, Whole(map[]));
    UpdateDenotes(s, root, prefix, o, k, Some(Ref(n)), t, c, Whole(map[]));
    WalkAfterUpdate(s, root, prefix, o, k, Some(Ref(n)), t, p);
    WalkNowhere(t, n);
    assert p[|p|..] == [];
    StepDown(s, root, c, prefix, o, k);
    RootAfterPut(c, p, Whole(map[]));
    forall q: Path | q != []
      ensures if q <= p then At(c', q) == Some(Nested) && (q in c0 ==> c0[q].Nested?) else At(c', q) == At(c0, q)
    {
      AtAfterPut(c, p, Whole(map[]), q);
      PrefixOrEqual(q, p);
      PrefixOrEqual(p, q);
      assert q < p ==> q <= prefix;
      assert p <= q && q != p ==> q[|p|..] != [] && !(q <= prefix) && At(c, q) == At(c0, q);
      if p < q {
        NothingBelowNothing(s, root, c, p, q);
      }
    }
  }

  lemma NothingBelowNothing<V(!new)>(s: Store<V>, root: GoMap<V>, c: Contents<V>, p: Path, q: Path)
    requires Denotes(s, root, c) && p != [] && p < q && At(c, p) == None
    ensures At(c, q) == None
  {
    DenotesWellFormed(s, root, c);
  }

  lemma NewIsSeparate<V(!new)>(s: Store<V>, n: GoMap<V>)
    requires n !in s
    ensures Separate(s, Some(Ref(n)), map[n := map[]])
    ensures Holds(Some(Ref(n)), map[n := map[]], Whole(map[]))
  {
    EmptyDenotes(n);
  }

  lemma SnapNew<V(!new)>(n: GoMap<V>)
    ensures n.m == map[] ==> Snap({n}) == map[n := map[]]
  {
  }

  lemma ValueBars<V>(c0: Contents<V>, c: Contents<V>, prefix: Path, k: string, path: Path, t: Contents<V>)
    requires MapsAlong(c0, c, prefix) && prefix + [k] < path
    requires At(c, prefix + [k]).Some? && At(c, prefix + [k]).value.Present?
    ensures Barred(c0, path) && PutAt(c0, path, t) == c0
  {
    assert !(prefix + [k] <= prefix);
    assert At(c, prefix + [k]) == At(c0, prefix + [k]);
  }

  /** Putting at the end of the opened prefix is putting into what was there before. */
  lemma MapsAlongPut<V>(c0: Contents<V>, c: Contents<V>, prefix: Path, k: string, t: Contents<V>)
    requires MapsAlong(c0, c, prefix)
    ensures !Barred(c0, prefix + [k]) && PutAt(c, prefix + [k], t) == PutAt(c0, prefix + [k], t)
  {
    var path := prefix + [k];
    forall q <- c | q < path ensures q <= prefix && c[q].Nested? {
      assert q != [] && At(c, q) == Some(c[q]);
    }
    forall q <- c0 | q < path ensures q <= prefix && c0[q].Nested? {
      assert q != [];
    }
    RootAfterPut(c0, path, t);
    RootAfterPut(c, path, t);
    forall q: Path | q != [] ensures At(PutAt(c, path, t), q) == At(PutAt(c0, path, t), q) {
      AtAfterPut(c, path, t, q);
      AtAfterPut(c0, path, t, q);
      assert q <= prefix ==> q < path;
    }
    SameContents(PutAt(c, path, t), PutAt(c0, path, t));
  }

  // ---- copying key by key ----

  /** What does not lie under one of the keys. */
  ghost function HeadsOutside<V>(c: Contents<V>, keys: set<string>): Contents<V> {
    map p | p in c && (p == [] || p[0] !in keys) :: c[p]
  }

  lemma RootHolds<V(!new)>(s: Store<V>, root: GoMap<V>, c: Contents<V>, k: string)
    requires root in s && Denotes(s, root, c) && k in s[root]
    ensures WellFormed(c) && At(c, [k]) == Kind(Some(s[root][k]))
  {
    RootEntry(s, root, k);
    KindIsAt(s, root, c, [k]);
    DenotesWellFormed(s, root, c);
  }

  lemma NothingCopied<V(!new)>(s: Store<V>, root: GoMap<V>, c: Contents<V>)
    requires root in s && Denotes(s, root, c)
    ensures HeadsOutside(c, s[root].Keys) == map[]
  {
    DenotesWellFormed(s, root, c);
    forall p <- c ensures p != [] && p[0] in s[root] {
      RootEntry(s, root, p[0]);
      KindIsAt(s, root, c, [p[0]]);
      PrefixOrEqual([p[0]], p);
    }
  }

  lemma AllCopied<V>(c: Contents<V>)
    ensures HeadsOutside(c, {}) == c
  {
  }

  /** Putting what is at a key completes that key. */
  lemma HeadDone<V>(c: Contents<V>, todo: set<string>, k: string)
    requires WellFormed(c) && k in todo && [k] in c
    ensures PutAt(HeadsOutside(c, todo), [k], Sub(c, k)) == HeadsOutside(c, todo - {k})
    ensures c[[k]].Present? ==> Sub(c, k) == Single(c[[k]].value)
  {
    var d, t, e := HeadsOutside(c, todo), Sub(c, k), HeadsOutside(c, todo - {k});
    RootAfterPut(d, [k], t);
    assert [k] + [] == [k];
    forall q: Path | q != [] ensures At(PutAt(d, [k], t), q) == At(e, q) {
      AtAfterPut(d, [k], t, q);
      assert [k] <= q ==> q == [k] + q[1..];
    }
    SameContents(PutAt(d, [k], t), e);
    forall r <- t ensures c[[k]].Present? ==> r == [] {
      assert r != [] ==> [k] < [k] + r;
    }
  }
}
