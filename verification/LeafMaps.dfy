/** The contents of a nested map as one flat map from the paths of its leaves to their values. */
module LeafMaps {
  import opened Paths

  type Leaves<+V> = map<Path, V>

  /** No leaf lies on the way to another. */
  ghost predicate PrefixFree<V>(l: Leaves<V>) {
    [] !in l && forall p <- l, q <- l :: p <= q ==> p == q
  }

  /** There is a leaf on the way to the path. */
  ghost predicate Blocked<V>(l: Leaves<V>, path: Path) {
    exists p <- l :: p < path
  }

  /** Putting a value at a path: nothing happens below a leaf, and everything below the path goes. */
  ghost function PutLeaf<V>(l: Leaves<V>, path: Path, v: V): Leaves<V> {
    if Blocked(l, path) then l else (map q | q in l && !(path <= q) :: l[q])[path := v]
  }

  /** The path leads to a map because some leaf lies below it. */
  ghost predicate Inner<V>(l: Leaves<V>, q: Path) {
    exists p <- l :: q < p
  }

  lemma PutLeafKeepsPrefixFree<V>(l: Leaves<V>, path: Path, v: V)
    requires PrefixFree(l) && path != []
    ensures PrefixFree(PutLeaf(l, path, v))
  {
  }

  predicate Comparable(p: Path, q: Path) {
    p <= q || q <= p
  }

  lemma InnerAfterPut<V>(l: Leaves<V>, path: Path, v: V, q: Path)
    requires !Blocked(l, path)
    ensures path <= q ==> !Inner(PutLeaf(l, path, v), q)
    ensures !Comparable(path, q) ==> (Inner(PutLeaf(l, path, v), q) <==> Inner(l, q))
  {
    var l' := PutLeaf(l, path, v);
    if !Comparable(path, q) && Inner(l, q) {
      var p :| p in l && q < p;
      assert p in l' by {
        if path <= p {
          BothPrefixes(path, q, p);
        }
      }
    }
  }

  lemma BothPrefixes(a: Path, b: Path, c: Path)
    requires a <= c && b <= c
    ensures Comparable(a, b)
  {
    if |a| <= |b| {
      assert a == c[..|a|] == b[..|a|];
    } else {
      assert b == c[..|b|] == a[..|b|];
    }
  }

  /** The entries no other entry lies on the way to. */
  ghost function Minimal<V>(m: map<Path, V>): Leaves<V> {
    map p | p in m && !Blocked(m, p) :: m[p]
  }

  lemma {:induction false} MinimalBelow<V>(m: map<Path, V>, p: Path) returns (q: Path)
    requires p in m
    ensures q in Minimal(m) && q <= p
    decreases |p|
  {
    if Blocked(m, p) {
      var r :| r in m && r < p;
      q := MinimalBelow(m, r);
    } else {
      q := p;
    }
  }

  lemma BlockedByMinimal<V>(m: map<Path, V>, p: Path)
    ensures Blocked(Minimal(m), p) <==> Blocked(m, p)
  {
    if Blocked(m, p) {
      var r :| r in m && r < p;
      var q := MinimalBelow(m, r);
    }
  }

  lemma PrefixOrEqual(p: Path, q: Path)
    ensures p <= q <==> p < q || p == q
  {
    if p <= q && |p| == |q| {
      assert p == q[..|p|] == q;
    }
  }

  lemma BlockedAfter<V>(m: map<Path, V>, path: Path, v: V, q: Path)
    ensures Blocked(m[path := v], q) <==> Blocked(m, q) || path < q
  {
    if Blocked(m, q) {
      var r :| r in m && r < q;
      assert r in m[path := v];
    }
    if path < q {
      assert path in m[path := v];
    }
  }

  lemma BlockedFurther<V>(m: map<Path, V>, path: Path, q: Path)
    requires Blocked(m, path) && path <= q
    ensures Blocked(m, q)
  {
    var r :| r in m && r < path;
    assert r < q;
  }

  /** Putting into the minimal entries is taking the minimal entries after adding one: earlier puts that
      a later, higher put overwrites, and later puts that an earlier, higher one blocks, come to the
      same. */
  lemma PutLeafIsMinimal<V>(m: map<Path, V>, path: Path, v: V)
    ensures PutLeaf(Minimal(m), path, v) == Minimal(m[path := v])
  {
    BlockedByMinimal(m, path);
    var m' := m[path := v];
    var a, b := PutLeaf(Minimal(m), path, v), Minimal(m');
    forall q: Path ensures q in a <==> q in b {
      BlockedAfter(m, path, v, q);
      PrefixOrEqual(path, q);
      if Blocked(m, path) && path <= q {
        BlockedFurther(m, path, q);
      }
    }
  }

  lemma MinimalOfPrefixFree<V>(l: Leaves<V>)
    requires PrefixFree(l)
    ensures Minimal(l) == l
  {
  }
}
