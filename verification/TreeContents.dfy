/** The contents of nested maps: what lies at every path, a value or a nested map, empty or not. */
module TreeContents {
  import opened Wrappers
  import opened Paths
  import opened LeafMaps

  datatype Node<+V> = Present(value: V) | Nested

  /** By path, starting below the outermost map. */
  type Contents<+V> = map<Path, Node<V>>

  ghost function At<V>(c: Contents<V>, q: Path): Option<Node<V>> {
    if q in c then Some(c[q]) else None
  }

  /** Everything above something is a nested map. */
  ghost predicate WellFormed<V>(c: Contents<V>) {
    [] !in c && forall p <- c, q: Path :: q != [] && q < p ==> q in c && c[q].Nested?
  }

  // ---- putting ----

  /** There is a value on the way to the path. */
  ghost predicate Barred<V>(c: Contents<V>, path: Path) {
    exists p <- c :: p < path && c[p].Present?
  }

  /** What is put, as contents with an entry for itself: a value, or a map and what is in it. */
  ghost function Single<V>(v: V): Contents<V> {
    map[[] := Present(v)]
  }

  ghost function Whole<V>(c: Contents<V>): Contents<V> {
    c[[] := Nested]
  }

  ghost function Above(path: Path): set<Path> {
    set i | 0 < i < |path| :: path[..i]
  }

  ghost function Moved<V>(t: Contents<V>, path: Path): set<Path> {
    set r | r in t :: path + r
  }

  /** Putting t at a path: nothing happens below a value; otherwise every step on the way is a map, and
      t replaces whatever was at the path and below. With an empty t this removes. */
  ghost function PutAt<V>(c: Contents<V>, path: Path, t: Contents<V>): Contents<V> {
    if Barred(c, path) then c
    else
      map q | q in c.Keys + Above(path) + Moved(t, path) && (path <= q ==> q[|path|..] in t) ::
        if path <= q then t[q[|path|..]] else if q < path then Nested else c[q]
  }

  lemma AtAfterPut<V>(c: Contents<V>, path: Path, t: Contents<V>, q: Path)
    requires !Barred(c, path) && q != []
    ensures At(PutAt(c, path, t), q) ==
            if path <= q then At(t, q[|path|..]) else if q < path then Some(Nested) else At(c, q)
  {
    if path <= q {
      assert q == path + q[|path|..];
    } else if q < path {
      assert q == path[..|q|];
    }
  }

  lemma RootAfterPut<V>(c: Contents<V>, path: Path, t: Contents<V>)
    requires [] !in c && path != []
    ensures [] !in PutAt(c, path, t)
  {
  }

  lemma SameContents<V>(a: Contents<V>, b: Contents<V>)
    requires [] !in a && [] !in b && forall q: Path :: q != [] ==> At(a, q) == At(b, q)
    ensures a == b
  {
    forall q: Path ensures q in a <==> q in b {
      assert q != [] ==> At(a, q) == At(b, q);
    }
    forall q <- a ensures a[q] == b[q] {
      assert At(a, q) == At(b, q);
    }
  }

  // ---- one level down ----

  /** What is at a key, as contents with an entry for itself. */
  ghost function Sub<V>(c: Contents<V>, k: string): (r: Contents<V>)
    ensures forall q :: q in r <==> [k] + q in c
    ensures forall q <- r :: r[q] == c[[k] + q]
  {
    var tails := set p | p in c && p != [] && p[0] == k :: p[1..];
    assert forall p: Path :: p != [] && p[0] == k ==> [k] + p[1..] == p;
    assert forall q: Path :: ([k] + q)[1..] == q && ([k] + q)[0] == k;
    map q | q in tails :: c[[k] + q]
  }

  /** The same without the entry for itself. */
  ghost function Below<V>(c: Contents<V>, k: string): Contents<V> {
    Sub(c, k) - {[]}
  }

  /** The length of the longest path. */
  ghost function Longest<V>(c: Contents<V>): (n: nat)
    ensures forall p <- c :: |p| <= n
    ensures c != map[] ==> exists p <- c :: |p| == n
    decreases |c|
  {
    if c == map[] then 0
    else
      var p :| p in c;
      var rest := c - {p};
      assert forall q <- c :: q == p || q in rest;
      var n := Longest(rest);
      if |p| >= n then |p| else n
  }

  lemma LongestBelow<V>(c: Contents<V>, k: string)
    requires [k] in c
    ensures Longest(Below(c, k)) < Longest(c)
  {
    var b := Below(c, k);
    if b != map[] {
      var q :| q in b && |q| == Longest(b);
      assert [k] + q in c;
    }
  }

  // ---- the values alone ----

  ghost function LeavesOf<V>(c: Contents<V>): Leaves<V> {
    map p | p in c && c[p].Present? :: c[p].value
  }

  /** The contents with these values and no empty map. */
  ghost function Grown<V>(l: Leaves<V>): Contents<V> {
    map q | q in l.Keys + Ways(l) :: if q in l then Present(l[q]) else Nested
  }

  ghost function Ways<V>(l: Leaves<V>): set<Path> {
    set p, q | p in l && q in Above(p) :: q
  }

  lemma WaysAreInner<V>(l: Leaves<V>, q: Path)
    ensures q in Ways(l) <==> q != [] && Inner(l, q)
  {
    if q != [] && Inner(l, q) {
      var p :| p in l && q < p;
      assert q == p[..|q|];
      assert q in Above(p);
    }
  }

  /** Every nested map has a value somewhere below. */
  ghost predicate NoEmptyMap<V>(c: Contents<V>) {
    forall q <- c :: c[q].Nested? ==> Inner(LeavesOf(c), q)
  }

  lemma BarredIsBlocked<V>(c: Contents<V>, path: Path)
    ensures Barred(c, path) <==> Blocked(LeavesOf(c), path)
  {
    if Barred(c, path) {
      var p :| p in c && p < path && c[p].Present?;
      assert p in LeavesOf(c);
    }
  }

  /** On the values alone a put of a value is the put of LeafMaps. */
  lemma LeavesAfterPut<V>(c: Contents<V>, path: Path, v: V)
    requires [] !in c && path != []
    ensures LeavesOf(PutAt(c, path, Single(v))) == PutLeaf(LeavesOf(c), path, v)
  {
    BarredIsBlocked(c, path);
    if !Barred(c, path) {
      var a, b := LeavesOf(PutAt(c, path, Single(v))), PutLeaf(LeavesOf(c), path, v);
      RootAfterPut(c, path, Single(v));
      forall q: Path ensures (q in a <==> q in b) && (q in a ==> a[q] == b[q]) {
        PrefixOrEqual(path, q);
        if q != [] {
          AtAfterPut(c, path, Single(v), q);
        }
      }
    }
  }

  lemma GrownAt<V>(l: Leaves<V>, q: Path)
    requires q != []
    ensures At(Grown(l), q) == if q in l then Some(Present(l[q])) else if Inner(l, q) then Some(Nested) else None
  {
    WaysAreInner(l, q);
  }

  /** A put of a value makes no empty map. */
  lemma GrownPut<V>(l: Leaves<V>, path: Path, v: V)
    requires [] !in l && path != []
    ensures PutAt(Grown(l), path, Single(v)) == Grown(PutLeaf(l, path, v))
  {
    var a, b := PutAt(Grown(l), path, Single(v)), Grown(PutLeaf(l, path, v));
    GrownBars(l, path);
    if !Blocked(l, path) {
      RootAfterPut(Grown(l), path, Single(v));
      forall q: Path | q != [] ensures At(a, q) == At(b, q) {
        GrownPutAt(l, path, v, q);
      }
      SameContents(a, b);
    }
  }

  lemma GrownBars<V>(l: Leaves<V>, path: Path)
    ensures Barred(Grown(l), path) <==> Blocked(l, path)
  {
    if Blocked(l, path) {
      var p :| p in l && p < path;
      assert p in Grown(l);
    }
  }

  lemma GrownPutAt<V>(l: Leaves<V>, path: Path, v: V, q: Path)
    requires path != [] && q != [] && !Blocked(l, path)
    ensures At(PutAt(Grown(l), path, Single(v)), q) == At(Grown(PutLeaf(l, path, v)), q)
  {
    hide PutAt;
    hide Grown;
    var l' := PutLeaf(l, path, v);
    GrownBars(l, path);
    AtAfterPut(Grown(l), path, Single(v), q);
    GrownAt(l, q);
    GrownAt(l', q);
    InnerAfterPut(l, path, v, q);
    PrefixOrEqual(path, q);
    PrefixOrEqual(q, path);
    assert path <= q ==> (q[|path|..] == [] <==> |q| == |path|);
    assert path in l';
  }
}
