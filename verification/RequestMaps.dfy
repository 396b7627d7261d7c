/** A request as a DynMap (Request.ToDynMap in cheshire/strestpackets.go): five dotted puts into one tree,
    the first of them of the parameter map itself, which may be empty. */
module RequestMaps {
  import opened Wrappers
  import opened Paths
  import opened LeafMaps
  import opened TreeContents
  import opened GoMaps
  import opened DynMaps

  /** Everything lies below the key strest, which is a map. */
  ghost predicate UnderStrest<V>(c: Contents<V>) {
    && [] !in c && At(c, ["strest"]) == Some(Nested)
    && forall p <- c :: p[0] == "strest"
  }

  /** A put below strest with no value in the way succeeds, is found, and leaves the rest alone. */
  lemma PutUnderStrest<V>(c: Contents<V>, key: string, t: Contents<V>)
    requires (UnderStrest(c) || c == map[]) && [] in t && key != "strest"
    requires |Split(key)| > 1 && Split(key)[0] == "strest" && !Barred(c, Split(key))
    ensures UnderStrest(PutAt(c, Split(key), t))
    ensures Found(PutAt(c, Split(key), t), key) == Some(t[[]])
    ensures forall other :: !Comparable(Split(key), Split(other)) ==>
                              Found(PutAt(c, Split(key), t), other) == Found(c, other)
  {
    var path := Split(key);
    RootAfterPut(c, path, t);
    AtAfterPut(c, path, t, ["strest"]);
    assert ["strest"] < path;
    var c' := PutAt(c, path, t);
    forall p <- c' ensures p[0] == "strest" {
      AtAfterPut(c, path, t, p);
    }
    assert [key] !in c;
    FoundAfterPutWithDot(c, key, t, key);
    forall other | !Comparable(path, Split(other)) ensures Found(c', other) == Found(c, other) {
      FoundAfterPutWithDot(c, key, t, other);
    }
  }

  lemma NothingBars<V>(c: Contents<V>, key: string)
    requires UnderStrest(c) || c == map[]
    requires |Split(key)| == 2 && Split(key)[0] == "strest"
    ensures !Barred(c, Split(key))
  {
    forall p <- c | p < Split(key) ensures c[p].Nested? {
      assert p == ["strest"];
    }
  }

  lemma TxnDoesNotBar<V>(c: Contents<V>)
    requires UnderStrest(c) && Found(c, "strest.txn") == None
    ensures !Barred(c, Split("strest.txn.accept"))
  {
    Keys();
    forall p <- c | p < Split("strest.txn.accept") ensures c[p].Nested? {
      assert p == ["strest"] || p == ["strest", "txn"];
    }
  }

  lemma Keys()
    ensures Split("strest.params") == ["strest", "params"] && Split("strest.v") == ["strest", "v"]
    ensures Split("strest.uri") == ["strest", "uri"] && Split("strest.method") == ["strest", "method"]
    ensures Split("strest.txn") == ["strest", "txn"]
    ensures Split("strest.txn.accept") == ["strest", "txn", "accept"]
  {
    hide Split;
    TwoSegments("params");
    TwoSegments("v");
    TwoSegments("uri");
    TwoSegments("method");
    TwoSegments("txn");
    TxnAcceptKey();
    assert "strest" + "." + "params" == "strest.params" && "strest" + "." + "v" == "strest.v";
    assert "strest" + "." + "uri" == "strest.uri" && "strest" + "." + "method" == "strest.method";
    assert "strest" + "." + "txn" == "strest.txn";
  }

  lemma TxnAcceptKey()
    ensures Split("strest.txn.accept") == ["strest", "txn", "accept"]
  {
    hide Split;
    SplitOfSegment("strest", "txn.accept");
    SplitOfSegment("txn", "accept");
    SplitOfSegment("accept", "");
    assert "strest" + "." + "txn.accept" == "strest.txn.accept" && "txn" + "." + "accept" == "txn.accept";
  }

  /** Different names below strest are on different branches. */
  lemma Branches(a: string, b: string, q: Path)
    requires a != b
    ensures !Comparable(["strest", a], ["strest", b] + q) && !Comparable(["strest", b] + q, ["strest", a])
  {
    assert (["strest", b] + q)[1] == b && ["strest", a][1] == a;
  }

  lemma FromParams()
    ensures !Comparable(["strest", "params"], ["strest", "txn"])
    ensures !Comparable(["strest", "v"], ["strest", "params"]) && !Comparable(["strest", "v"], ["strest", "txn"])
    ensures !Comparable(["strest", "uri"], ["strest", "params"]) && !Comparable(["strest", "uri"], ["strest", "txn"])
    ensures !Comparable(["strest", "uri"], ["strest", "v"])
    ensures !Comparable(["strest", "method"], ["strest", "params"])
    ensures !Comparable(["strest", "method"], ["strest", "v"])
    ensures !Comparable(["strest", "method"], ["strest", "uri"])
    ensures !Comparable(["strest", "method"], ["strest", "txn"])
  {
    hide Comparable;
    assert forall p: Path :: p + [] == p;
    Branches("params", "txn", []);
    Branches("v", "params", []);
    Branches("v", "txn", []);
    Branches("uri", "params", []);
    Branches("uri", "txn", []);
    Branches("uri", "v", []);
    Branches("method", "params", []);
    Branches("method", "v", []);
    Branches("method", "uri", []);
    Branches("method", "txn", []);
  }

  lemma FromTxnAccept()
    ensures !Comparable(["strest", "txn", "accept"], ["strest", "params"])
    ensures !Comparable(["strest", "txn", "accept"], ["strest", "v"])
    ensures !Comparable(["strest", "txn", "accept"], ["strest", "uri"])
    ensures !Comparable(["strest", "txn", "accept"], ["strest", "method"])
  {
    hide Comparable;
    assert ["strest", "txn"] + ["accept"] == ["strest", "txn", "accept"];
    Branches("params", "txn", ["accept"]);
    Branches("v", "txn", ["accept"]);
    Branches("uri", "txn", ["accept"]);
    Branches("method", "txn", ["accept"]);
  }

  lemma TwoSegments(s: string)
    requires Dotless(s)
    ensures Split("strest" + "." + s) == ["strest", s]
  {
    SplitOfSegment("strest", s);
    SplitOfSegment(s, "");
  }

  /** The contents after the five puts, of t and four values. */
  ghost function WithHead<V>(t: Contents<V>, version: V, uri: V, httpMethod: V): Contents<V> {
    var c1 := PutAt(map[], Split("strest.params"), t);
    var c2 := PutAt(c1, Split("strest.v"), Single(version));
    var c3 := PutAt(c2, Split("strest.uri"), Single(uri));
    PutAt(c3, Split("strest.method"), Single(httpMethod))
  }

  ghost function RequestContents<V>(t: Contents<V>, version: V, uri: V, httpMethod: V, txnAccept: V): Contents<V> {
    PutAt(WithHead(t, version, uri, httpMethod), Split("strest.txn.accept"), Single(txnAccept))
  }

  lemma HeadFound<V>(t: Contents<V>, version: V, uri: V, httpMethod: V)
    requires [] in t
    ensures var c := WithHead(t, version, uri, httpMethod);
      && UnderStrest(c) && Found(c, "strest.params") == Some(t[[]]) && Found(c, "strest.v") == Some(Present(version))
      && Found(c, "strest.uri") == Some(Present(uri)) && Found(c, "strest.method") == Some(Present(httpMethod))
      && Found(c, "strest.txn") == None
  {
    hide Split;
    hide PutAt;
    hide Barred;
    hide Found;
    hide UnderStrest;
    hide Comparable;
    Keys();
    FromParams();
    NothingFound<V>("strest.txn");
    var c0: Contents<V> := map[];
    NothingBars(c0, "strest.params");
    PutUnderStrest(c0, "strest.params", t);
    var c1 := PutAt(c0, Split("strest.params"), t);
    NothingBars(c1, "strest.v");
    PutUnderStrest(c1, "strest.v", Single(version));
    var c2 := PutAt(c1, Split("strest.v"), Single(version));
    NothingBars(c2, "strest.uri");
    PutUnderStrest(c2, "strest.uri", Single(uri));
    var c3 := PutAt(c2, Split("strest.uri"), Single(uri));
    NothingBars(c3, "strest.method");
    PutUnderStrest(c3, "strest.method", Single(httpMethod));
  }

  /** All five values are found, the parameters as a map. */
  lemma RequestFound<V>(t: Contents<V>, version: V, uri: V, httpMethod: V, txnAccept: V)
    requires [] in t
    ensures var c := RequestContents(t, version, uri, httpMethod, txnAccept);
      && Found(c, "strest.params") == Some(t[[]]) && Found(c, "strest.v") == Some(Present(version))
      && Found(c, "strest.uri") == Some(Present(uri)) && Found(c, "strest.method") == Some(Present(httpMethod))
      && Found(c, "strest.txn.accept") == Some(Present(txnAccept))
  {
    hide Split;
    hide PutAt;
    hide Barred;
    hide Found;
    hide UnderStrest;
    hide Comparable;
    hide WithHead;
    Keys();
    FromTxnAccept();
    HeadFound(t, version, uri, httpMethod);
    var c := WithHead(t, version, uri, httpMethod);
    TxnDoesNotBar(c);
    PutUnderStrest(c, "strest.txn.accept", Single(txnAccept));
  }

  /** The parameter map is stored by reference. */
  method ToDynMap<V(!new)>(params: DynMap<V>, version: V, uri: V, httpMethod: V, txnAccept: V)
      returns (request: DynMap<V>)
    requires params.Valid()
    modifies params.Repr
    ensures fresh(request) && request.Valid()
    ensures var c := request.Contents;
      && c == RequestContents(Whole(old(params.Contents)), version, uri, httpMethod, txnAccept)
      && Found(c, "strest.params") == Some(Nested) && Found(c, "strest.v") == Some(Present(version))
      && Found(c, "strest.uri") == Some(Present(uri)) && Found(c, "strest.method") == Some(Present(httpMethod))
      && Found(c, "strest.txn.accept") == Some(Present(txnAccept))
  {
    hide Split;
    hide PutAt;
    hide Barred;
    hide Found;
    hide DynMap.Valid;
    RequestFound(Whole(params.Contents), version, uri, httpMethod, txnAccept);
    request := new DynMap();
    var _ := request.PutWithDot("strest.params", Argument.Map(params));
    var _ := request.PutWithDot("strest.v", Plain(version));
    var _ := request.PutWithDot("strest.uri", Plain(uri));
    var _ := request.PutWithDot("strest.method", Plain(httpMethod));
    var _ := request.PutWithDot("strest.txn.accept", Plain(txnAccept));
  }

  lemma NothingFound<V>(key: string)
    ensures Found<V>(map[], key) == None
  {
  }
}
