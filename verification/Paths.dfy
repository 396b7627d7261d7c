/** Dotted paths and their rails-style form (strings.Split, the key of urlEncode, and the two
    replacements of UnmarshalURLValues in dynmap/dynmap.go). */
module Paths {

  type Path = seq<string>

  /** strings.Split on a dot. */
  function Split(s: string): (p: Path)
    ensures p != []
  {
    if s == "" then [""]
    else if s[0] == '.' then [""] + Split(s[1..])
    else var p := Split(s[1..]); [[s[0]] + p[0]] + p[1..]
  }

  function Join(p: Path): string
    requires p != []
  {
    if |p| == 1 then p[0] else p[0] + "." + Join(p[1..])
  }

  predicate Dotless(s: string) {
    '.' !in s
  }

  lemma {:induction false} SplitOfSegment(s: string, rest: string)
    requires Dotless(s)
    ensures Split(s) == [s]
    ensures Split(s + "." + rest) == [s] + Split(rest)
  {
    if s == "" {
      assert s + "." + rest == "." + rest;
    } else {
      assert s[0] in s;
      SplitOfSegment(s[1..], rest);
      assert (s + "." + rest)[1..] == s[1..] + "." + rest;
      assert s == [s[0]] + s[1..];
    }
  }

  lemma {:induction false} SplitOfJoin(p: Path)
    requires p != [] && forall s <- p :: Dotless(s)
    ensures Split(Join(p)) == p
  {
    assert p[0] in p;
    if |p| == 1 {
      SplitOfSegment(p[0], "");
    } else {
      SplitOfJoin(p[1..]);
      SplitOfSegment(p[0], Join(p[1..]));
      assert p == [p[0]] + p[1..];
    }
  }

  /** Splitting loses nothing, so different keys have different paths, and no segment has a dot. */
  lemma {:induction false} JoinOfSplit(s: string)
    ensures Join(Split(s)) == s && forall t <- Split(s) :: Dotless(t)
  {
    if s != "" {
      JoinOfSplit(s[1..]);
      var p := Split(s[1..]);
      if s[0] == '.' {
        assert ([""] + p)[1..] == p;
        assert s == "." + s[1..] == "" + "." + s[1..];
      } else {
        assert s == [s[0]] + s[1..];
        if |p| > 1 {
          assert ([[s[0]] + p[0]] + p[1..])[1..] == p[1..];
        }
        assert p[0] in p;
      }
    }
  }

  // ---- url keys ----

  /** key[key2][key3] */
  function UrlKey(p: Path): string
    requires p != []
  {
    if |p| == 1 then p[0] else UrlKey(p[..|p| - 1]) + "[" + p[|p| - 1] + "]"
  }

  /** Opening brackets become dots, closing ones vanish. */
  function Unbracket(s: string): string {
    if s == "" then ""
    else (if s[0] == '[' then "." else if s[0] == ']' then "" else [s[0]]) + Unbracket(s[1..])
  }

  /** The path a url key is put at. */
  function PathOfUrlKey(s: string): Path {
    Split(Unbracket(s))
  }

  /** No separator of either notation. */
  predicate CleanSegment(s: string) {
    '.' !in s && '[' !in s && ']' !in s
  }

  predicate Clean(p: Path) {
    forall s <- p :: CleanSegment(s)
  }

  lemma {:induction false} UnbracketConcat(s: string, t: string)
    ensures Unbracket(s + t) == Unbracket(s) + Unbracket(t)
  {
    if s == "" {
      assert s + t == t;
    } else {
      assert (s + t)[1..] == s[1..] + t;
      UnbracketConcat(s[1..], t);
    }
  }

  lemma {:induction false} UnbracketClean(s: string)
    requires CleanSegment(s)
    ensures Unbracket(s) == s
  {
    if s != "" {
      assert s[0] in s;
      UnbracketClean(s[1..]);
    }
  }

  lemma {:induction false} JoinSnoc(p: Path, s: string)
    requires p != []
    ensures Join(p + [s]) == Join(p) + "." + s
  {
    assert (p + [s])[1..] == p[1..] + [s];
    if |p| > 1 {
      JoinSnoc(p[1..], s);
    }
  }

  lemma {:induction false} UnbracketUrlKey(p: Path)
    requires p != [] && Clean(p)
    ensures Unbracket(UrlKey(p)) == Join(p)
  {
    var n := |p| - 1;
    var last := p[n];
    assert last in p;
    UnbracketClean(last);
    if n > 0 {
      UnbracketUrlKey(p[..n]);
      JoinSnoc(p[..n], last);
      assert p == p[..n] + [last];
      UnbracketConcat(UrlKey(p[..n]) + "[" + last, "]");
      UnbracketConcat(UrlKey(p[..n]) + "[", last);
      UnbracketConcat(UrlKey(p[..n]), "[");
      assert Unbracket("]") == "" && Unbracket("[") == "." by {
        assert "]"[1..] == "" && "["[1..] == "";
      }
    }
  }

  lemma {:induction false} UnbracketHasNoBrackets(s: string)
    ensures '[' !in Unbracket(s) && ']' !in Unbracket(s)
  {
    if s != "" {
      UnbracketHasNoBrackets(s[1..]);
    }
  }

  lemma {:induction false} SegmentsFromString(s: string)
    ensures forall t <- Split(s), c <- t :: c in s
  {
    if s != "" {
      SegmentsFromString(s[1..]);
    }
  }

  lemma PathOfUrlKeyIsClean(s: string)
    ensures Clean(PathOfUrlKey(s))
  {
    UnbracketHasNoBrackets(s);
    JoinOfSplit(Unbracket(s));
    SegmentsFromString(Unbracket(s));
  }

  lemma {:induction false} SplitConcat(s: string, t: string)
    ensures Split(s + "." + t) == Split(s) + Split(t)
  {
    if s == "" {
      assert s + "." + t == "." + t;
    } else {
      assert (s + "." + t)[1..] == s[1..] + "." + t;
      SplitConcat(s[1..], t);
    }
  }

  lemma UnbracketMarks(s: string, t: string)
    ensures Unbracket(s + "." + t) == Unbracket(s) + "." + Unbracket(t)
    ensures Unbracket(s + "[" + t) == Unbracket(s) + "." + Unbracket(t)
    ensures Unbracket(s + "]" + t) == Unbracket(s + t)
  {
    assert Unbracket(".") == "." + Unbracket("") && Unbracket("[") == "." + Unbracket("");
    assert Unbracket("]") == "" + Unbracket("");
    hide Unbracket;
    UnbracketConcat(s + ".", t);
    UnbracketConcat(s, ".");
    UnbracketConcat(s + "[", t);
    UnbracketConcat(s, "[");
    UnbracketConcat(s + "]", t);
    UnbracketConcat(s, "]");
    UnbracketConcat(s, t);
  }

  /** An opening bracket or a dot starts the next segment, a closing bracket is skipped, and a key without
      any of them is one segment. */
  lemma PathOfPartedKey(s: string, t: string)
    ensures PathOfUrlKey(s + "." + t) == PathOfUrlKey(s) + PathOfUrlKey(t)
    ensures PathOfUrlKey(s + "[" + t) == PathOfUrlKey(s) + PathOfUrlKey(t)
    ensures PathOfUrlKey(s + "]" + t) == PathOfUrlKey(s + t)
    ensures CleanSegment(s) ==> PathOfUrlKey(s) == [s]
  {
    hide Unbracket;
    hide Split;
    UnbracketMarks(s, t);
    SplitConcat(Unbracket(s), Unbracket(t));
    if CleanSegment(s) {
      UnbracketClean(s);
      SplitOfSegment(s, "");
    }
  }

  lemma UrlKeySnoc(p: Path, k: string)
    requires p != []
    ensures UrlKey(p + [k]) == UrlKey(p) + "[" + k + "]"
  {
    assert (p + [k])[..|p|] == p;
  }

  /** The key of a path: its first segment, and each other one in brackets. */
  lemma {:induction false} UrlKeyForm(a: string, b: string, p: Path)
    ensures UrlKey([a]) == a
    ensures UrlKey([a, b] + p) == a + "[" + b + "]" + UrlKey([""] + p)
  {
    if p == [] {
      UrlKeySnoc([a], b);
      assert [a, b] + p == [a] + [b] && [""] + p == [""];
    } else {
      var n := |p| - 1;
      UrlKeyForm(a, b, p[..n]);
      UrlKeySnoc([a, b] + p[..n], p[n]);
      UrlKeySnoc([""] + p[..n], p[n]);
      assert [a, b] + p == [a, b] + p[..n] + [p[n]] && [""] + p == [""] + p[..n] + [p[n]];
    }
  }

  /** The rails-style key leads back to the path exactly for paths without separators in them. */
  lemma UrlKeyRoundTrip(p: Path)
    requires p != []
    ensures PathOfUrlKey(UrlKey(p)) == p <==> Clean(p)
  {
    PathOfUrlKeyIsClean(UrlKey(p));
    if Clean(p) {
      UnbracketUrlKey(p);
      SplitOfJoin(p);
    }
  }

  lemma UrlKeyInjective(p: Path, q: Path)
    requires p != [] && q != [] && Clean(p) && Clean(q) && UrlKey(p) == UrlKey(q)
    ensures p == q
  {
    UrlKeyRoundTrip(p);
    UrlKeyRoundTrip(q);
  }
}
