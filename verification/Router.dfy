/** The longest-pattern router (cheshire/router.go). */
module Router {
  import opened Wrappers

  /** A controller: which one it is, and the route in its configuration. */
  datatype Controller = Controller(id: nat, route: string)

  datatype Verb = Get | Post | Put | Delete

  type Table = map<string, Controller>

  predicate PathMatch(pattern: string, path: string) {
    if pattern == "" then false
    else if pattern[|pattern| - 1] != '/' then pattern == path
    else pattern <= path
  }

  /** Two patterns of one length that match the same path are the same pattern. */
  lemma MatchingPatternsAgree(p: string, q: string, path: string)
    requires PathMatch(p, path) && PathMatch(q, path) && |p| == |q|
    ensures p == q
  {
    assert p == path[..|p|] && q == path[..|q|];
  }

  /** The answer for a path: the controller of a matching pattern longer than every other one, or
      nothing if no pattern matches. */
  ghost predicate IsAnswer(m: Table, path: string, answer: Option<Controller>) {
    match answer
    case None => forall k <- m :: !PathMatch(k, path)
    case Some(c) => exists k <- m :: m[k] == c && Wins(m, path, k)
  }

  ghost predicate Wins(m: Table, path: string, k: string) {
    k in m && PathMatch(k, path) && forall q <- m :: PathMatch(q, path) && q != k ==> |q| < |k|
  }

  lemma AnswerUnique(m: Table, path: string, a: Option<Controller>, b: Option<Controller>)
    requires IsAnswer(m, path, a) && IsAnswer(m, path, b)
    ensures a == b
  {
  }

  /** There is an answer for every table and path. */
  lemma {:induction false} AnswerExists(m: Table, path: string) returns (a: Option<Controller>)
    ensures IsAnswer(m, path, a)
    decreases |m|
  {
    if m == map[] {
      a := None;
    } else {
      var k :| k in m;
      var rest := m - {k};
      assert |rest.Keys| < |m.Keys| by {
        assert rest.Keys == m.Keys - {k};
      }
      var b := AnswerExists(rest, path);
      assert m == rest[k := m[k]];
      a := AfterRegistration(rest, path, b, k, m[k]);
    }
  }

  /** What a new registration changes: only paths its pattern matches, and of those only the ones no
      longer pattern matches. */
  lemma AfterRegistration(m: Table, path: string, before: Option<Controller>, p: string, c: Controller)
      returns (after: Option<Controller>)
    requires IsAnswer(m, path, before) && p !in m
    ensures IsAnswer(m[p := c], path, after)
    ensures after ==
            if PathMatch(p, path) && (forall q <- m :: PathMatch(q, path) ==> |q| < |p|) then Some(c) else before
  {
    var m' := m[p := c];
    forall q <- m | PathMatch(p, path) && PathMatch(q, path) ensures |q| != |p| {
      if |q| == |p| {
        MatchingPatternsAgree(p, q, path);
      }
    }
    if PathMatch(p, path) && forall q <- m :: PathMatch(q, path) ==> |q| < |p| {
      assert Wins(m', path, p);
      after := Some(c);
    } else {
      after := before;
      if before.Some? {
        var k :| k in m && m[k] == before.value && Wins(m, path, k);
        assert Wins(m', path, k);
      }
    }
  }

  // ---- registrations ----

  type Registration = (Verb, Controller)

  /** The table for a verb after the registrations, all of them accepted. */
  function TableOf(regs: seq<Registration>, v: Verb): Table {
    if regs == [] then map[]
    else
      var last := regs[|regs| - 1];
      var t := TableOf(regs[..|regs| - 1], v);
      if last.0 == v then t[last.1.route := last.1] else t
  }

  ghost predicate NoDuplicates(regs: seq<Registration>) {
    forall i, j :: 0 <= i < j < |regs| && regs[i].0 == regs[j].0 ==> regs[i].1.route != regs[j].1.route
  }

  lemma {:induction false} TableContents(regs: seq<Registration>, v: Verb, c: Controller)
    requires NoDuplicates(regs)
    ensures c.route in TableOf(regs, v) && TableOf(regs, v)[c.route] == c <==> (v, c) in regs
  {
    if regs != [] {
      var n := |regs| - 1;
      TableContents(regs[..n], v, c);
      assert regs == regs[..n] + [regs[n]];
    }
  }

  lemma {:induction false} TableKeys(regs: seq<Registration>, v: Verb)
    ensures forall p <- TableOf(regs, v) :: TableOf(regs, v)[p].route == p
  {
    if regs != [] {
      TableKeys(regs[..|regs| - 1], v);
    }
  }

  lemma {:induction false} TwiceCountsTwo(regs: seq<Registration>, i: nat, j: nat)
    requires i < j < |regs| && regs[i] == regs[j]
    ensures multiset(regs)[regs[i]] >= 2
  {
    assert regs == regs[..j] + regs[j..];
    assert regs[i] in regs[..j] && regs[j] in regs[j..];
    assert multiset(regs) == multiset(regs[..j]) + multiset(regs[j..]);
  }

  lemma {:induction false} OnceCountsOne(regs: seq<Registration>, r: Registration)
    requires NoDuplicates(regs)
    ensures multiset(regs)[r] <= 1
  {
    if regs != [] {
      var n := |regs| - 1;
      OnceCountsOne(regs[..n], r);
      assert regs == regs[..n] + [regs[n]];
      assert multiset(regs) == multiset(regs[..n]) + multiset{regs[n]};
      if regs[n] == r {
        assert r !in regs[..n];
      }
    }
  }

  lemma PermutedHasNoDuplicates(regs: seq<Registration>, regs': seq<Registration>)
    requires NoDuplicates(regs) && multiset(regs) == multiset(regs')
    ensures NoDuplicates(regs')
  {
    forall i, j | 0 <= i < j < |regs'| && regs'[i].0 == regs'[j].0 ensures regs'[i].1.route != regs'[j].1.route {
      if regs'[i] == regs'[j] {
        TwiceCountsTwo(regs', i, j);
        OnceCountsOne(regs, regs'[i]);
      } else {
        assert regs'[i] in multiset(regs) && regs'[j] in multiset(regs);
        assert regs'[i] in regs && regs'[j] in regs;
      }
    }
  }

  /** The tables, and with them every answer, do not depend on the order of the registrations. */
  lemma OrderIrrelevant(regs: seq<Registration>, regs': seq<Registration>, v: Verb)
    requires NoDuplicates(regs) && multiset(regs) == multiset(regs')
    ensures TableOf(regs, v) == TableOf(regs', v)
  {
    PermutedHasNoDuplicates(regs, regs');
    var t, t' := TableOf(regs, v), TableOf(regs', v);
    assert forall r :: r in regs <==> r in multiset(regs);
    assert forall r :: r in regs' <==> r in multiset(regs');
    TableKeys(regs, v);
    TableKeys(regs', v);
    forall p | p in t || p in t' ensures p in t && p in t' && t[p] == t'[p] {
      var c := if p in t then t[p] else t'[p];
      TableContents(regs, v, c);
      TableContents(regs', v, c);
    }
  }

  /** One more registration changes an answer only for its own method, on paths its pattern matches
      and matches longest. */
  lemma RegistrationIsLocal(regs: seq<Registration>, v: Verb, c: Controller, w: Verb, path: string,
                            before: Option<Controller>)
    requires c.route !in TableOf(regs, v) && IsAnswer(TableOf(regs, w), path, before)
    ensures var t := TableOf(regs, w);
      IsAnswer(TableOf(regs + [(v, c)], w), path,
               if w == v && PathMatch(c.route, path) && (forall q <- t :: PathMatch(q, path) ==> |q| < |c.route|)
               then Some(c) else before)
  {
    assert (regs + [(v, c)])[..|regs|] == regs;
    if w == v {
      var after := AfterRegistration(TableOf(regs, w), path, before, c.route, c);
    }
  }

  // ---- the router ----

  /** strings.ToUpper, as far as it can produce the letters of the four verbs. */
  function ToUpper(s: string): string {
    seq(|s|, i requires 0 <= i < |s| => UpperChar(s[i]))
  }

  function UpperChar(c: char): char {
    if 'a' <= c <= 'z' then c - 'a' + 'A' else if c == '\U{017F}' then 'S' else c
  }

  function VerbOf(name: string): Option<Verb> {
    match ToUpper(name)
    case "GET" => Some(Get)
    case "POST" => Some(Post)
    case "PUT" => Some(Put)
    case "DELETE" => Some(Delete)
    case _ => None
  }

  /** The names of the four verbs, in any case; 'ſ' counts as an s. */
  lemma VerbNames(name: string)
    ensures VerbOf(name) == Some(Get) <==> |name| == 3 && name[0] in "gG" && name[1] in "eE" && name[2] in "tT"
    ensures VerbOf(name) == Some(Post) <==>
            |name| == 4 && name[0] in "pP" && name[1] in "oO" && name[2] in "sS\U{017F}" && name[3] in "tT"
    ensures VerbOf(name) == Some(Put) <==> |name| == 3 && name[0] in "pP" && name[1] in "uU" && name[2] in "tT"
    ensures VerbOf(name) == Some(Delete) <==>
            |name| == 6 && name[0] in "dD" && name[1] in "eE" && name[2] in "lL" && name[3] in "eE" && name[4] in "tT"
            && name[5] in "eE"
  {
    hide UpperChar;
    var up := ToUpper(name);
    forall i | 0 <= i < |name| ensures
      && (up[i] == 'G' <==> name[i] in "gG") && (up[i] == 'E' <==> name[i] in "eE")
      && (up[i] == 'T' <==> name[i] in "tT") && (up[i] == 'P' <==> name[i] in "pP")
      && (up[i] == 'O' <==> name[i] in "oO") && (up[i] == 'S' <==> name[i] in "sS\U{017F}")
      && (up[i] == 'U' <==> name[i] in "uU") && (up[i] == 'D' <==> name[i] in "dD")
      && (up[i] == 'L' <==> name[i] in "lL")
    {
      Letters(name[i]);
    }
    Spelled(up);
  }

  lemma Spelled(s: string)
    ensures s == "GET" <==> |s| == 3 && s[0] == 'G' && s[1] == 'E' && s[2] == 'T'
    ensures s == "POST" <==> |s| == 4 && s[0] == 'P' && s[1] == 'O' && s[2] == 'S' && s[3] == 'T'
    ensures s == "PUT" <==> |s| == 3 && s[0] == 'P' && s[1] == 'U' && s[2] == 'T'
    ensures s == "DELETE" <==>
            |s| == 6 && s[0] == 'D' && s[1] == 'E' && s[2] == 'L' && s[3] == 'E' && s[4] == 'T' && s[5] == 'E'
  {
  }

  lemma Letters(c: char)
    ensures UpperChar(c) == 'G' <==> c in "gG"
    ensures UpperChar(c) == 'E' <==> c in "eE"
    ensures UpperChar(c) == 'T' <==> c in "tT"
    ensures UpperChar(c) == 'P' <==> c in "pP"
    ensures UpperChar(c) == 'O' <==> c in "oO"
    ensures UpperChar(c) == 'S' <==> c in "sS\U{017F}"
    ensures UpperChar(c) == 'U' <==> c in "uU"
    ensures UpperChar(c) == 'D' <==> c in "dD"
    ensures UpperChar(c) == 'L' <==> c in "lL"
  {
  }

  datatype Panic = InvalidMethod | InvalidPattern | MultipleRegistrations

  class Router {
    var gets: Table
    var posts: Table
    var puts: Table
    var deletes: Table
    const notFound: Controller
    ghost var regs: seq<Registration>

    function MethodMap(v: Verb): Table
      reads this
    {
      match v
      case Get => gets
      case Post => posts
      case Put => puts
      case Delete => deletes
    }

    ghost predicate Valid()
      reads this
    {
      && NoDuplicates(regs) && (forall r <- regs :: r.1.route != "")
      && forall v: Verb :: MethodMap(v) == TableOf(regs, v)
    }

    constructor (notFound: Controller)
      ensures Valid() && regs == [] && this.notFound == notFound
    {
      gets, posts, puts, deletes, this.notFound, regs := map[], map[], map[], map[], notFound, [];
    }

    /** Why a registration panics, if it does. */
    function Refusal(name: string, handler: Controller): Option<Panic>
      reads this
    {
      match VerbOf(name)
      case None => Some(InvalidMethod)
      case Some(v) =>
        if handler.route == "" then Some(InvalidPattern)
        else if handler.route in MethodMap(v) then Some(MultipleRegistrations)
        else None
    }

    /** Registers a handler for one method, or panics without registering it. */
    method Reg(name: string, handler: Controller) returns (r: Result<(), Panic>)
      requires Valid()
      modifies this
      ensures Valid()
      ensures match old(Refusal(name, handler))
        case None => r == Ok(()) && VerbOf(name).Some? && regs == old(regs) + [(VerbOf(name).value, handler)]
        case Some(panic) => r == Err(panic) && regs == old(regs)
      ensures r == Err(InvalidMethod) <==> VerbOf(name).None?
      ensures r == Err(InvalidPattern) <==> VerbOf(name).Some? && handler.route == ""
      ensures r == Err(MultipleRegistrations) <==>
              handler.route != "" && exists q <- old(regs) :: Some(q.0) == VerbOf(name) && q.1.route == handler.route
    {
      var verb := VerbOf(name);
      if verb.None? {
        return Err(InvalidMethod);
      }
      var v := verb.value;
      RegisteredRoutes(regs, v);
      if handler.route == "" {
        return Err(InvalidPattern);
      }
      if handler.route in MethodMap(v) {
        return Err(MultipleRegistrations);
      }
      regs := regs + [(v, handler)];
      assert regs[..|regs| - 1] == old(regs);
      match v {
        case Get => gets := gets[handler.route := handler];
        case Post => posts := posts[handler.route := handler];
        case Put => puts := puts[handler.route := handler];
        case Delete => deletes := deletes[handler.route := handler];
      }
      return Ok(());
    }

    /** Registers a handler for several methods; a panic leaves the earlier ones registered. */
    method Register(names: seq<string>, handler: Controller) returns (r: Result<(), Panic>)
      requires Valid()
      modifies this
      ensures Valid() && |old(regs)| <= |regs| <= |old(regs)| + |names|
      ensures regs[..|old(regs)|] == old(regs)
      ensures forall i :: |old(regs)| <= i < |regs| ==>
        VerbOf(names[i - |old(regs)|]) == Some(regs[i].0) && regs[i].1 == handler
      ensures r.Ok? ==> |regs| == |old(regs)| + |names|
      ensures r.Err? ==> |regs| < |old(regs)| + |names|
      ensures r.Err? ==> Refusal(names[|regs| - |old(regs)|], handler) == Some(r.error)
    {
      for i := 0 to |names|
        invariant Valid() && |regs| == |old(regs)| + i && regs[..|old(regs)|] == old(regs)
        invariant forall k :: |old(regs)| <= k < |regs| ==>
          VerbOf(names[k - |old(regs)|]) == Some(regs[k].0) && regs[k].1 == handler
      {
        var one := Reg(names[i], handler);
        if one.Err? {
          return one;
        }
      }
      return Ok(());
    }

    /** Scans the method's table in whatever order it comes. */
    method FindMatch(name: string, path: string) returns (h: Option<Controller>)
      ensures VerbOf(name).None? ==> h == None
      ensures VerbOf(name).Some? ==> IsAnswer(MethodMap(VerbOf(name).value), path, h)
    {
      h := None;
      var n := 0;
      var verb := VerbOf(name);
      if verb.None? {
        return;
      }
      var m := MethodMap(verb.value);
      var keys := m.Keys;
      ghost var best := "";
      while keys != {}
        invariant keys <= m.Keys
        invariant h.None? ==> forall k <- m.Keys - keys :: !PathMatch(k, path)
        invariant h.Some? ==> best in m && m[best] == h.value && PathMatch(best, path) && n == |best|
        invariant h.Some? ==> forall k <- m.Keys - keys :: PathMatch(k, path) && k != best ==> |k| < n
        decreases keys
      {
        var k :| k in keys;
        keys := keys - {k};
        if PathMatch(k, path) {
          if h.Some? && |k| == n {
            MatchingPatternsAgree(k, best, path);
          }
          if h == None || |k| > n {
            n := |k|;
            h := Some(m[k]);
            best := k;
          }
        }
      }
      if h.Some? {
        assert Wins(m, path, best);
      }
    }

    /** The controller of the longest registered route of the method that is the path, or ends in a slash and
        is a prefix of the path; the not-found controller if there is none. */
    method Match(name: string, path: string) returns (h: Controller)
      requires Valid()
      ensures VerbOf(name).None? ==> h == notFound
      ensures VerbOf(name).Some? ==>
        var v := VerbOf(name).value;
        || (exists r <- regs ::
              && r.0 == v && r.1 == h
              && (r.1.route == path || (r.1.route[|r.1.route| - 1] == '/' && r.1.route <= path))
              && forall q <- regs ::
                q.0 == v && q != r && (q.1.route == path || (q.1.route[|q.1.route| - 1] == '/' && q.1.route <= path))
                ==> |q.1.route| < |r.1.route|)
        || (&& h == notFound
            && forall q <- regs ::
              q.0 == v ==> q.1.route != path && !(q.1.route[|q.1.route| - 1] == '/' && q.1.route <= path))
    {
      var found := FindMatch(name, path);
      h := if found.Some? then found.value else notFound;
      if VerbOf(name).Some? {
        AnswerOverRoutes(VerbOf(name).value, path, found);
      }
    }

    lemma AnswerOverRoutes(v: Verb, path: string, answer: Option<Controller>)
      requires Valid() && IsAnswer(MethodMap(v), path, answer)
      ensures match answer
        case None =>
          forall q <- regs ::
            q.0 == v ==> q.1.route != path && !(q.1.route[|q.1.route| - 1] == '/' && q.1.route <= path)
        case Some(c) =>
          exists r <- regs ::
            && r.0 == v && r.1 == c
            && (r.1.route == path || (r.1.route[|r.1.route| - 1] == '/' && r.1.route <= path))
            && forall q <- regs ::
              q.0 == v && q != r && (q.1.route == path || (q.1.route[|q.1.route| - 1] == '/' && q.1.route <= path))
              ==> |q.1.route| < |r.1.route|
    {
      RegisteredRoutes(regs, v);
      forall q <- regs ensures PathMatch(q.1.route, path) <==>
                               q.1.route == path || (q.1.route[|q.1.route| - 1] == '/' && q.1.route <= path)
      {
      }
      if answer.Some? {
        var k :| k in MethodMap(v) && MethodMap(v)[k] == answer.value && Wins(MethodMap(v), path, k);
        assert (v, answer.value) in regs;
        forall q <- regs | q.0 == v && q != (v, answer.value) && PathMatch(q.1.route, path)
          ensures |q.1.route| < |k|
        {
          TableContents(regs, v, q.1);
        }
      }
    }
  }

  lemma {:induction false} RegisteredRoutes(regs: seq<Registration>, v: Verb)
    ensures forall i :: 0 <= i < |regs| && regs[i].0 == v ==> regs[i].1.route in TableOf(regs, v)
    ensures forall p <- TableOf(regs, v) :: (v, TableOf(regs, v)[p]) in regs && TableOf(regs, v)[p].route == p
  {
    if regs != [] {
      RegisteredRoutes(regs[..|regs| - 1], v);
    }
  }
}
