/**
 What resolving a request means, read off the route: which methods, hosts and paths it takes, what
 each template name stands for, and which texts the URNs are read from.
 */
module RouteMeaning {
  import opened HttpRoutes
  import opened Strings

  // ----- Letters -----

  /** Equal, or the two cases of one ASCII letter. */
  ghost predicate SameLetter(c: char, d: char)
  {
    || c == d
    || ('A' <= c <= 'Z' && d as int == c as int + 32)
    || ('A' <= d <= 'Z' && c as int == d as int + 32)
  }

  lemma {:induction false} LowerMeans(s: string)
    ensures |Lower(s)| == |s|
    ensures forall i :: 0 <= i < |s| ==> Lower(s)[i] as int == if 'A' <= s[i] <= 'Z' then s[i] as int + 32 else s[i] as int
  {
    if s != "" {
      LowerMeans(s[1..]);
    }
  }

  lemma SameIgnoringCaseIff(a: string, b: string)
    ensures SameIgnoringCase(a, b) <==> |a| == |b| && forall i :: 0 <= i < |a| ==> SameLetter(a[i], b[i])
  {
    hide Lower;
    LowerMeans(a);
    LowerMeans(b);
    if |a| == |b| && forall i :: 0 <= i < |a| ==> SameLetter(a[i], b[i]) {
      forall i | 0 <= i < |a| ensures Lower(a)[i] == Lower(b)[i] {
        assert SameLetter(a[i], b[i]);
      }
      assert Lower(a) == Lower(b);
    }
    if SameIgnoringCase(a, b) {
      forall i | 0 <= i < |a| ensures SameLetter(a[i], b[i]) {
        assert Lower(a)[i] == Lower(b)[i];
      }
    }
  }

  // ----- Methods, hosts and paths -----

  lemma ColonIn(name: string, port: string)
    ensures ':' in name + ":" + port
  {
    assert (name + ":" + port)[|name|] == ':';
  }

  /** The name is the host up to its first colon. */
  lemma {:induction false} WithoutPortIff(host: string, name: string)
    ensures name == WithoutPort(host) <==> ':' !in name && (host == name || exists port :: host == name + ":" + port)
  {
    if ':' in host {
      hide Split;
      SplitFirst(host, ':');
      var k := IndexOf(host, ':');
      assert host == host[..k] + ":" + host[k + 1..];
      if port :| ':' !in name && host == name + ":" + port {
        assert host[|name|] == ':' && host[..|name|] == name;
        IndexOfUnique(host, ':', |name|);
      }
    } else {
      SplitWhole(host, ':');
      forall port ensures host != name + ":" + port {
        ColonIn(name, port);
      }
    }
  }

  /** A `*.` pattern takes the names that end in a dot and its suffix; any other takes its own name, whatever the case. */
  ghost predicate TakesHost(pattern: string, name: string)
  {
    if "*." <= pattern then exists prefix :: name == prefix + "." + pattern[2..]
    else |pattern| == |name| && forall i :: 0 <= i < |pattern| ==> SameLetter(pattern[i], name[i])
  }

  lemma TakesHostIff(pattern: string, host: string)
    ensures HostMatches(pattern, host) <==> TakesHost(pattern, WithoutPort(host))
  {
    hide WithoutPort, SameIgnoringCase;
    SameIgnoringCaseIff(pattern, WithoutPort(host));
    if "*." <= pattern {
      assert pattern == "*." + pattern[2..];
      WildcardHost(pattern[2..], host);
    }
  }

  /** The request's method and host are among those listed; an empty list takes all. */
  ghost predicate Takes(rule: Rule, request: Request)
  {
    && (rule.methods != [] ==> exists m :: m in rule.methods && SameIgnoringCase(m, request.verb))
    && (rule.hosts != [] ==> exists h :: h in rule.hosts && TakesHost(h, WithoutPort(request.host)))
  }

  lemma TakesIff(rule: Rule, request: Request)
    ensures Offered(rule, request) <==> Takes(rule, request)
  {
    hide SameIgnoringCase, HostMatches, TakesHost, WithoutPort;
    forall h ensures HostMatches(h, request.host) <==> TakesHost(h, WithoutPort(request.host)) {
      TakesHostIff(h, request.host);
    }
  }

  /** Together with `SlashSeparates` and `EmptyPath` this fixes the segments of every path. */
  lemma SegmentAlone(s: string)
    requires '/' !in s && s != ""
    ensures SplitPath(s) == [s]
  {
    hide Split;
    SplitPathParts(s);
    SplitWhole(s, '/');
    assert [s][1..] == [];
  }

  // ----- What a template name stands for -----

  /** The path's last segment under that name, else the host or the lower-cased method, else the claim. */
  ghost predicate Known(route: Route, request: Request, claims: map<string, string>, name: string, value: string)
  {
    var segments := SplitPath(request.path);
    if i :| BindsLast(route.path, name, i) then i < |segments| && value == segments[i]
    else if name == "host" then value == request.host
    else if name == "method" then value == Lower(request.verb)
    else name in claims && value == claims[name]
  }

  lemma BindsLastOnce(pattern: seq<PathMatcher>, name: string, i: int, j: int)
    requires BindsLast(pattern, name, i) && BindsLast(pattern, name, j)
    ensures i == j
  {
  }

  lemma KnownIff(route: Route, request: Request, claims: map<string, string>, name: string, value: string)
    requires Fits(route.path, SplitPath(request.path))
    ensures Known(route, request, claims, name, value) <==>
      name in Values(route, request, claims) && Values(route, request, claims)[name] == value
  {
    hide Fits, SplitPath, Lower, Captures, BindsLast;
    var segments := SplitPath(request.path);
    if i :| BindsLast(route.path, name, i) {
      CapturesSegment(route.path, segments, name, i);
      forall j | BindsLast(route.path, name, j) ensures j == i {
        BindsLastOnce(route.path, name, i, j);
      }
    } else if name in Captures(route.path, segments) {
      var j := CapturesOnly(route.path, segments, name);
      assert false;
    }
  }

  // ----- Templates -----

  /** Texts without `{` alternate with names without `}`, beginning and ending in a text. */
  ghost predicate WellCut(ps: seq<Piece>)
  {
    && |ps| % 2 == 1
    && forall i :: 0 <= i < |ps| ==> if i % 2 == 0 then ps[i].Text? && '{' !in ps[i].text else ps[i].Hole? && '}' !in ps[i].name
  }

  lemma WellCutTail(ps: seq<Piece>)
    requires |ps| >= 2 && WellCut(ps)
    ensures WellCut(ps[2..]) && ps == [ps[0], ps[1]] + ps[2..]
  {
    var tail := ps[2..];
    assert forall i :: 0 <= i < |tail| ==> tail[i] == ps[i + 2] && i % 2 == (i + 2) % 2;
  }

  lemma WellCutMore(head: string, name: string, rest: seq<Piece>)
    requires '{' !in head && '}' !in name && WellCut(rest)
    ensures WellCut([Text(head), Hole(name)] + rest)
  {
    var ps := [Text(head), Hole(name)] + rest;
    assert forall i :: 2 <= i < |ps| ==> ps[i] == rest[i - 2] && i % 2 == (i - 2) % 2;
  }

  lemma OpensAt(head: string, name: string, tail: string)
    requires '{' !in head && '}' !in name
    ensures FirstHole(head + (['{'] + name + ['}'] + tail)) == Opened(head, name, tail)
  {
    var t := head + (['{'] + name + ['}'] + tail);
    assert t[|head|] == '{' && t[..|head|] == head;
    IndexOfUnique(t, '{', |head|);
    var after := t[|head| + 1..];
    assert after == name + ['}'] + tail;
    assert after[|name|] == '}' && after[..|name|] == name;
    IndexOfUnique(after, '}', |name|);
    assert after[|name| + 1..] == tail;
  }

  lemma FirstHoleParts(t: string)
    ensures FirstHole(t).Opened? ==> '{' !in FirstHole(t).head && '}' !in FirstHole(t).name
    ensures FirstHole(t).Plain? <==> '{' !in t
  {
    hide IndexOf;
  }

  /** A template has one cut: the one whose pieces, written out, are the template. */
  lemma {:induction false} CutIff(t: string, ps: seq<Piece>)
    ensures ParseTemplate(t) == Ok(ps) <==> WellCut(ps) && ShownPieces(ps) == t
    decreases |t|
  {
    if ParseTemplate(t) == Ok(ps) {
      TemplateShows(t);
      CutsWell(t);
    }
    if WellCut(ps) && ShownPieces(ps) == t {
      CutsBack(ps);
    }
  }

  lemma {:induction false} CutsWell(t: string)
    requires ParseTemplate(t).Ok?
    ensures WellCut(ParseTemplate(t).value)
    decreases |t|
  {
    hide FirstHole, WellCut;
    FirstHoleParts(t);
    match FirstHole(t)
    case Plain =>
      OneText(t);
    case Unclosed =>
    case Opened(head, name, tail) =>
      CutsWell(tail);
      WellCutMore(head, name, ParseTemplate(tail).value);
  }

  lemma OneText(t: string)
    requires '{' !in t
    ensures WellCut([Text(t)])
  {
  }

  lemma {:induction false} CutsBack(ps: seq<Piece>)
    requires WellCut(ps)
    ensures ParseTemplate(ShownPieces(ps)) == Ok(ps)
    decreases |ps|
  {
    hide ShownPieces, FirstHole;
    if |ps| == 1 {
      assert ps == [Text(ps[0].text)];
      ShownText(ps[0].text);
      FirstHoleParts(ps[0].text);
    } else {
      WellCutTail(ps);
      CutsBack(ps[2..]);
      ShownTwo(ps[0].text, ps[1].name, ps[2..]);
      OpensAt(ps[0].text, ps[1].name, ShownPieces(ps[2..]));
    }
  }

  /** Each text as it stands, each name by its value. */
  ghost predicate FilledIn(ps: seq<Piece>, texts: seq<string>, values: map<string, string>)
  {
    && |texts| == |ps|
    && forall i :: 0 <= i < |ps| ==>
         if ps[i].Text? then texts[i] == ps[i].text else ps[i].name in values && texts[i] == values[ps[i].name]
  }

  lemma FilledInTail(ps: seq<Piece>, texts: seq<string>, values: map<string, string>)
    requires ps != [] && FilledIn(ps, texts, values)
    ensures FilledIn(ps[1..], texts[1..], values)
  {
  }

  /** Instantiation succeeds with the concatenation of the filled-in pieces. */
  lemma {:induction false} InstantiateIff(ps: seq<Piece>, values: map<string, string>, text: string)
    ensures Instantiate(ps, values) == Ok(text) <==> exists texts :: FilledIn(ps, texts, values) && text == Join(texts, "")
  {
    hide FilledIn;
    if Instantiate(ps, values) == Ok(text) {
      var texts := FillIn(ps, values);
    }
    if texts :| FilledIn(ps, texts, values) && text == Join(texts, "") {
      FilledInstantiates(ps, texts, values);
    }
  }

  lemma {:induction false} FillIn(ps: seq<Piece>, values: map<string, string>) returns (texts: seq<string>)
    requires Instantiate(ps, values).Ok?
    ensures FilledIn(ps, texts, values) && Join(texts, "") == Instantiate(ps, values).value
  {
    texts := [];
    if ps != [] {
      var rest := FillIn(ps[1..], values);
      var first := if ps[0].Text? then ps[0].text else values[ps[0].name];
      texts := [first] + rest;
      assert texts[1..] == rest;
      JoinFirst(first, rest);
    }
  }

  lemma JoinFirst(first: string, rest: seq<string>)
    ensures Join([first] + rest, "") == first + Join(rest, "")
  {
    assert ([first] + rest)[1..] == rest;
    assert first + "" == first;
  }

  lemma {:induction false} FilledInstantiates(ps: seq<Piece>, texts: seq<string>, values: map<string, string>)
    requires FilledIn(ps, texts, values)
    ensures Instantiate(ps, values) == Ok(Join(texts, ""))
  {
    if ps != [] {
      FilledInTail(ps, texts, values);
      FilledInstantiates(ps[1..], texts[1..], values);
      assert texts == [texts[0]] + texts[1..];
      JoinFirst(texts[0], texts[1..]);
    }
  }

  /** The template, its names replaced by what they stand for, reads as `u`. */
  ghost predicate Renders<U>(template: string, values: map<string, string>, parse: string -> Option<U>, u: U)
  {
    exists ps, texts ::
      WellCut(ps) && ShownPieces(ps) == template && FilledIn(ps, texts, values) && parse(Join(texts, "")) == Some(u)
  }

  lemma RendersIff<U>(template: string, values: map<string, string>, parse: string -> Option<U>, u: U)
    ensures Read(template, values, parse) == Ok(u) <==> Renders(template, values, parse, u)
  {
    hide ParseTemplate, Instantiate, WellCut, ShownPieces, FilledIn, Join;
    if Read(template, values, parse) == Ok(u) {
      var ps := ParseTemplate(template).value;
      CutIff(template, ps);
      InstantiateIff(ps, values, Instantiate(ps, values).value);
    }
    if ps, texts :| WellCut(ps) && ShownPieces(ps) == template && FilledIn(ps, texts, values) && parse(Join(texts, "")) == Some(u) {
      CutIff(template, ps);
      InstantiateIff(ps, values, Join(texts, ""));
    }
  }

  lemma {:induction false} ReadAllIff<U>(templates: seq<string>, values: map<string, string>, parse: string -> Option<U>, us: seq<U>)
    ensures ReadAll(templates, values, parse) == Ok(us) <==>
      |us| == |templates| && forall i :: 0 <= i < |us| ==> Read(templates[i], values, parse) == Ok(us[i])
  {
    hide Read;
    if templates != [] && us != [] {
      ReadAllIff(templates[1..], values, parse, us[1..]);
      assert us == [us[0]] + us[1..];
      assert (forall i :: 0 <= i < |us| && |us| == |templates| ==> Read(templates[i], values, parse) == Ok(us[i])) ==>
        forall i :: 0 <= i < |us[1..]| && |us| == |templates| ==> Read(templates[1..][i], values, parse) == Ok(us[1..][i]);
      if |us| == |templates| && Read(templates[0], values, parse) == Ok(us[0])
        && forall i :: 0 <= i < |us[1..]| ==> Read(templates[1..][i], values, parse) == Ok(us[1..][i])
      {
        forall i | 0 <= i < |us| ensures Read(templates[i], values, parse) == Ok(us[i]) {
          if i > 0 { assert Read(templates[1..][i - 1], values, parse) == Ok(us[1..][i - 1]); }
        }
      }
    }
  }

  // ----- Resolving -----

  /** The route takes the request. */
  ghost predicate Applies(route: Route, request: Request)
  {
    var segments, k := SplitPath(request.path), Fixed(route.path);
    && Takes(route.rule, request)
    && (if k < |route.path| then |segments| >= k else |segments| == k)
    && forall i :: 0 <= i < k && i < |segments| && route.path[i].Literal? ==> route.path[i].text == segments[i]
  }

  lemma AppliesIff(route: Route, request: Request)
    ensures Applies(route, request) <==> Offered(route.rule, request) && Fits(route.path, SplitPath(request.path))
  {
    hide SplitPath, Fits, Takes, Offered;
    TakesIff(route.rule, request);
    FitsIff(route.path, SplitPath(request.path));
    var segments, k := SplitPath(request.path), Fixed(route.path);
    assert (forall i :: 0 <= i < k && i < |segments| ==> Accepts(route.path[i], segments[i]))
      <==> forall i :: 0 <= i < k && i < |segments| && route.path[i].Literal? ==> route.path[i].text == segments[i];
  }

  /** What each template name of this route stands for. */
  ghost predicate Stands(route: Route, request: Request, claims: map<string, string>, values: map<string, string>)
  {
    forall n, v :: Known(route, request, claims, n, v) <==> n in values && values[n] == v
  }

  /**
   A route answers exactly the requests it takes, with its own id and action, and with the URNs its
   templates read as; it is silent exactly on the requests it does not take.
   */
  lemma ResolveIff<U>(route: Route, request: Request, claims: map<string, string>, parse: string -> Option<U>, x: Resolved<U>)
    ensures var r := Resolve(route, request, claims, parse);
      && (r == Ok(None) <==> !Applies(route, request))
      && (r == Ok(Some(x)) <==>
           && Applies(route, request) && x.route == route.rule.id && x.action == route.action
           && exists values ::
                && Stands(route, request, claims, values)
                && Renders(route.rule.resource, values, parse, x.resource)
                && |x.parents| == |route.rule.parents|
                && forall i :: 0 <= i < |x.parents| ==> Renders(route.rule.parents[i], values, parse, x.parents[i]))
  {
    AppliesIff(route, request);
    if Fits(route.path, SplitPath(request.path)) {
      var v := Values(route, request, claims);
      ValuesStand(route, request, claims);
      RendersIff(route.rule.resource, v, parse, x.resource);
      ReadAllIff(route.rule.parents, v, parse, x.parents);
      forall i | 0 <= i < |x.parents| && i < |route.rule.parents|
        ensures Renders(route.rule.parents[i], v, parse, x.parents[i]) <==> Read(route.rule.parents[i], v, parse) == Ok(x.parents[i])
      {
        RendersIff(route.rule.parents[i], v, parse, x.parents[i]);
      }
      forall values | Stands(route, request, claims, values) ensures values == v {
        StandsOnce(route, request, claims, v, values);
      }
    }
    hide Applies, Offered, Fits, SplitPath, Stands, Renders, Read, ReadAll, Values;
  }

  lemma ValuesStand(route: Route, request: Request, claims: map<string, string>)
    requires Fits(route.path, SplitPath(request.path))
    ensures Stands(route, request, claims, Values(route, request, claims))
  {
    hide Known, Values, Fits, SplitPath;
    forall n, v ensures Known(route, request, claims, n, v) <==>
      n in Values(route, request, claims) && Values(route, request, claims)[n] == v
    {
      KnownIff(route, request, claims, n, v);
    }
  }

  lemma StandsOnce(route: Route, request: Request, claims: map<string, string>, v: map<string, string>, w: map<string, string>)
    requires Stands(route, request, claims, v) && Stands(route, request, claims, w)
    ensures v == w
  {
    hide Known;
    forall n | n in v ensures n in w && w[n] == v[n] {
      assert Known(route, request, claims, n, v[n]);
    }
    forall n | n in w ensures n in v {
      assert Known(route, request, claims, n, w[n]);
    }
  }
}
