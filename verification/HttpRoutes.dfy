/**
 HTTP route matching: compiling a route's path, matching a request path with captures, expanding
 resource templates, and resolving a request to exactly one route.  Reading a resource URN is any
 partial function.
 */
module HttpRoutes {
  import opened Collections
  import opened Strings

  // ----- Path segments -----

  function TrimStart(s: string): string
  {
    if s != "" && s[0] == '/' then TrimStart(s[1..]) else s
  }

  function TrimEnd(s: string): string
  {
    if s != "" && s[|s| - 1] == '/' then TrimEnd(s[..|s| - 1]) else s
  }

  function NonEmpty(parts: seq<string>): (r: seq<string>)
    ensures forall i :: 0 <= i < |r| ==> r[i] != ""
  {
    if parts == [] then [] else (if parts[0] == "" then [] else [parts[0]]) + NonEmpty(parts[1..])
  }

  function SplitPath(path: string): seq<string>
  {
    NonEmpty(Split(TrimEnd(TrimStart(path)), '/'))
  }

  lemma {:induction false} NonEmptyConcat(a: seq<string>, b: seq<string>)
    ensures NonEmpty(a + b) == NonEmpty(a) + NonEmpty(b)
  {
    if a == [] {
      assert a + b == b;
    } else {
      assert (a + b)[1..] == a[1..] + b;
      NonEmptyConcat(a[1..], b);
    }
  }

  lemma {:induction false} TrimStartInvisible(s: string)
    ensures NonEmpty(Split(TrimStart(s), '/')) == NonEmpty(Split(s, '/'))
  {
    if s != "" && s[0] == '/' {
      TrimStartInvisible(s[1..]);
      assert ([""] + Split(s[1..], '/'))[1..] == Split(s[1..], '/');
    }
  }

  lemma {:induction false} TrimEndInvisible(s: string)
    ensures NonEmpty(Split(TrimEnd(s), '/')) == NonEmpty(Split(s, '/'))
  {
    if s != "" && s[|s| - 1] == '/' {
      hide Split;
      var t := s[..|s| - 1];
      TrimEndInvisible(t);
      assert s == t + ['/'] + "";
      SplitConcat(t, "", '/');
      SplitWhole("", '/');
      NonEmptyConcat(Split(t, '/'), [""]);
      assert [""][1..] == [];
    }
  }

  lemma SplitPathParts(path: string)
    ensures SplitPath(path) == NonEmpty(Split(path, '/'))
  {
    hide Split, NonEmpty;
    TrimEndInvisible(TrimStart(path));
    TrimStartInvisible(path);
  }

  /** A slash separates segments and nothing else about it matters. */
  lemma SlashSeparates(a: string, b: string)
    ensures SplitPath(a + ['/'] + b) == SplitPath(a) + SplitPath(b)
  {
    hide Split, NonEmpty, SplitPath;
    SplitPathParts(a);
    SplitPathParts(b);
    SplitPathParts(a + ['/'] + b);
    SplitConcat(a, b, '/');
    NonEmptyConcat(Split(a, '/'), Split(b, '/'));
  }

  lemma EmptyPath()
    ensures SplitPath("") == []
  {
  }

  /** Doubled, leading and trailing slashes are not seen. */
  lemma SlashesIrrelevant(a: string, b: string)
    ensures SplitPath(a + ['/'] + (['/'] + b)) == SplitPath(a + ['/'] + b)
    ensures SplitPath(a + ['/']) == SplitPath(a) && SplitPath(['/'] + b) == SplitPath(b)
  {
    hide SplitPath;
    EmptyPath();
    SlashSeparates(a, b);
    SlashSeparates(a, ['/'] + b);
    SlashSeparates(a, "");
    SlashSeparates("", b);
    assert a + ['/'] + "" == a + ['/'];
    assert "" + ['/'] + b == ['/'] + b;
  }

  // ----- Compiling a path -----

  datatype PathMatcher = Literal(text: string) | Variable(name: string) | Any | Remainder

  predicate VariableChar(c: char)
  {
    'a' <= c <= 'z' || 'A' <= c <= 'Z' || '0' <= c <= '9' || c == '_'
  }

  predicate ValidVariable(name: string)
  {
    name != "" && forall i :: 0 <= i < |name| ==> VariableChar(name[i])
  }

  predicate Braced(s: string) { |s| >= 2 && s[0] == '{' && s[|s| - 1] == '}' }

  /** The segment a matcher was written as. */
  function Shown(m: PathMatcher): string
  {
    match m
    case Literal(text) => text
    case Variable(name) => ['{'] + name + ['}']
    case Any => "*"
    case Remainder => "**"
  }

  /** Matchers that compilation can produce. */
  ghost predicate Canonical(m: PathMatcher)
  {
    match m
    case Literal(text) => text != "*" && text != "**" && !Braced(text)
    case Variable(name) => ValidVariable(name)
    case _ => true
  }

  ghost predicate Acceptable(segments: seq<string>, i: nat)
    requires i < |segments|
  {
    var s := segments[i];
    && (s == "**" ==> i + 1 == |segments|)
    && (Braced(s) ==> ValidVariable(s[1..|s| - 1]))
  }

  method Compile(path: string) returns (r: Result<seq<PathMatcher>>)
    ensures r.Ok? <==> path != "" && path[0] == '/' && forall i :: 0 <= i < |SplitPath(path)| ==> Acceptable(SplitPath(path), i)
    ensures r.Ok? ==> |r.value| == |SplitPath(path)|
    ensures r.Ok? ==> forall i :: 0 <= i < |r.value| ==>
      && Shown(r.value[i]) == SplitPath(path)[i] && Canonical(r.value[i])
      && (r.value[i].Remainder? ==> i + 1 == |r.value|)
  {
    if path == "" || path[0] != '/' {
      return Err;
    }
    var raw := SplitPath(path);
    var compiled: seq<PathMatcher> := [];
    hide SplitPath, ValidVariable;
    for index := 0 to |raw|
      invariant |compiled| == index
      invariant forall i :: 0 <= i < index ==> Acceptable(raw, i) && Shown(compiled[i]) == raw[i] && Canonical(compiled[i])
      invariant forall i :: 0 <= i < index && compiled[i].Remainder? ==> i + 1 == |raw|
    {
      var segment := raw[index];
      var matcher;
      if segment == "*" {
        matcher := Any;
      } else if segment == "**" && index + 1 == |raw| {
        matcher := Remainder;
      } else if segment == "**" {
        assert !Acceptable(raw, index);
        return Err;
      } else if Braced(segment) {
        var variable := segment[1..|segment| - 1];
        if !ValidVariable(variable) {
          assert !Acceptable(raw, index);
          return Err;
        }
        assert segment == ['{'] + variable + ['}'];
        matcher := Variable(variable);
      } else {
        matcher := Literal(segment);
      }
      compiled := compiled + [matcher];
    }
    return Ok(compiled);
  }

  lemma VariableShown(name: string)
    ensures var s := Shown(Variable(name)); Braced(s) && s[1..|s| - 1] == name
  {
  }

  /** A canonical matcher is determined by how it is written. */
  lemma ShownInjective(a: PathMatcher, b: PathMatcher)
    requires Canonical(a) && Canonical(b) && Shown(a) == Shown(b)
    ensures a == b
  {
    if a.Variable? { VariableShown(a.name); }
    if b.Variable? { VariableShown(b.name); }
  }

  // ----- Matching -----

  predicate Accepts(m: PathMatcher, segment: string)
  {
    m.Literal? ==> m.text == segment
  }

  predicate Fits(pattern: seq<PathMatcher>, request: seq<string>)
  {
    if pattern == [] then request == []
    else if pattern[0].Remainder? then true
    else request != [] && Accepts(pattern[0], request[0]) && Fits(pattern[1..], request[1..])
  }

  function Captures(pattern: seq<PathMatcher>, request: seq<string>): map<string, string>
  {
    if pattern == [] || request == [] || pattern[0].Remainder? then map[]
    else
      var rest := Captures(pattern[1..], request[1..]);
      if pattern[0].Variable? then map[pattern[0].name := request[0]] + rest else rest
  }

  method MatchPath(pattern: seq<PathMatcher>, path: string, initial: map<string, string>)
    returns (ok: bool, values: map<string, string>)
    ensures ok == Fits(pattern, SplitPath(path))
    ensures ok ==> values == initial + Captures(pattern, SplitPath(path))
  {
    hide *;
    var request := SplitPath(path);
    values := initial;
    var requestIndex := 0;
    assert pattern[0..] == pattern && request[0..] == request;
    for n := 0 to |pattern|
      invariant requestIndex == n <= |request|
      invariant Fits(pattern, request) == Fits(pattern[n..], request[n..])
      invariant initial + Captures(pattern, request) == values + Captures(pattern[n..], request[n..])
    {
      MatchStep(pattern[n..], request[n..], values);
      assert pattern[n..][1..] == pattern[n + 1..];
      assert requestIndex < |request| ==> request[n..][1..] == request[n + 1..];
      match pattern[n] {
        case Remainder =>
          return true, values;
        case Literal(expected) =>
          if requestIndex >= |request| || request[requestIndex] != expected {
            return false, values;
          }
        case Variable(name) =>
          if requestIndex >= |request| {
            return false, values;
          }
          values := values[name := request[requestIndex]];
        case Any =>
          if requestIndex >= |request| {
            return false, values;
          }
      }
      requestIndex := requestIndex + 1;
    }
    MatchEnd(request[|pattern|..], values);
    assert pattern[|pattern|..] == [];
    return requestIndex == |request|, values;
  }

  lemma MatchStep(p: seq<PathMatcher>, s: seq<string>, values: map<string, string>)
    requires p != []
    ensures p[0].Remainder? ==> Fits(p, s) && values + Captures(p, s) == values
    ensures !p[0].Remainder? && s == [] ==> !Fits(p, s)
    ensures !p[0].Remainder? && s != [] ==>
      && Fits(p, s) == ((p[0].Literal? ==> p[0].text == s[0]) && Fits(p[1..], s[1..]))
      && values + Captures(p, s)
         == (if p[0].Variable? then values[p[0].name := s[0]] else values) + Captures(p[1..], s[1..])
  {
  }

  lemma MatchEnd(s: seq<string>, values: map<string, string>)
    ensures Fits([], s) == (s == []) && values + Captures([], s) == values
  {
  }

  /** Matchers before the first `**`. */
  function Fixed(pattern: seq<PathMatcher>): (k: nat)
    ensures k <= |pattern| && forall i :: 0 <= i < k ==> !pattern[i].Remainder?
    ensures k < |pattern| ==> pattern[k].Remainder?
  {
    if pattern == [] || pattern[0].Remainder? then 0 else 1 + Fixed(pattern[1..])
  }

  /** Matching, position by position: `*` takes one segment, a `**` any number. */
  lemma {:induction false} FitsIff(pattern: seq<PathMatcher>, request: seq<string>)
    ensures Fits(pattern, request) <==>
      && (if Fixed(pattern) < |pattern| then |request| >= Fixed(pattern) else |request| == |pattern|)
      && forall i :: 0 <= i < Fixed(pattern) && i < |request| ==> Accepts(pattern[i], request[i])
  {
    if pattern != [] && !pattern[0].Remainder? && request != [] {
      FitsIff(pattern[1..], request[1..]);
      var k := Fixed(pattern[1..]);
      assert (forall i :: 0 <= i < k + 1 && i < |request| ==> Accepts(pattern[i], request[i]))
        <==> Accepts(pattern[0], request[0]) && (forall i :: 0 <= i < k && i < |request[1..]| ==> Accepts(pattern[1..][i], request[1..][i])) by {
        if Accepts(pattern[0], request[0]) && (forall i :: 0 <= i < k && i < |request[1..]| ==> Accepts(pattern[1..][i], request[1..][i])) {
          forall i | 0 <= i < k + 1 && i < |request| ensures Accepts(pattern[i], request[i]) {
            if i > 0 { assert Accepts(pattern[1..][i - 1], request[1..][i - 1]); }
          }
        }
      }
    }
  }

  /** The last place before any `**` where the path binds the name. */
  ghost predicate BindsLast(pattern: seq<PathMatcher>, name: string, i: int)
  {
    && 0 <= i < Fixed(pattern) && pattern[i] == Variable(name)
    && forall j :: i < j < Fixed(pattern) ==> pattern[j] != Variable(name)
  }

  lemma BindsLastTail(pattern: seq<PathMatcher>, name: string, i: int)
    requires pattern != [] && !pattern[0].Remainder? && i > 0
    ensures BindsLast(pattern, name, i) <==> BindsLast(pattern[1..], name, i - 1)
  {
    var tail := pattern[1..];
    if BindsLast(tail, name, i - 1) {
      forall j | i < j < Fixed(pattern) ensures pattern[j] != Variable(name) {
        assert tail[j - 1] != Variable(name);
      }
    }
    assert forall j :: 0 <= j < |tail| ==> tail[j] == pattern[j + 1];
  }

  /** A matched path gives a variable the segment at its last place. */
  lemma {:induction false} CapturesSegment(pattern: seq<PathMatcher>, request: seq<string>, name: string, i: int)
    requires Fits(pattern, request) && BindsLast(pattern, name, i)
    ensures i < |request| && name in Captures(pattern, request) && Captures(pattern, request)[name] == request[i]
  {
    if i > 0 {
      BindsLastTail(pattern, name, i);
      CapturesSegment(pattern[1..], request[1..], name, i - 1);
    } else {
      assert name !in Captures(pattern[1..], request[1..]) by {
        if name in Captures(pattern[1..], request[1..]) {
          var j := CapturesOnly(pattern[1..], request[1..], name);
        }
      }
    }
  }

  /** Nothing else is bound. */
  lemma {:induction false} CapturesOnly(pattern: seq<PathMatcher>, request: seq<string>, name: string) returns (i: int)
    requires Fits(pattern, request) && name in Captures(pattern, request)
    ensures BindsLast(pattern, name, i)
  {
    if name in Captures(pattern[1..], request[1..]) {
      i := CapturesOnly(pattern[1..], request[1..], name);
      i := i + 1;
      BindsLastTail(pattern, name, i);
    } else {
      i := 0;
      forall j | 0 < j < Fixed(pattern) ensures pattern[j] != Variable(name) {
        if pattern[j] == Variable(name) {
          UnboundNowhere(pattern[1..], request[1..], name, j - 1);
        }
      }
    }
  }

  lemma {:induction false} UnboundNowhere(pattern: seq<PathMatcher>, request: seq<string>, name: string, i: int)
    requires Fits(pattern, request) && name !in Captures(pattern, request) && 0 <= i < Fixed(pattern)
    ensures pattern[i] != Variable(name)
  {
    if i > 0 {
      UnboundNowhere(pattern[1..], request[1..], name, i - 1);
    }
  }

  /** The segments a matcher list without `*` and `**` stands for under given values. */
  function Filled(pattern: seq<PathMatcher>, values: map<string, string>): seq<string>
    requires forall i :: 0 <= i < |pattern| ==> pattern[i].Literal? || (pattern[i].Variable? && pattern[i].name in values)
  {
    seq(|pattern|, i requires 0 <= i < |pattern| => if pattern[i].Literal? then pattern[i].text else values[pattern[i].name])
  }

  ghost predicate Concrete(pattern: seq<PathMatcher>)
  {
    forall i :: 0 <= i < |pattern| ==> pattern[i].Literal? || pattern[i].Variable?
  }

  /** Places with one variable name captured one segment. */
  ghost predicate Consistent(pattern: seq<PathMatcher>, request: seq<string>)
  {
    forall i, j :: 0 <= i < j < |pattern| && j < |request| && pattern[i].Variable? && pattern[i] == pattern[j] ==>
      request[i] == request[j]
  }

  lemma {:induction false} LastPlace(pattern: seq<PathMatcher>, i: int) returns (k: int)
    requires 0 <= i < |pattern| && pattern[i].Variable? && Fixed(pattern) == |pattern|
    ensures i <= k < |pattern| && BindsLast(pattern, pattern[i].name, k)
    decreases |pattern| - i
  {
    if j :| i < j < |pattern| && pattern[j] == pattern[i] {
      k := LastPlace(pattern, j);
    } else {
      k := i;
    }
  }

  lemma ConcreteBound(pattern: seq<PathMatcher>, request: seq<string>)
    requires Concrete(pattern) && Fits(pattern, request)
    ensures |request| == |pattern| && Fixed(pattern) == |pattern|
    ensures forall i :: 0 <= i < |pattern| ==> pattern[i].Literal? || pattern[i].name in Captures(pattern, request)
  {
    FitsIff(pattern, request);
    hide Fits, Captures;
    forall i | 0 <= i < |pattern| ensures pattern[i].Literal? || pattern[i].name in Captures(pattern, request) {
      if pattern[i].Variable? {
        var k := LastPlace(pattern, i);
        CapturesSegment(pattern, request, pattern[i].name, k);
      }
    }
  }

  /** Substituting the captures gives the request back exactly when repeated variables captured one value. */
  lemma CapturesInvertIff(pattern: seq<PathMatcher>, request: seq<string>)
    requires Concrete(pattern) && Fits(pattern, request)
    ensures forall i :: 0 <= i < |pattern| ==> pattern[i].Literal? || pattern[i].name in Captures(pattern, request)
    ensures Filled(pattern, Captures(pattern, request)) == request <==> Consistent(pattern, request)
  {
    ConcreteBound(pattern, request);
    FitsIff(pattern, request);
    hide Fits, Captures;
    var values := Captures(pattern, request);
    var filled := Filled(pattern, values);
    if Consistent(pattern, request) {
      forall i | 0 <= i < |pattern| ensures filled[i] == request[i] {
        if pattern[i].Variable? {
          var k := LastPlace(pattern, i);
          CapturesSegment(pattern, request, pattern[i].name, k);
          assert pattern[i] == pattern[k] && request[i] == request[k];
        } else {
          assert Accepts(pattern[i], request[i]);
        }
      }
    }
    if filled == request {
      forall i, j | 0 <= i < j < |pattern| && pattern[i].Variable? && pattern[i] == pattern[j]
        ensures request[i] == request[j]
      {
        assert request[i] == filled[i] && request[j] == filled[j];
      }
    }
  }

  // ----- Templates -----

  datatype Piece = Text(text: string) | Hole(name: string)

  datatype Cut = Plain | Unclosed | Opened(head: string, name: string, tail: string)

  /** The first brace of a template. */
  function FirstHole(t: string): (c: Cut)
    ensures c.Opened? ==> |c.tail| < |t|
  {
    if '{' !in t then Plain
    else
      var start := IndexOf(t, '{');
      var after := t[start + 1..];
      if '}' !in after then Unclosed
      else
        var end := IndexOf(after, '}');
        Opened(t[..start], after[..end], after[end + 1..])
  }

  lemma CutAround(s: string, k: nat)
    requires k < |s|
    ensures s == s[..k] + ([s[k]] + s[k + 1..])
  {
  }

  lemma Regroup(head: string, name: string, tail: string)
    ensures head + (['{'] + (name + (['}'] + tail))) == head + (['{'] + name + ['}'] + tail)
  {
    assert ['{'] + (name + (['}'] + tail)) == ['{'] + name + ['}'] + tail;
  }

  lemma FirstHoleCuts(t: string)
    requires FirstHole(t).Opened?
    ensures var c := FirstHole(t); t == c.head + (['{'] + c.name + ['}'] + c.tail)
  {
    hide IndexOf;
    var c := FirstHole(t);
    var start := IndexOf(t, '{');
    var after := t[start + 1..];
    CutAround(t, start);
    CutAround(after, IndexOf(after, '}'));
    Regroup(c.head, c.name, c.tail);
  }

  /** A template cut at its braces, before any value is known. */
  function ParseTemplate(t: string): Result<seq<Piece>>
    decreases |t|
  {
    match FirstHole(t)
    case Plain => Ok([Text(t)])
    case Unclosed => Err
    case Opened(head, name, tail) =>
      var rest := ParseTemplate(tail);
      if rest.Err? then Err else Ok([Text(head), Hole(name)] + rest.value)
  }

  function ShownPiece(p: Piece): string
  {
    match p
    case Text(text) => text
    case Hole(name) => ['{'] + name + ['}']
  }

  function ShownPieces(ps: seq<Piece>): string
  {
    if ps == [] then "" else ShownPiece(ps[0]) + ShownPieces(ps[1..])
  }

  /** The cut loses nothing. */
  lemma {:induction false} TemplateShows(t: string)
    requires ParseTemplate(t).Ok?
    ensures ShownPieces(ParseTemplate(t).value) == t
    decreases |t|
  {
    hide FirstHole, ShownPieces;
    match FirstHole(t)
    case Plain =>
      ShownText(t);
    case Unclosed =>
    case Opened(head, name, tail) =>
      FirstHoleCuts(t);
      TemplateShows(tail);
      ShownTwo(head, name, ParseTemplate(tail).value);
  }

  lemma ShownText(t: string)
    ensures ShownPieces([Text(t)]) == t
  {
    assert [Text(t)][1..] == [];
    assert t + "" == t;
  }

  lemma ShownTwo(text: string, name: string, rest: seq<Piece>)
    ensures ShownPieces([Text(text), Hole(name)] + rest) == text + (['{'] + name + ['}'] + ShownPieces(rest))
  {
    var ps := [Text(text), Hole(name)] + rest;
    assert ps[1..] == [Hole(name)] + rest && ps[1..][1..] == rest;
  }

  function Holes(ps: seq<Piece>): set<string>
  {
    set i | 0 <= i < |ps| && ps[i].Hole? :: ps[i].name
  }

  /** All holes at once, each by its value; values are not looked into. */
  function Instantiate(ps: seq<Piece>, values: map<string, string>): Result<string>
  {
    if ps == [] then Ok("")
    else
      var rest := Instantiate(ps[1..], values);
      if ps[0].Hole? && ps[0].name !in values then Err
      else if rest.Err? then Err
      else Ok((if ps[0].Text? then ps[0].text else values[ps[0].name]) + rest.value)
  }

  function Expanded(t: string, values: map<string, string>): Result<string>
  {
    var ps := ParseTemplate(t);
    if ps.Err? then Err else Instantiate(ps.value, values)
  }

  function Prefixed(head: string, r: Result<string>): Result<string>
  {
    if r.Ok? then Ok(head + r.value) else Err
  }

  lemma InstantiateTwo(head: string, name: string, rest: seq<Piece>, values: map<string, string>)
    ensures Instantiate([Text(head), Hole(name)] + rest, values)
      == if name in values then Prefixed(head + values[name], Instantiate(rest, values)) else Err
  {
    var ps := [Text(head), Hole(name)] + rest;
    assert ps[1..] == [Hole(name)] + rest && ps[1..][1..] == rest;
    var r := Instantiate(rest, values);
    if name in values && r.Ok? {
      assert head + (values[name] + r.value) == head + values[name] + r.value;
    }
  }

  lemma InstantiateText(t: string, values: map<string, string>)
    ensures Instantiate([Text(t)], values) == Ok(t)
  {
    assert [Text(t)][1..] == [];
    assert t + "" == t;
  }

  lemma ExpandStep(t: string, values: map<string, string>)
    ensures match FirstHole(t)
      case Plain => Expanded(t, values) == Ok(t)
      case Unclosed => Expanded(t, values) == Err
      case Opened(head, name, tail) =>
        Expanded(t, values) == if name in values then Prefixed(head + values[name], Expanded(tail, values)) else Err
  {
    hide FirstHole, Instantiate;
    match FirstHole(t)
    case Plain =>
      InstantiateText(t, values);
    case Unclosed =>
    case Opened(head, name, tail) =>
      var rest := ParseTemplate(tail);
      if rest.Ok? {
        InstantiateTwo(head, name, rest.value, values);
      }
  }

  lemma PrefixErr(a: string)
    ensures Prefixed(a, Err) == Err
  {
  }

  lemma PrefixOk(a: string, b: string)
    ensures Prefixed(a, Ok(b)) == Ok(a + b)
  {
  }

  lemma PrefixTwice(a: string, b: string, r: Result<string>)
    ensures Prefixed(a, Prefixed(b, r)) == Prefixed(a + b, r)
    ensures Prefixed("", r) == r
  {
    if r.Ok? {
      assert a + (b + r.value) == a + b + r.value;
      assert "" + r.value == r.value;
    }
  }

  method ExpandTemplate(template: string, values: map<string, string>) returns (r: Result<string>)
    ensures r == Expanded(template, values)
  {
    hide IndexOf, Expanded, Prefixed;
    var output := "";
    var remaining := template;
    PrefixTwice("", "", Expanded(template, values));
    while '{' in remaining
      invariant Expanded(template, values) == Prefixed(output, Expanded(remaining, values))
      decreases |remaining|
    {
      ExpandStep(remaining, values);
      PrefixErr(output);
      var start := IndexOf(remaining, '{');
      var head := remaining[..start];
      ghost var before := output;
      output := output + head;
      var afterStart := remaining[start + 1..];
      if '}' !in afterStart {
        return Err;
      }
      var end := IndexOf(afterStart, '}');
      var variable := afterStart[..end];
      if variable !in values {
        return Err;
      }
      output := output + values[variable];
      remaining := afterStart[end + 1..];
      PrefixTwice(before, head + values[variable], Expanded(remaining, values));
      assert before + (head + values[variable]) == output;
    }
    ExpandStep(remaining, values);
    PrefixOk(output, remaining);
    return Ok(output + remaining);
  }

  /** Only the template's own holes are looked up. */
  lemma {:induction false} InstantiateAgrees(ps: seq<Piece>, v: map<string, string>, w: map<string, string>)
    requires forall n :: n in Holes(ps) ==> Agree(v, w, n)
    ensures Instantiate(ps, v) == Instantiate(ps, w)
  {
    if ps != [] {
      if ps[0].Hole? {
        assert ps[0].name in Holes(ps);
        assert Agree(v, w, ps[0].name);
      }
      forall n | n in Holes(ps[1..]) ensures Agree(v, w, n) {
        var i :| 0 <= i < |ps[1..]| && ps[1..][i] == Hole(n);
        assert ps[i + 1] == Hole(n);
        assert n in Holes(ps);
      }
      InstantiateAgrees(ps[1..], v, w);
    }
  }

  ghost predicate Agree(v: map<string, string>, w: map<string, string>, n: string)
  {
    (n in v <==> n in w) && (n in v && n in w ==> v[n] == w[n])
  }

  /** When expansion succeeds: every brace closed, every name known. */
  lemma {:induction false} InstantiateOkIff(ps: seq<Piece>, values: map<string, string>)
    ensures Instantiate(ps, values).Ok? <==> Holes(ps) <= values.Keys
  {
    if ps != [] {
      InstantiateOkIff(ps[1..], values);
      var rest := ps[1..];
      assert Holes(ps) == (if ps[0].Hole? then {ps[0].name} else {}) + Holes(rest) by {
        forall n | n in Holes(ps) ensures n in Holes(rest) || (ps[0].Hole? && n == ps[0].name) {
          var i :| 0 <= i < |ps| && ps[i] == Hole(n);
          if i > 0 { assert rest[i - 1] == Hole(n); }
        }
        forall n | n in Holes(rest) ensures n in Holes(ps) {
          var i :| 0 <= i < |rest| && rest[i] == Hole(n);
          assert ps[i + 1] == Hole(n);
        }
      }
    }
  }

  // ----- Resolving -----

  datatype Rule = Rule(id: string, methods: seq<string>, hosts: seq<string>, resource: string, parents: seq<string>)

  datatype Route = Route(action: string, rule: Rule, path: seq<PathMatcher>)

  datatype Request = Request(verb: string, host: string, path: string)

  datatype Resolved<U> = Resolved(route: string, action: string, resource: U, parents: seq<U>)

  predicate SameIgnoringCase(a: string, b: string) { Lower(a) == Lower(b) }

  predicate EndsWith(s: string, suffix: string)
  {
    |suffix| <= |s| && s[|s| - |suffix|..] == suffix
  }

  function WithoutPort(host: string): string { Split(host, ':')[0] }

  predicate HostMatches(pattern: string, host: string)
  {
    var name := WithoutPort(host);
    if |pattern| >= 2 && pattern[..2] == "*." then
      var suffix := pattern[2..];
      name != suffix && EndsWith(name, ['.'] + suffix)
    else SameIgnoringCase(pattern, name)
  }

  /** A wildcard host stands for its suffix with anything, even nothing, before the dot; case counts here. */
  lemma WildcardHost(suffix: string, host: string)
    ensures HostMatches("*." + suffix, host) <==> exists prefix :: WithoutPort(host) == prefix + ['.'] + suffix
  {
    var pattern := "*." + suffix;
    var name := WithoutPort(host);
    assert pattern[..2] == "*." && pattern[2..] == suffix;
    if HostMatches(pattern, host) {
      var prefix := name[..|name| - |suffix| - 1];
      assert name == prefix + (['.'] + suffix);
      assert name == prefix + ['.'] + suffix;
    }
    if prefix :| name == prefix + ['.'] + suffix {
      assert name[|name| - |suffix| - 1..] == ['.'] + suffix;
      assert |name| > |suffix|;
    }
  }

  predicate Offered(rule: Rule, request: Request)
  {
    && (rule.methods == [] || exists i :: 0 <= i < |rule.methods| && SameIgnoringCase(rule.methods[i], request.verb))
    && (rule.hosts == [] || exists i :: 0 <= i < |rule.hosts| && HostMatches(rule.hosts[i], request.host))
  }

  /** Claims first, then the method and the host, then the path's captures; later ones win. */
  function Values(route: Route, request: Request, claims: map<string, string>): map<string, string>
  {
    claims["method" := Lower(request.verb)]["host" := request.host]
    + Captures(route.path, SplitPath(request.path))
  }

  function Read<U>(template: string, values: map<string, string>, parse: string -> Option<U>): Result<U>
  {
    var raw := Expanded(template, values);
    if raw.Err? then Err
    else
      var urn := parse(raw.value);
      if urn.None? then Err else Ok(urn.value)
  }

  function ReadAll<U>(templates: seq<string>, values: map<string, string>, parse: string -> Option<U>): Result<seq<U>>
  {
    if templates == [] then Ok([])
    else
      var first, rest := Read(templates[0], values, parse), ReadAll(templates[1..], values, parse);
      if first.Err? || rest.Err? then Err else Ok([first.value] + rest.value)
  }

  /** `Ok(None)`: the route does not apply.  `Err`: it applies but its templates do not give URNs. */
  function Resolve<U>(route: Route, request: Request, claims: map<string, string>, parse: string -> Option<U>): Result<Option<Resolved<U>>>
  {
    if !Offered(route.rule, request) || !Fits(route.path, SplitPath(request.path)) then Ok(None)
    else
      var values := Values(route, request, claims);
      var resource := Read(route.rule.resource, values, parse);
      var parents := ReadAll(route.rule.parents, values, parse);
      if resource.Err? || parents.Err? then Err
      else Ok(Some(Resolved(route.rule.id, route.action, resource.value, parents.value)))
  }

  method ResolveOne<U>(route: Route, request: Request, claims: map<string, string>, parse: string -> Option<U>)
    returns (r: Result<Option<Resolved<U>>>)
    ensures r == Resolve(route, request, claims, parse)
  {
    hide SplitPath, Fits, Captures, Expanded;
    if !Offered(route.rule, request) {
      return Ok(None);
    }
    var ok, values := MatchPath(route.path, request.path, claims["method" := Lower(request.verb)]["host" := request.host]);
    if !ok {
      return Ok(None);
    }
    var raw := ExpandTemplate(route.rule.resource, values);
    if raw.Err? {
      return Err;
    }
    var resource := parse(raw.value);
    if resource.None? {
      return Err;
    }
    var parents: seq<U> := [];
    var templates := route.rule.parents;
    ghost var all := ReadAll(templates, values, parse);
    assert templates[0..] == templates;
    if all.Ok? { assert [] + all.value == all.value; }
    for i := 0 to |templates|
      invariant var rest := ReadAll(templates[i..], values, parse);
        all == if rest.Ok? then Ok(parents + rest.value) else Err
    {
      assert templates[i..][1..] == templates[i + 1..];
      ghost var rest := ReadAll(templates[i + 1..], values, parse);
      var text := ExpandTemplate(templates[i], values);
      if text.Err? {
        return Err;
      }
      var urn := parse(text.value);
      if urn.None? {
        return Err;
      }
      if rest.Ok? { assert parents + ([urn.value] + rest.value) == parents + [urn.value] + rest.value; }
      parents := parents + [urn.value];
    }
    assert templates[|templates|..] == [];
    assert parents + [] == parents;
    return Ok(Some(Resolved(route.rule.id, route.action, resource.value, parents)));
  }

  /** Exactly one route answers, with `x`; every other route is silent. */
  ghost predicate OnlyAnswer<U>(routes: seq<Route>, request: Request, claims: map<string, string>,
                                parse: string -> Option<U>, x: Resolved<U>)
  {
    exists i :: 0 <= i < |routes| && AnswersAt(routes, request, claims, parse, x, i)
  }

  ghost predicate AnswersAt<U>(routes: seq<Route>, request: Request, claims: map<string, string>,
                               parse: string -> Option<U>, x: Resolved<U>, i: nat)
    requires i < |routes|
  {
    && Resolve(routes[i], request, claims, parse) == Ok(Some(x))
    && Silent(routes[..i] + routes[i + 1..], request, claims, parse)
  }

  ghost predicate Silent<U>(routes: seq<Route>, request: Request, claims: map<string, string>, parse: string -> Option<U>)
  {
    forall i :: 0 <= i < |routes| ==> Resolve(routes[i], request, claims, parse) == Ok(None)
  }

  method ResolveRoute<U(!new)>(routes: seq<Route>, request: Request, claims: map<string, string>, parse: string -> Option<U>)
    returns (r: Result<Resolved<U>>)
    ensures r.Ok? ==> OnlyAnswer(routes, request, claims, parse, r.value)
    ensures r.Err? ==> forall x :: !OnlyAnswer(routes, request, claims, parse, x)
  {
    hide Resolve;
    var resolved: Option<Resolved<U>> := None;
    ghost var at := 0;
    for n := 0 to |routes|
      invariant resolved.None? ==> Silent(routes[..n], request, claims, parse)
      invariant resolved.Some? ==> 0 <= at < n && AnswersAt(routes[..n], request, claims, parse, resolved.value, at)
    {
      var candidate := ResolveOne(routes[n], request, claims, parse);
      assert routes[..n + 1] == routes[..n] + [routes[n]];
      if candidate.Err? {
        NoisyRefuses(routes, request, claims, parse, n);
        return Err;
      }
      if candidate.value.Some? {
        if resolved.Some? {
          assert routes[..n][at] == routes[at];
          TwoRefuse(routes, request, claims, parse, at, n);
          return Err;
        }
        resolved := candidate.value;
        at := n;
        assert routes[..n + 1][..n] + routes[..n + 1][n + 1..] == routes[..n];
      } else if resolved.Some? {
        SilentSnoc(routes[..n], request, claims, parse, resolved.value, at, routes[n]);
      }
    }
    assert routes[..|routes|] == routes;
    if resolved.None? {
      SilentRefuses(routes, request, claims, parse);
      return Err;
    }
    return Ok(resolved.value);
  }

  lemma SilentSnoc<U>(routes: seq<Route>, request: Request, claims: map<string, string>, parse: string -> Option<U>,
                      x: Resolved<U>, i: nat, route: Route)
    requires i < |routes| && AnswersAt(routes, request, claims, parse, x, i)
    requires Resolve(route, request, claims, parse) == Ok(None)
    ensures AnswersAt(routes + [route], request, claims, parse, x, i)
  {
    hide Resolve;
    var longer := routes + [route];
    assert longer[..i] + longer[i + 1..] == (routes[..i] + routes[i + 1..]) + [route];
  }

  lemma Elsewhere(routes: seq<Route>, i: nat, n: nat)
    requires i < |routes| && n < |routes| && i != n
    ensures routes[n] in routes[..i] + routes[i + 1..]
  {
    var others := routes[..i] + routes[i + 1..];
    assert others[if n < i then n else n - 1] == routes[n];
  }

  lemma NoisyRefuses<U(!new)>(routes: seq<Route>, request: Request, claims: map<string, string>, parse: string -> Option<U>, n: nat)
    requires n < |routes| && Resolve(routes[n], request, claims, parse).Err?
    ensures forall x :: !OnlyAnswer(routes, request, claims, parse, x)
  {
    hide Resolve;
    forall i: nat, x | i < |routes| ensures !AnswersAt(routes, request, claims, parse, x, i) {
      if i != n { Elsewhere(routes, i, n); }
    }
  }

  lemma TwoRefuse<U(!new)>(routes: seq<Route>, request: Request, claims: map<string, string>, parse: string -> Option<U>, m: nat, n: nat)
    requires m < n < |routes|
    requires Resolve(routes[m], request, claims, parse) != Ok(None) && Resolve(routes[n], request, claims, parse) != Ok(None)
    ensures forall x :: !OnlyAnswer(routes, request, claims, parse, x)
  {
    hide Resolve;
    forall i: nat, x | i < |routes| ensures !AnswersAt(routes, request, claims, parse, x, i) {
      if i != n { Elsewhere(routes, i, n); } else { Elsewhere(routes, i, m); }
    }
  }

  lemma SilentRefuses<U(!new)>(routes: seq<Route>, request: Request, claims: map<string, string>, parse: string -> Option<U>)
    requires Silent(routes, request, claims, parse)
    ensures forall x :: !OnlyAnswer(routes, request, claims, parse, x)
  {
    hide Resolve;
  }

  /** Only one answer can be the only answer. */
  lemma AnswerUnique<U>(routes: seq<Route>, request: Request, claims: map<string, string>, parse: string -> Option<U>,
                        x: Resolved<U>, y: Resolved<U>)
    requires OnlyAnswer(routes, request, claims, parse, x) && OnlyAnswer(routes, request, claims, parse, y)
    ensures x == y
  {
    hide Resolve;
    var i: nat :| i < |routes| && AnswersAt(routes, request, claims, parse, x, i);
    var j: nat :| j < |routes| && AnswersAt(routes, request, claims, parse, y, j);
    if i != j {
      Elsewhere(routes, i, j);
    }
  }

  lemma OthersPermuted<T>(a: seq<T>, i: nat, b: seq<T>, j: nat)
    requires i < |a| && j < |b| && a[i] == b[j] && multiset(a) == multiset(b)
    ensures multiset(a[..i] + a[i + 1..]) == multiset(b[..j] + b[j + 1..])
  {
    WithoutOne(a, i);
    WithoutOne(b, j);
  }

  lemma SilentPermuted<U>(a: seq<Route>, b: seq<Route>, request: Request, claims: map<string, string>, parse: string -> Option<U>)
    requires multiset(a) == multiset(b) && Silent(a, request, claims, parse)
    ensures Silent(b, request, claims, parse)
  {
    hide Resolve;
    forall j | 0 <= j < |b| ensures Resolve(b[j], request, claims, parse) == Ok(None) {
      assert b[j] in multiset(a);
      var i :| 0 <= i < |a| && a[i] == b[j];
    }
  }

  /** The order in which routes are configured does not matter. */
  lemma RouteOrderIrrelevant<U>(a: seq<Route>, b: seq<Route>, request: Request, claims: map<string, string>,
                                parse: string -> Option<U>, x: Resolved<U>)
    requires multiset(a) == multiset(b) && OnlyAnswer(a, request, claims, parse, x)
    ensures OnlyAnswer(b, request, claims, parse, x)
  {
    hide Resolve, Silent;
    var i: nat :| i < |a| && AnswersAt(a, request, claims, parse, x, i);
    assert a[i] in multiset(b);
    var j: nat :| j < |b| && b[j] == a[i];
    OthersPermuted(a, i, b, j);
    SilentPermuted(a[..i] + a[i + 1..], b[..j] + b[j + 1..], request, claims, parse);
    assert AnswersAt(b, request, claims, parse, x, j);
  }

  /** Names the route takes from the request itself once it applies. */
  ghost predicate BoundByRequest(route: Route, name: string)
  {
    name == "method" || name == "host" || exists i :: BindsLast(route.path, name, i)
  }

  ghost predicate Mentions(rule: Rule, name: string)
  {
    TemplateMentions(rule.resource, name) || exists i :: 0 <= i < |rule.parents| && TemplateMentions(rule.parents[i], name)
  }

  ghost predicate TemplateMentions(template: string, name: string)
  {
    ParseTemplate(template).Ok? && name in Holes(ParseTemplate(template).value)
  }

  lemma ValuesAgree(route: Route, request: Request, c: map<string, string>, d: map<string, string>, name: string)
    requires Fits(route.path, SplitPath(request.path))
    requires BoundByRequest(route, name) || Agree(c, d, name)
    ensures Agree(Values(route, request, c), Values(route, request, d), name)
  {
    hide Fits, SplitPath, BindsLast;
    if i :| BindsLast(route.path, name, i) {
      CapturesSegment(route.path, SplitPath(request.path), name, i);
    }
  }

  lemma ReadAgrees<U>(template: string, v: map<string, string>, w: map<string, string>, parse: string -> Option<U>)
    requires forall n :: TemplateMentions(template, n) ==> Agree(v, w, n)
    ensures Read(template, v, parse) == Read(template, w, parse)
  {
    hide ParseTemplate, Instantiate, Agree, Holes;
    var ps := ParseTemplate(template);
    if ps.Ok? {
      forall n | n in Holes(ps.value) ensures Agree(v, w, n) {
        assert TemplateMentions(template, n);
      }
      InstantiateAgrees(ps.value, v, w);
    }
  }

  lemma {:induction false} ReadAllAgrees<U>(templates: seq<string>, v: map<string, string>, w: map<string, string>, parse: string -> Option<U>)
    requires forall i, n :: 0 <= i < |templates| && TemplateMentions(templates[i], n) ==> Agree(v, w, n)
    ensures ReadAll(templates, v, parse) == ReadAll(templates, w, parse)
  {
    hide Read, Agree, TemplateMentions;
    if templates != [] {
      ReadAgrees(templates[0], v, w, parse);
      assert forall i :: 0 <= i < |templates[1..]| ==> templates[1..][i] == templates[i + 1];
      ReadAllAgrees(templates[1..], v, w, parse);
    }
  }

  /**
   Path captures, the method and the host shadow claims: claims that agree on the template variables
   the request does not bind give one resolution.
   */
  lemma ClaimsShadowed<U>(route: Route, request: Request, c: map<string, string>, d: map<string, string>, parse: string -> Option<U>)
    requires forall n :: Mentions(route.rule, n) && !BoundByRequest(route, n) ==> Agree(c, d, n)
    ensures Resolve(route, request, c, parse) == Resolve(route, request, d, parse)
  {
    hide Fits, SplitPath, Values, Read, ReadAll, Agree, BoundByRequest, TemplateMentions, Offered;
    if Fits(route.path, SplitPath(request.path)) {
      var v, w := Values(route, request, c), Values(route, request, d);
      forall n | Mentions(route.rule, n) ensures Agree(v, w, n) {
        ValuesAgree(route, request, c, d, n);
      }
      ReadAgrees(route.rule.resource, v, w, parse);
      ReadAllAgrees(route.rule.parents, v, w, parse);
    }
  }

  /** Two spellings of a path that differ only in repeated, leading or trailing slashes resolve alike. */
  lemma SpellingIrrelevant<U>(routes: seq<Route>, verb: string, host: string, p: string, q: string, claims: map<string, string>,
                              parse: string -> Option<U>, x: Resolved<U>)
    requires SplitPath(p) == SplitPath(q)
    ensures OnlyAnswer(routes, Request(verb, host, p), claims, parse, x) <==> OnlyAnswer(routes, Request(verb, host, q), claims, parse, x)
  {
    hide SplitPath, Fits, Captures, Expanded;
    var a, b := Request(verb, host, p), Request(verb, host, q);
    forall r ensures Resolve(r, a, claims, parse) == Resolve(r, b, claims, parse) {
      assert Offered(r.rule, a) == Offered(r.rule, b);
    }
    hide Resolve;
    assert forall i: nat :: i < |routes| ==>
      AnswersAt(routes, a, claims, parse, x, i) == AnswersAt(routes, b, claims, parse, x, i);
  }
}
