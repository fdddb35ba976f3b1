/**
 The Python adapter's scope compiler, and its agreement with the Go one.  Exceptions are `Err`;
 list comprehensions are sequences built by recursion.
 */
module PythonScope {
  import opened Strings
  import opened Urn
  import opened ScopeSpec
  import opened ScopeText
  import opened ScopeRefusals
  import GoScope

  method ParseUrnPattern(raw: string) returns (r: Result<UrnPattern>)
    ensures r == Parse(raw)
  {
    hide SplitN;
    var parts := SplitN(raw, ':', 7);
    if |parts| != 7 || parts[0] != "urn" || parts[1] != "iam" || ':' in parts[6] {
      return Err;
    }
    for i := 2 to 6
      invariant forall k :: 2 <= k < i ==> ValidSegment(parts[k])
    {
      if parts[i] == "" || ('*' in parts[i] && parts[i] != "*") {
        return Err;
      }
    }
    var path := Split(parts[6], '/');
    assert parts[6] == "" ==> path[0] == "";
    if exists i :: 0 <= i < |path| && path[i] == "" {
      return Err;
    }
    for i := 0 to |path|
      invariant forall k :: 0 <= k < i ==> ValidPathSegment(path[k], k, |path|)
    {
      if path[i] == "**" && i != |path| - 1 {
        return Err;
      }
      if '*' in path[i] && path[i] !in {"*", "**"} {
        return Err;
      }
    }
    return Ok(UrnPattern(parts[2], parts[3], parts[4], parts[5], path));
  }

  /** The two lists `clauses` and `args` that the helpers append to. */
  datatype Lists = Lists(clauses: seq<string>, args: seq<string>)

  function ListsOf(cs: seq<Clause>): Lists
  {
    Lists(Texts(cs), ArgsOf(cs))
  }

  lemma Appended(cs: seq<Clause>, c: Clause)
    ensures ListsOf(cs + [c]) == Lists(Texts(cs) + [ClauseText(c)], ArgsOf(cs) + ClauseArgs(c))
  {
    assert (cs + [c])[..|cs|] == cs;
  }

  method CompileRemainder(column: string, remaining: seq<string>, l: Lists, ghost done: seq<Clause>) returns (r: Result<Lists>)
    requires l == ListsOf(done)
    ensures var o := RemainderOutcome(column, remaining);
      !o.NoRow? && r == if o.Rejected? then Err else Ok(ListsOf(done + o.clauses))
  {
    assert done + [] == done;
    if |remaining| == 0 || remaining == ["**"] {
      return Ok(l);
    }
    if "*" in remaining {
      return Err;
    }
    if remaining[|remaining| - 1] == "**" {
      var prefix := Join(remaining[..|remaining| - 1], "/");
      if prefix != "" {
        Appended(done, Under(column, prefix));
        return Ok(Lists(l.clauses + ["(" + column + " = ? OR " + column + " LIKE ?)"], l.args + [prefix, prefix + "/%"]));
      }
      return Ok(l);
    }
    Appended(done, Equals(column, Join(remaining, "/")));
    return Ok(Lists(l.clauses + [column + " = ?"], l.args + [Join(remaining, "/")]));
  }

  /** `None` when the path cannot match the table. */
  method CompilePath(m: ResourceSqlMapping, pattern: seq<string>, l: Lists, ghost done: seq<Clause>) returns (r: Result<Option<Lists>>)
    requires l == ListsOf(done)
    ensures match PathOutcome(m.path, pattern)
      case Rejected => r == Err
      case NoRow => r == Ok(None)
      case Compiled(cs) => r == Ok(Some(ListsOf(done + cs)))
  {
    hide PathOutcome, RemainderOutcome, ListsOf;
    ghost var added: seq<Clause> := [];
    var lists, pidx: nat := l, 0;
    assert done + [] == done;
    GoScope.ThenNothing(PathOutcome(m.path, pattern));
    assert m.path[0..] == m.path && pattern[0..] == pattern;
    for i := 0 to |m.path|
      invariant pidx <= |pattern|
      invariant lists == ListsOf(done + added)
      invariant PathOutcome(m.path, pattern) == Then(Compiled(added), PathOutcome(m.path[i..], pattern[pidx..]))
    {
      GoScope.PathStep(m.path, i, pattern, pidx);
      var map_ := m.path[i];
      if pidx < |pattern| && pattern[pidx] == "**" {
        assert added + [] == added;
        return Ok(Some(lists));
      }
      if map_.Literal? {
        if pidx >= |pattern| {
          return Ok(None);
        }
        if pattern[pidx] != "*" && pattern[pidx] != map_.value {
          return Ok(None);
        }
        pidx := pidx + 1;
      } else if map_.PathColumn? {
        if pidx >= |pattern| {
          return Ok(None);
        }
        ghost var rest := PathOutcome(m.path[i + 1..], pattern[pidx + 1..]);
        if pattern[pidx] != "*" {
          ghost var e := Equals(map_.name, pattern[pidx]);
          lists := AppendEquals(lists, map_.name, pattern[pidx], done + added);
          GoScope.ThenConcat(added, [e], rest);
          assert done + (added + [e]) == done + added + [e];
          added := added + [e];
        } else {
          GoScope.ThenNothing(rest);
        }
        pidx := pidx + 1;
      } else {
        ghost var o := RemainderOutcome(map_.name, pattern[pidx..]);
        var next := CompileRemainder(map_.name, pattern[pidx..], lists, done + added);
        if next.Err? {
          return Err;
        }
        lists := next.value;
        GoScope.ThenConcat(added, o.clauses, PathOutcome(m.path[i + 1..], pattern[|pattern|..]));
        assert done + (added + o.clauses) == done + added + o.clauses;
        added := added + o.clauses;
        pidx := |pattern|;
      }
    }
    GoScope.PathEnd(m.path, pattern, pidx);
    GoScope.ThenNothing(Compiled(added));
    return Ok(if pidx == |pattern| || (pidx + 1 == |pattern| && pattern[pidx] == "**") then Some(lists) else None);
  }

  method AppendEquals(l: Lists, column: string, arg: string, ghost done: seq<Clause>) returns (r: Lists)
    requires l == ListsOf(done)
    ensures r == ListsOf(done + [Equals(column, arg)])
  {
    Appended(done, Equals(column, arg));
    return Lists(l.clauses + [column + " = ?"], l.args + [arg]);
  }

  /** `None` when the segment is a different constant. */
  method CompileSegment(m: SegmentMap, pattern: string, l: Lists, ghost done: seq<Clause>) returns (r: Option<Lists>)
    requires l == ListsOf(done)
    ensures var o := SegmentOutcome(m, pattern);
      !o.Rejected? && r == if o.Compiled? then Some(ListsOf(done + o.clauses)) else None
  {
    assert done + [] == done;
    if pattern == "*" {
      return Some(l);
    }
    if m.ConstantSegment? {
      return if m.value == pattern then Some(l) else None;
    }
    r := Some(l);
    var next := AppendEquals(l, m.name, pattern, done);
    return Some(next);
  }

  function ScopeFrom(l: Lists): SqlScope
  {
    if l.clauses == [] then SqlScope("1=1", l.args) else SqlScope(Join(l.clauses, " AND "), l.args)
  }

  method CompilePattern(m: ResourceSqlMapping, p: UrnPattern) returns (r: Result<Option<SqlScope>>)
    ensures match PatternOutcome(m, p)
      case Rejected => r == Err
      case NoRow => r == Ok(None)
      case Compiled(cs) => r == Ok(Some(ScopeOf(cs)))
  {
    hide SegmentOutcome, PathOutcome, Then;
    ghost var o1, o2 := SegmentOutcome(m.partition, p.partition), SegmentOutcome(m.service, p.service);
    ghost var o3, o4 := SegmentOutcome(m.region, p.region), SegmentOutcome(m.tenant, p.tenant);
    GoScope.ThenFive(o1, o2, o3, o4, PathOutcome(m.path, p.path));
    var l := CompileSegment(m.partition, p.partition, Lists([], []), []);
    if l.None? { return Ok(None); }
    l := CompileSegment(m.service, p.service, l.value, [] + o1.clauses);
    if l.None? { return Ok(None); }
    l := CompileSegment(m.region, p.region, l.value, [] + o1.clauses + o2.clauses);
    if l.None? { return Ok(None); }
    l := CompileSegment(m.tenant, p.tenant, l.value, [] + o1.clauses + o2.clauses + o3.clauses);
    if l.None? { return Ok(None); }
    var path := CompilePath(m, p.path, l.value, [] + o1.clauses + o2.clauses + o3.clauses + o4.clauses);
    if path.Err? { return Err; }
    if path.value.None? { return Ok(None); }
    return Ok(Some(ScopeFrom(path.value.value)));
  }

  function Bracketed(scopes: seq<SqlScope>): (r: seq<string>)
    ensures |r| == |scopes|
  {
    if scopes == [] then [] else ["(" + scopes[0].where + ")"] + Bracketed(scopes[1..])
  }

  function Flatten(scopes: seq<SqlScope>): seq<string>
  {
    if scopes == [] then [] else scopes[0].args + Flatten(scopes[1..])
  }

  function Or(scopes: seq<SqlScope>): SqlScope
    requires scopes != []
  {
    if |scopes| == 1 then scopes[0]
    else if exists i :: 0 <= i < |scopes| && scopes[i].where == "1=1" then SqlScope("1=1", [])
    else SqlScope(Join(Bracketed(scopes), " OR "), Flatten(scopes))
  }

  lemma {:induction false} FlattenSnoc(scopes: seq<SqlScope>, s: SqlScope)
    ensures Bracketed(scopes + [s]) == Bracketed(scopes) + ["(" + s.where + ")"]
    ensures Flatten(scopes + [s]) == Flatten(scopes) + s.args
  {
    if scopes == [] {
      assert scopes + [s] == [s] && [s][1..] == [];
      assert s.args + [] == s.args && [] + s.args == s.args;
    } else {
      var rest, part := scopes[1..], ["(" + s.where + ")"];
      assert (scopes + [s])[1..] == rest + [s];
      FlattenSnoc(rest, s);
      var head := ["(" + scopes[0].where + ")"];
      assert head + (Bracketed(rest) + part) == head + Bracketed(rest) + part;
      assert scopes[0].args + (Flatten(rest) + s.args) == scopes[0].args + Flatten(rest) + s.args;
    }
  }

  lemma FlattenNothing()
    ensures Bracketed([]) == [] && Flatten([]) == []
  {
  }

  lemma {:induction false} FlattenIsAllArgs(scopes: seq<SqlScope>, css: seq<seq<Clause>>)
    requires GoScope.AreScopes(scopes, css)
    ensures Bracketed(scopes) == Parenthesised(css) && Flatten(scopes) == AllArgs(css)
  {
    hide WhereOf, ArgsOf, Bracketed, Flatten;
    if css == [] {
      FlattenNothing();
    } else {
      var k := |css| - 1;
      FlattenIsAllArgs(scopes[..k], css[..k]);
      assert scopes == scopes[..k] + [scopes[k]];
      FlattenSnoc(scopes[..k], scopes[k]);
    }
  }

  /** The comprehension-style disjunction is the specified one. */
  lemma OrIsOrScope(scopes: seq<SqlScope>, css: seq<seq<Clause>>)
    requires scopes != [] && GoScope.AreScopes(scopes, css)
    ensures Or(scopes) == OrScope(css)
  {
    hide WhereOf;
    FlattenIsAllArgs(scopes, css);
    forall i | 0 <= i < |css| ensures scopes[i].where == "1=1" <==> css[i] == [] {
      SentinelIsFaithful(css[i]);
    }
    assert (exists i :: 0 <= i < |scopes| && scopes[i].where == "1=1") <==> [] in css;
  }

  method CompileScope(m: ResourceSqlMapping, allow: seq<string>, deny: seq<string>) returns (r: Result<SqlScope>)
    ensures r == CompileSpec(m, allow, deny)
    ensures r.Err? <==> Refused(m, allow, deny)
  {
    RefusedIff(m, allow, deny);
    hide Refused;
    hide Parse, PatternOutcome, OrScope, WhereOf;
    var allowScopes: seq<SqlScope> := [];
    ghost var css: seq<seq<Clause>> := [];
    for i := 0 to |allow|
      invariant AllowOutcome(m, allow[..i]) == Ok(css) && GoScope.AreScopes(allowScopes, css)
    {
      assert allow[..i + 1][..i] == allow[..i];
      var one := CompileRaw(m, allow[i]);
      if one.Err? {
        GoScope.AllowErrStays(m, allow, i);
        return Err;
      }
      if one.value.Some? {
        allowScopes := allowScopes + [one.value.value];
        css := css + [RawOutcome(m, allow[i]).clauses];
      } else {
        assert css + [] == css;
      }
    }
    assert allow[..|allow|] == allow;
    if allowScopes == [] {
      return Ok(SqlScope("0=1", []));
    }
    var scope := Or(allowScopes);
    OrIsOrScope(allowScopes, css);
    ghost var os := Outcomes(m, deny);
    assert os[0..] == os;
    for i := 0 to |deny|
      invariant CompileSpec(m, allow, deny) == DenyFold(scope, os[i..])
    {
      assert os[i..][0] == RawOutcome(m, deny[i]) && os[i..][1..] == os[i + 1..];
      var denyScope := CompileRaw(m, deny[i]);
      if denyScope.Err? {
        return Err;
      }
      if denyScope.value.Some? {
        SentinelIsFaithful(RawOutcome(m, deny[i]).clauses);
        if denyScope.value.value.where == "1=1" {
          return Ok(SqlScope("0=1", []));
        }
        scope := SqlScope("(" + scope.where + ") AND NOT (" + denyScope.value.value.where + ")",
                          scope.args + denyScope.value.value.args);
      }
    }
    return Ok(scope);
  }

  method CompileRaw(m: ResourceSqlMapping, raw: string) returns (r: Result<Option<SqlScope>>)
    ensures match RawOutcome(m, raw)
      case Rejected => r == Err
      case NoRow => r == Ok(None)
      case Compiled(cs) => r == Ok(Some(ScopeOf(cs)))
  {
    hide PatternOutcome;
    var p := ParseUrnPattern(raw);
    if p.Err? {
      return Err;
    }
    r := CompilePattern(m, p.value);
  }

  /** On every mapping and every pattern lists the two adapters return the same text and arguments, or both refuse. */
  method AdaptersAgree(m: ResourceSqlMapping, allow: seq<string>, deny: seq<string>) returns (go: Result<SqlScope>, python: Result<SqlScope>)
    ensures go == python
  {
    go := GoScope.CompileScope(m, allow, deny);
    python := CompileScope(m, allow, deny);
  }
}
