/**
 The Go adapter's scope compiler.  `clauses` and `args` are the two slices the original appends to
 through pointers; the path loop walks the mapping with one index into the pattern.
 */
module GoScope {
  import opened Strings
  import opened Urn
  import opened ScopeSpec
  import opened ScopeText
  import opened ScopeRefusals

  method ParseURNPattern(raw: string) returns (r: Result<UrnPattern>)
    ensures r == Parse(raw)
  {
    var parts := SplitN(raw, ':', 7);
    if |parts| != 7 || parts[0] != "urn" || parts[1] != "iam" || parts[6] == "" || ':' in parts[6] {
      return Err;
    }
    for i := 2 to 6
      invariant forall k :: 2 <= k < i ==> ValidSegment(parts[k])
    {
      if parts[i] == "" || ('*' in parts[i] && parts[i] != "*") {
        return Err;
      }
    }
    var path := Split(parts[6], '/');
    for i := 0 to |path|
      invariant forall k :: 0 <= k < i ==> ValidPathSegment(path[k], k, |path|)
    {
      if path[i] == "" {
        return Err;
      }
      if path[i] == "**" && i != |path| - 1 {
        return Err;
      }
      if '*' in path[i] && path[i] != "*" && path[i] != "**" {
        return Err;
      }
    }
    return Ok(UrnPattern(parts[2], parts[3], parts[4], parts[5], path));
  }

  lemma {:induction false} TextsConcat(a: seq<Clause>, b: seq<Clause>)
    ensures Texts(a + b) == Texts(a) + Texts(b) && ArgsOf(a + b) == ArgsOf(a) + ArgsOf(b)
  {
    if b == [] {
      assert a + b == a;
    } else {
      var init, last := b[..|b| - 1], b[|b| - 1];
      assert (a + b)[..|a + b| - 1] == a + init;
      TextsConcat(a, init);
    }
  }

  lemma ThenConcat(a: seq<Clause>, b: seq<Clause>, o: Outcome)
    ensures Then(Compiled(a), Then(Compiled(b), o)) == Then(Compiled(a + b), o)
  {
    if o.Compiled? {
      assert a + (b + o.clauses) == a + b + o.clauses;
    }
  }

  /** The two slices under construction. */
  class Builder {
    var clauses: seq<string>
    var args: seq<string>

    constructor ()
      ensures clauses == [] && args == []
    {
      clauses, args := [], [];
    }

    /** The slices hold the texts and arguments of `cs`. */
    ghost predicate Holds(cs: seq<Clause>)
      reads this
    {
      clauses == Texts(cs) && args == ArgsOf(cs)
    }

    method Append(clause: string, more: seq<string>, ghost cs: seq<Clause>, ghost c: Clause)
      requires Holds(cs) && clause == ClauseText(c) && more == ClauseArgs(c)
      modifies this
      ensures Holds(cs + [c])
    {
      TextsConcat(cs, [c]);
      assert Texts([c]) == [ClauseText(c)] && ArgsOf([c]) == [] + ClauseArgs(c);
      clauses := clauses + [clause];
      args := args + more;
    }
  }

  method CompileSegment(m: SegmentMap, pattern: string, b: Builder, ghost done: seq<Clause>) returns (ok: bool)
    requires b.Holds(done)
    modifies b
    ensures !SegmentOutcome(m, pattern).Rejected? && ok == SegmentOutcome(m, pattern).Compiled?
    ensures ok ==> b.Holds(done + SegmentOutcome(m, pattern).clauses)
  {
    if pattern == "*" {
      assert done + [] == done;
      return true;
    }
    if m.ConstantSegment? {
      assert done + [] == done;
      return m.value == pattern;
    }
    b.Append(m.name + " = ?", [pattern], done, Equals(m.name, pattern));
    return true;
  }

  method CompileRemainder(column: string, remaining: seq<string>, b: Builder, ghost done: seq<Clause>) returns (failed: bool)
    requires b.Holds(done)
    modifies b
    ensures !RemainderOutcome(column, remaining).NoRow? && failed == RemainderOutcome(column, remaining).Rejected?
    ensures !failed ==> b.Holds(done + RemainderOutcome(column, remaining).clauses)
  {
    assert done + [] == done;
    if |remaining| == 0 || (|remaining| == 1 && remaining[0] == "**") {
      assert remaining == [] || remaining == ["**"];
      return false;
    }
    for i := 0 to |remaining|
      invariant "*" !in remaining[..i]
    {
      if remaining[i] == "*" {
        return true;
      }
    }
    assert remaining[..|remaining|] == remaining;
    if remaining[|remaining| - 1] == "**" {
      var prefix := Join(remaining[..|remaining| - 1], "/");
      if prefix != "" {
        b.Append("(" + column + " = ? OR " + column + " LIKE ?)", [prefix, prefix + "/%"], done, Under(column, prefix));
      }
      return false;
    }
    b.Append(column + " = ?", [Join(remaining, "/")], done, Equals(column, Join(remaining, "/")));
    return false;
  }

  /** One iteration of the path loop, at position i of the mapping and k of the pattern. */
  lemma PathStep(mpath: seq<PathMap>, i: nat, pattern: seq<string>, k: nat)
    requires i < |mpath| && k <= |pattern|
    ensures PathOutcome(mpath[i..], pattern[k..]) ==
      if k < |pattern| && pattern[k] == "**" then Compiled([])
      else match mpath[i]
        case Literal(v) =>
          if k == |pattern| || (pattern[k] != "*" && pattern[k] != v) then NoRow
          else PathOutcome(mpath[i + 1..], pattern[k + 1..])
        case PathColumn(c) =>
          if k == |pattern| then NoRow
          else Then(Compiled(if pattern[k] == "*" then [] else [Equals(c, pattern[k])]), PathOutcome(mpath[i + 1..], pattern[k + 1..]))
        case RemainderColumn(c) =>
          Then(RemainderOutcome(c, pattern[k..]), PathOutcome(mpath[i + 1..], pattern[|pattern|..]))
  {
    assert mpath[i..][1..] == mpath[i + 1..];
    assert k < |pattern| ==> pattern[k..][1..] == pattern[k + 1..];
    assert pattern[|pattern|..] == [];
  }

  lemma PathEnd(mpath: seq<PathMap>, pattern: seq<string>, k: nat)
    requires k <= |pattern|
    ensures PathOutcome(mpath[|mpath|..], pattern[k..]) ==
      if k == |pattern| || (k + 1 == |pattern| && pattern[k] == "**") then Compiled([]) else NoRow
  {
    assert mpath[|mpath|..] == [];
    assert pattern[k..] == ["**"] <==> k + 1 == |pattern| && pattern[k] == "**";
  }

  lemma ThenNothing(o: Outcome)
    ensures Then(Compiled([]), o) == o && Then(o, Compiled([])) == o
  {
    if o.Compiled? {
      assert [] + o.clauses == o.clauses && o.clauses + [] == o.clauses;
    }
  }

  method CompilePath(mpath: seq<PathMap>, pattern: seq<string>, b: Builder, ghost done: seq<Clause>) returns (ok: bool, failed: bool)
    requires b.Holds(done)
    modifies b
    ensures failed == PathOutcome(mpath, pattern).Rejected?
    ensures !failed ==> ok == PathOutcome(mpath, pattern).Compiled?
    ensures !failed && ok ==> b.Holds(done + PathOutcome(mpath, pattern).clauses)
  {
    hide PathOutcome, RemainderOutcome, Builder.Holds;
    ghost var added: seq<Clause> := [];
    var pidx: nat := 0;
    assert done + [] == done;
    ThenNothing(PathOutcome(mpath, pattern));
    assert mpath[0..] == mpath && pattern[0..] == pattern;
    for i := 0 to |mpath|
      invariant pidx <= |pattern|
      invariant b.Holds(done + added)
      invariant PathOutcome(mpath, pattern) == Then(Compiled(added), PathOutcome(mpath[i..], pattern[pidx..]))
    {
      PathStep(mpath, i, pattern, pidx);
      if pidx < |pattern| && pattern[pidx] == "**" {
        assert added + [] == added;
        return true, false;
      }
      match mpath[i]
      case Literal(v) =>
        if pidx >= |pattern| {
          return false, false;
        }
        if pattern[pidx] != "*" && pattern[pidx] != v {
          return false, false;
        }
        pidx := pidx + 1;
      case PathColumn(c) =>
        if pidx >= |pattern| {
          return false, false;
        }
        ghost var rest := PathOutcome(mpath[i + 1..], pattern[pidx + 1..]);
        if pattern[pidx] != "*" {
          ghost var e := Equals(c, pattern[pidx]);
          b.Append(c + " = ?", [pattern[pidx]], done + added, e);
          ThenConcat(added, [e], rest);
          assert done + (added + [e]) == done + added + [e];
          added := added + [e];
        } else {
          ThenNothing(rest);
        }
        pidx := pidx + 1;
      case RemainderColumn(c) =>
        ghost var o := RemainderOutcome(c, pattern[pidx..]);
        failed := CompileRemainder(c, pattern[pidx..], b, done + added);
        if failed {
          return false, true;
        }
        ThenConcat(added, o.clauses, PathOutcome(mpath[i + 1..], pattern[|pattern|..]));
        assert done + (added + o.clauses) == done + added + o.clauses;
        added := added + o.clauses;
        pidx := |pattern|;
    }
    PathEnd(mpath, pattern, pidx);
    ThenNothing(Compiled(added));
    return pidx == |pattern| || (pidx + 1 == |pattern| && pattern[pidx] == "**"), false;
  }

  method ScopeFrom(b: Builder, ghost cs: seq<Clause>) returns (scope: SqlScope)
    requires b.Holds(cs)
    ensures scope == ScopeOf(cs)
  {
    if |b.clauses| == 0 {
      return SqlScope("1=1", b.args);
    }
    return SqlScope(Join(b.clauses, " AND "), b.args);
  }

  method CompilePattern(m: ResourceSqlMapping, p: UrnPattern) returns (scope: SqlScope, ok: bool, failed: bool)
    ensures failed == PatternOutcome(m, p).Rejected?
    ensures !failed ==> ok == PatternOutcome(m, p).Compiled?
    ensures !failed && ok ==> scope == ScopeOf(PatternOutcome(m, p).clauses)
  {
    hide SegmentOutcome, PathOutcome, Then, Builder.Holds;
    scope := SqlScope("", []);
    ghost var o1, o2 := SegmentOutcome(m.partition, p.partition), SegmentOutcome(m.service, p.service);
    ghost var o3, o4 := SegmentOutcome(m.region, p.region), SegmentOutcome(m.tenant, p.tenant);
    ghost var o5 := PathOutcome(m.path, p.path);
    ThenFive(o1, o2, o3, o4, o5);
    var b := NewBuilder();
    ok := CompileSegment(m.partition, p.partition, b, []);
    if !ok { return scope, false, false; }
    ok := CompileSegment(m.service, p.service, b, [] + o1.clauses);
    if !ok { return scope, false, false; }
    ok := CompileSegment(m.region, p.region, b, [] + o1.clauses + o2.clauses);
    if !ok { return scope, false, false; }
    ok := CompileSegment(m.tenant, p.tenant, b, [] + o1.clauses + o2.clauses + o3.clauses);
    if !ok { return scope, false, false; }
    ok, failed := CompilePath(m.path, p.path, b, [] + o1.clauses + o2.clauses + o3.clauses + o4.clauses);
    if failed || !ok {
      return scope, false, failed;
    }
    scope := ScopeFrom(b, PatternOutcome(m, p).clauses);
  }

  method NewBuilder() returns (b: Builder)
    ensures fresh(b) && b.Holds([])
  {
    b := new Builder();
  }

  /** Running five stages one after another, stopping at the first that is not compiled. */
  lemma ThenFive(a: Outcome, b: Outcome, c: Outcome, d: Outcome, e: Outcome)
    ensures Then(a, Then(b, Then(c, Then(d, e)))) ==
      if !a.Compiled? then a else if !b.Compiled? then b else if !c.Compiled? then c
      else if !d.Compiled? then d else if !e.Compiled? then e
      else Compiled([] + a.clauses + b.clauses + c.clauses + d.clauses + e.clauses)
  {
    if a.Compiled? && b.Compiled? && c.Compiled? && d.Compiled? && e.Compiled? {
      assert a.clauses + (b.clauses + (c.clauses + (d.clauses + e.clauses)))
          == [] + a.clauses + b.clauses + c.clauses + d.clauses + e.clauses;
    }
  }

  /** The compiled form of each conjunction. */
  ghost predicate AreScopes(scopes: seq<SqlScope>, css: seq<seq<Clause>>)
  {
    |scopes| == |css| && forall i :: 0 <= i < |css| ==> scopes[i] == ScopeOf(css[i])
  }

  method OrScopes(scopes: seq<SqlScope>, ghost css: seq<seq<Clause>>) returns (r: SqlScope)
    requires scopes != [] && AreScopes(scopes, css)
    ensures r == OrScope(css)
  {
    hide WhereOf, ArgsOf;
    if |scopes| == 1 {
      return scopes[0];
    }
    for i := 0 to |scopes|
      invariant forall k :: 0 <= k < i ==> css[k] != []
    {
      SentinelIsFaithful(css[i]);
      if scopes[i].where == "1=1" {
        assert css[i] in css;
        return SqlScope("1=1", []);
      }
    }
    assert [] !in css;
    var parts: seq<string>, args: seq<string> := [], [];
    for i := 0 to |scopes|
      invariant parts == Parenthesised(css[..i]) && args == AllArgs(css[..i])
    {
      assert css[..i + 1][..i] == css[..i];
      parts := parts + ["(" + scopes[i].where + ")"];
      args := args + scopes[i].args;
    }
    assert css[..|css|] == css;
    return SqlScope(Join(parts, " OR "), args);
  }

  method CompileScope(m: ResourceSqlMapping, allow: seq<string>, deny: seq<string>) returns (r: Result<SqlScope>)
    ensures r == CompileSpec(m, allow, deny)
    ensures r.Err? <==> Refused(m, allow, deny)
  {
    RefusedIff(m, allow, deny);
    hide Refused;
    hide Parse, PatternOutcome, WhereOf, OrScope;
    var allowScopes: seq<SqlScope> := [];
    ghost var css: seq<seq<Clause>> := [];
    for i := 0 to |allow|
      invariant AllowOutcome(m, allow[..i]) == Ok(css) && AreScopes(allowScopes, css)
    {
      assert allow[..i + 1][..i] == allow[..i];
      var pattern := ParseURNPattern(allow[i]);
      if pattern.Err? {
        AllowErrStays(m, allow, i);
        return Err;
      }
      var scope, ok, failed := CompilePattern(m, pattern.value);
      if failed {
        AllowErrStays(m, allow, i);
        return Err;
      }
      if ok {
        allowScopes := allowScopes + [scope];
        css := css + [PatternOutcome(m, pattern.value).clauses];
      } else {
        assert css + [] == css;
      }
    }
    assert allow[..|allow|] == allow;
    if |allowScopes| == 0 {
      return Ok(SqlScope("0=1", []));
    }
    var scope := OrScopes(allowScopes, css);
    ghost var os := Outcomes(m, deny);
    assert os[0..] == os;
    for i := 0 to |deny|
      invariant CompileSpec(m, allow, deny) == DenyFold(scope, os[i..])
    {
      assert os[i..][0] == RawOutcome(m, deny[i]) && os[i..][1..] == os[i + 1..];
      var pattern := ParseURNPattern(deny[i]);
      if pattern.Err? {
        return Err;
      }
      var denyScope, ok, failed := CompilePattern(m, pattern.value);
      if failed {
        return Err;
      }
      if ok {
        ghost var cs := PatternOutcome(m, pattern.value).clauses;
        SentinelIsFaithful(cs);
        if denyScope.where == "1=1" {
          return Ok(SqlScope("0=1", []));
        }
        scope := SqlScope("(" + scope.where + ") AND NOT (" + denyScope.where + ")", scope.args + denyScope.args);
      }
    }
    return Ok(scope);
  }

  lemma {:induction false} ErrStays(m: ResourceSqlMapping, allow: seq<string>, i: nat)
    requires i <= |allow| && AllowOutcome(m, allow[..i]).Err?
    ensures AllowOutcome(m, allow).Err?
    decreases |allow|
  {
    if i == |allow| {
      assert allow[..i] == allow;
    } else {
      assert allow[..|allow| - 1][..i] == allow[..i];
      ErrStays(m, allow[..|allow| - 1], i);
    }
  }

  /** One refused allow pattern refuses the list. */
  lemma AllowErrStays(m: ResourceSqlMapping, allow: seq<string>, i: nat)
    requires i < |allow| && RawOutcome(m, allow[i]).Rejected?
    ensures AllowOutcome(m, allow).Err?
  {
    assert allow[..i + 1][..i] == allow[..i];
    assert AllowOutcome(m, allow[..i + 1]).Err?;
    ErrStays(m, allow, i + 1);
  }
}
