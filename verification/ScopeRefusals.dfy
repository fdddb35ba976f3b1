/**
 When scope compilation refuses, said of the segments of patterns and mappings alone: no wildcard may
 stand where a remainder column reads, and every text must be a printed pattern.
 */
module ScopeRefusals {
  import opened Strings
  import opened Urn
  import opened Sql
  import opened ScopeSpec
  import opened ScopeText

  /** Position of the first remainder column; the length when there is none. */
  function FirstRemainder(mpath: seq<PathMap>): (k: nat)
    ensures k <= |mpath| && (k < |mpath| ==> mpath[k].RemainderColumn?)
    ensures forall i :: 0 <= i < k ==> !mpath[i].RemainderColumn?
  {
    if mpath == [] || mpath[0].RemainderColumn? then 0 else 1 + FirstRemainder(mpath[1..])
  }

  /** Up to the first remainder column every literal the pattern meets is its own value or `*`. */
  ghost predicate LiteralsPass(mpath: seq<PathMap>, pattern: seq<string>)
  {
    forall i :: 0 <= i < FirstRemainder(mpath) && i < FixedLength(pattern) && mpath[i].Literal? ==>
      pattern[i] == "*" || pattern[i] == mpath[i].value
  }

  /** A `*` stands at or after the remainder column on a path that reaches it. */
  ghost predicate PathRefused(mpath: seq<PathMap>, pattern: seq<string>)
  {
    && FirstRemainder(mpath) < |mpath| && LiteralsPass(mpath, pattern)
    && exists j :: FirstRemainder(mpath) <= j < |pattern| && pattern[j] == "*"
  }

  ghost predicate OnlyRemaindersFrom(mpath: seq<PathMap>, k: nat)
  {
    forall i :: k <= i < |mpath| ==> mpath[i].RemainderColumn?
  }

  /** The path can be in the table: it ends in `**` before the remainder, or has a segment for every element. */
  ghost predicate PathPossible(mpath: seq<PathMap>, pattern: seq<string>)
  {
    var k, f := FirstRemainder(mpath), FixedLength(pattern);
    && LiteralsPass(mpath, pattern)
    && ((f <= k && f < |pattern|) || (f >= k && OnlyRemaindersFrom(mpath, k) && (k == |mpath| ==> f == k)))
  }

  /** The path restricts nothing. */
  ghost predicate PathFree(mpath: seq<PathMap>, pattern: seq<string>)
  {
    var k, f := FirstRemainder(mpath), FixedLength(pattern);
    && LiteralsPass(mpath, pattern) && f <= k
    && (forall i :: 0 <= i < f && mpath[i].PathColumn? ==> pattern[i] == "*")
    && (f < |pattern| || (f == k && OnlyRemaindersFrom(mpath, k)))
  }

  // ----- The path compiler -----

  lemma JoinNonempty(parts: seq<string>)
    requires parts != [] && forall i :: 0 <= i < |parts| ==> parts[i] != ""
    ensures Join(parts, "/") != ""
  {
    if |parts| > 1 {
      assert Join(parts, "/") == parts[0] + "/" + Join(parts[1..], "/");
    }
  }

  lemma RemainderIs(col: string, pattern: seq<string>)
    requires PathPatternOk(pattern)
    ensures var o := RemainderOutcome(col, pattern);
      && (o.Rejected? <==> "*" in pattern)
      && !o.NoRow?
      && (o == Compiled([]) <==> pattern == [] || pattern == ["**"])
  {
    if pattern != [] && pattern != ["**"] && "*" !in pattern {
      var n := |pattern| - 1;
      assert forall i :: 0 <= i < |pattern| ==> ValidPathSegment(pattern[i], i, |pattern|);
      if pattern[n] == "**" {
        JoinNonempty(pattern[..n]);
      }
    }
  }

  ghost predicate HeadPasses(m: PathMap, segment: string)
  {
    m.Literal? ==> segment == "*" || segment == m.value
  }

  /** One element and one segment less: the questions about the rest are the same. */
  lemma TailLiterals(mpath: seq<PathMap>, pattern: seq<string>)
    requires mpath != [] && pattern != [] && pattern[0] != "**" && !mpath[0].RemainderColumn?
    ensures FirstRemainder(mpath) == 1 + FirstRemainder(mpath[1..]) && FixedLength(pattern) == 1 + FixedLength(pattern[1..])
    ensures LiteralsPass(mpath, pattern) <==> HeadPasses(mpath[0], pattern[0]) && LiteralsPass(mpath[1..], pattern[1..])
  {
    var m, p := mpath[1..], pattern[1..];
    assert forall i :: 0 <= i < |m| ==> m[i] == mpath[i + 1];
    assert forall i :: 0 <= i < |p| ==> p[i] == pattern[i + 1];
    if HeadPasses(mpath[0], pattern[0]) && LiteralsPass(m, p) {
      forall i | 0 <= i < FirstRemainder(mpath) && i < FixedLength(pattern) && mpath[i].Literal?
        ensures pattern[i] == "*" || pattern[i] == mpath[i].value
      {
        if i > 0 { assert m[i - 1] == mpath[i] && p[i - 1] == pattern[i]; }
      }
    }
    if LiteralsPass(mpath, pattern) {
      forall i | 0 <= i < FirstRemainder(m) && i < FixedLength(p) && m[i].Literal? ensures p[i] == "*" || p[i] == m[i].value {
        assert mpath[i + 1].Literal?;
      }
    }
  }

  lemma TailRefused(mpath: seq<PathMap>, pattern: seq<string>)
    requires mpath != [] && pattern != [] && pattern[0] != "**" && !mpath[0].RemainderColumn?
    ensures PathRefused(mpath, pattern) <==> HeadPasses(mpath[0], pattern[0]) && PathRefused(mpath[1..], pattern[1..])
  {
    hide LiteralsPass, HeadPasses;
    TailLiterals(mpath, pattern);
    var k, p := FirstRemainder(mpath), pattern[1..];
    if j :| k <= j < |pattern| && pattern[j] == "*" {
      assert p[j - 1] == "*";
    }
    if j :| k - 1 <= j < |p| && p[j] == "*" {
      assert pattern[j + 1] == "*";
    }
  }

  lemma TailRemainders(mpath: seq<PathMap>, k: nat)
    requires 0 < k <= |mpath|
    ensures OnlyRemaindersFrom(mpath, k) <==> OnlyRemaindersFrom(mpath[1..], k - 1)
  {
    assert forall i :: k <= i < |mpath| ==> mpath[i] == mpath[1..][i - 1];
    if OnlyRemaindersFrom(mpath, k) {
      forall i | k - 1 <= i < |mpath[1..]| ensures mpath[1..][i].RemainderColumn? { assert mpath[i + 1].RemainderColumn?; }
    }
  }

  lemma TailPossible(mpath: seq<PathMap>, pattern: seq<string>)
    requires mpath != [] && pattern != [] && pattern[0] != "**" && !mpath[0].RemainderColumn?
    ensures PathPossible(mpath, pattern) <==> HeadPasses(mpath[0], pattern[0]) && PathPossible(mpath[1..], pattern[1..])
  {
    hide LiteralsPass, HeadPasses, OnlyRemaindersFrom;
    TailLiterals(mpath, pattern);
    TailRemainders(mpath, FirstRemainder(mpath));
  }

  lemma TailFree(mpath: seq<PathMap>, pattern: seq<string>)
    requires mpath != [] && pattern != [] && pattern[0] != "**" && !mpath[0].RemainderColumn?
    ensures PathFree(mpath, pattern) <==>
      HeadPasses(mpath[0], pattern[0]) && (mpath[0].PathColumn? ==> pattern[0] == "*") && PathFree(mpath[1..], pattern[1..])
  {
    hide LiteralsPass, HeadPasses, OnlyRemaindersFrom;
    TailLiterals(mpath, pattern);
    TailRemainders(mpath, FirstRemainder(mpath));
    var m, p := mpath[1..], pattern[1..];
    if PathFree(mpath, pattern) {
      forall i | 0 <= i < FixedLength(p) && m[i].PathColumn? ensures p[i] == "*" {
        assert mpath[i + 1].PathColumn? && pattern[i + 1] == p[i];
      }
    }
    if (mpath[0].PathColumn? ==> pattern[0] == "*") && PathFree(m, p) {
      forall i | 0 <= i < FixedLength(pattern) && mpath[i].PathColumn? ensures pattern[i] == "*" {
        if i > 0 { assert m[i - 1].PathColumn? && p[i - 1] == pattern[i]; }
      }
    }
  }

  /** The three outcomes of a path, read off its segments. */
  lemma {:induction false} PathOutcomeIs(mpath: seq<PathMap>, pattern: seq<string>)
    requires PathPatternOk(pattern)
    ensures var o := PathOutcome(mpath, pattern);
      && (o.Rejected? <==> PathRefused(mpath, pattern))
      && (o.Compiled? <==> !PathRefused(mpath, pattern) && PathPossible(mpath, pattern))
      && (o == Compiled([]) <==> PathFree(mpath, pattern))
    decreases |mpath|
  {
    if mpath == [] {
      EmptyMapping(pattern);
    } else if pattern != [] && pattern[0] == "**" {
      assert ValidPathSegment(pattern[0], 0, |pattern|);
    } else if mpath[0].RemainderColumn? {
      RemainderHead(mpath, pattern);
    } else if pattern != [] {
      PathPatternTail(pattern);
      PathOutcomeIs(mpath[1..], pattern[1..]);
      TailRefused(mpath, pattern);
      TailPossible(mpath, pattern);
      TailFree(mpath, pattern);
      hide PathRefused, PathPossible, PathFree, PathPatternOk;
    }
  }

  lemma EmptyMapping(pattern: seq<string>)
    requires PathPatternOk(pattern)
    ensures var o := PathOutcome([], pattern);
      !PathRefused([], pattern) && (o.Compiled? <==> PathPossible([], pattern)) && (o == Compiled([]) <==> PathFree([], pattern))
      && !o.Rejected?
  {
    if pattern != [] {
      assert ValidPathSegment(pattern[0], 0, |pattern|);
      assert pattern == ["**"] <==> |pattern| == 1 && pattern[0] == "**";
    }
  }

  lemma RemainderHead(mpath: seq<PathMap>, pattern: seq<string>)
    requires PathPatternOk(pattern) && mpath != [] && mpath[0].RemainderColumn? && (pattern != [] ==> pattern[0] != "**")
    ensures var o := PathOutcome(mpath, pattern);
      && (o.Rejected? <==> PathRefused(mpath, pattern))
      && (o.Compiled? <==> !PathRefused(mpath, pattern) && PathPossible(mpath, pattern))
      && (o == Compiled([]) <==> PathFree(mpath, pattern))
  {
    RemainderIs(mpath[0].name, pattern);
    RestOutcome(mpath[1..]);
    assert forall i :: 1 <= i < |mpath| ==> mpath[i] == mpath[1..][i - 1];
    assert (forall i :: 0 <= i < |mpath[1..]| ==> mpath[1..][i].RemainderColumn?) <==> OnlyRemaindersFrom(mpath, 0) by {
      TailRemainders(mpath, 1);
    }
    if "*" in pattern {
      var j :| 0 <= j < |pattern| && pattern[j] == "*";
    }
    var first := RemainderOutcome(mpath[0].name, pattern);
    if first.Compiled? { assert first.clauses + [] == first.clauses; }
  }

  // ----- Whole patterns -----

  ghost predicate SegmentPasses(m: SegmentMap, pattern: string)
  {
    pattern == "*" || m.ColumnSegment? || m.value == pattern
  }

  ghost predicate SegmentsPass(m: ResourceSqlMapping, p: UrnPattern)
  {
    && SegmentPasses(m.partition, p.partition) && SegmentPasses(m.service, p.service)
    && SegmentPasses(m.region, p.region) && SegmentPasses(m.tenant, p.tenant)
  }

  ghost predicate SegmentFree(m: SegmentMap, pattern: string)
  {
    pattern == "*" || (m.ConstantSegment? && m.value == pattern)
  }

  ghost predicate Refuses(m: ResourceSqlMapping, p: UrnPattern)
  {
    SegmentsPass(m, p) && PathRefused(m.path, p.path)
  }

  ghost predicate Reaches(m: ResourceSqlMapping, p: UrnPattern)
  {
    SegmentsPass(m, p) && PathPossible(m.path, p.path)
  }

  /** The pattern restricts nothing the mapping holds. */
  ghost predicate Unrestricted(m: ResourceSqlMapping, p: UrnPattern)
  {
    && SegmentFree(m.partition, p.partition) && SegmentFree(m.service, p.service)
    && SegmentFree(m.region, p.region) && SegmentFree(m.tenant, p.tenant)
    && PathFree(m.path, p.path)
  }

  lemma SegmentIs(m: SegmentMap, pattern: string)
    ensures var o := SegmentOutcome(m, pattern);
      !o.Rejected? && (o.Compiled? <==> SegmentPasses(m, pattern)) && (o == Compiled([]) <==> SegmentFree(m, pattern))
  {
  }

  lemma ThenIs(a: Outcome, b: Outcome)
    ensures var o := Then(a, b);
      && (o.Rejected? <==> a.Rejected? || (a.Compiled? && b.Rejected?))
      && (o.Compiled? <==> a.Compiled? && b.Compiled?)
      && (o == Compiled([]) <==> a == Compiled([]) && b == Compiled([]))
  {
    if a.Compiled? && b.Compiled? {
      assert a.clauses + b.clauses == [] <==> a.clauses == [] && b.clauses == [];
    }
  }

  lemma PatternOutcomeIs(m: ResourceSqlMapping, p: UrnPattern)
    requires WellFormed(p)
    ensures var o := PatternOutcome(m, p);
      && (o.Rejected? <==> Refuses(m, p))
      && (o.Compiled? <==> !Refuses(m, p) && Reaches(m, p))
      && (o == Compiled([]) <==> Unrestricted(m, p))
  {
    assert PathPatternOk(p.path);
    hide PathRefused, PathPossible, PathFree, SegmentPasses, SegmentFree, SegmentOutcome, PathOutcome, Then, WellFormed, PathPatternOk;
    var path := PathOutcome(m.path, p.path);
    var tenant := Then(SegmentOutcome(m.tenant, p.tenant), path);
    var region := Then(SegmentOutcome(m.region, p.region), tenant);
    var service := Then(SegmentOutcome(m.service, p.service), region);
    PathOutcomeIs(m.path, p.path);
    SegmentIs(m.partition, p.partition);
    SegmentIs(m.service, p.service);
    SegmentIs(m.region, p.region);
    SegmentIs(m.tenant, p.tenant);
    ThenIs(SegmentOutcome(m.tenant, p.tenant), path);
    ThenIs(SegmentOutcome(m.region, p.region), tenant);
    ThenIs(SegmentOutcome(m.service, p.service), region);
    ThenIs(SegmentOutcome(m.partition, p.partition), service);
  }

  // ----- Lists of texts -----

  ghost predicate Written(raw: string, p: UrnPattern) { WellFormed(p) && Print(p) == raw }

  ghost predicate Unwritten(raw: string) { forall p :: !Written(raw, p) }

  /** The text is no printed pattern, or its pattern puts a wildcard where a remainder column reads. */
  ghost predicate TextRefused(m: ResourceSqlMapping, raw: string)
  {
    Unwritten(raw) || exists p :: Written(raw, p) && Refuses(m, p)
  }

  ghost predicate TextReaches(m: ResourceSqlMapping, raw: string)
  {
    exists p :: Written(raw, p) && Reaches(m, p) && !Refuses(m, p)
  }

  ghost predicate TextUnrestricted(m: ResourceSqlMapping, raw: string)
  {
    exists p :: Written(raw, p) && Unrestricted(m, p)
  }

  lemma RawOutcomeIs(m: ResourceSqlMapping, raw: string)
    ensures var o := RawOutcome(m, raw);
      && (o.Rejected? <==> TextRefused(m, raw))
      && (o.Compiled? <==> TextReaches(m, raw))
      && (o == Compiled([]) <==> TextUnrestricted(m, raw))
  {
    hide Parse, Print, WellFormed, Refuses, Reaches, Unrestricted, PatternOutcome;
    forall p ensures Parse(raw) == Ok(p) <==> Written(raw, p) {
      ParsePrint(raw, p);
    }
    if Parse(raw).Ok? {
      var p := Parse(raw).value;
      PatternOutcomeIs(m, p);
      assert Written(raw, p);
    }
  }

  /**
   Why a compilation is refused: some allow text is, or some allow text can select rows and a deny
   text is, with no deny text before it that already denies everything.
   */
  ghost predicate Refused(m: ResourceSqlMapping, allow: seq<string>, deny: seq<string>)
  {
    || (exists i :: 0 <= i < |allow| && TextRefused(m, allow[i]))
    || ((exists i :: 0 <= i < |allow| && TextReaches(m, allow[i]))
        && exists j :: 0 <= j < |deny| && TextRefused(m, deny[j]) && forall i :: 0 <= i < j ==> !TextUnrestricted(m, deny[i]))
  }

  lemma {:induction false} AllowIs(m: ResourceSqlMapping, allow: seq<string>)
    ensures AllowOutcome(m, allow).Err? <==> exists i :: 0 <= i < |allow| && TextRefused(m, allow[i])
    ensures AllowOutcome(m, allow).Ok? ==>
      (AllowOutcome(m, allow).value != [] <==> exists i :: 0 <= i < |allow| && TextReaches(m, allow[i]))
  {
    hide TextRefused, TextReaches, TextUnrestricted, RawOutcome;
    if allow != [] {
      var before, last := allow[..|allow| - 1], allow[|allow| - 1];
      AllowIs(m, before);
      RawOutcomeIs(m, last);
      assert forall i :: 0 <= i < |before| ==> before[i] == allow[i];
    }
  }

  lemma {:induction false} DenyIs(scope: SqlScope, os: seq<Outcome>)
    ensures DenyFold(scope, os).Err? <==>
      exists j :: 0 <= j < |os| && os[j].Rejected? && forall i :: 0 <= i < j ==> os[i] != Compiled([])
    decreases |os|
  {
    if os != [] && !os[0].Rejected? && os[0] != Compiled([]) {
      var rest := os[1..];
      var next := if os[0].NoRow? then scope else AndNot(scope, os[0].clauses);
      DenyIs(next, rest);
      if j :| 0 <= j < |rest| && rest[j].Rejected? && forall i :: 0 <= i < j ==> rest[i] != Compiled([]) {
        assert os[j + 1].Rejected?;
        forall i | 0 <= i < j + 1 ensures os[i] != Compiled([]) {
          if i > 0 { assert os[i] == rest[i - 1]; }
        }
      }
      if j :| 0 <= j < |os| && os[j].Rejected? && forall i :: 0 <= i < j ==> os[i] != Compiled([]) {
        assert rest[j - 1] == os[j];
        forall i | 0 <= i < j - 1 ensures rest[i] != Compiled([]) { assert rest[i] == os[i + 1]; }
      }
    }
  }

  /** Compilation fails for these reasons and no others. */
  lemma RefusedIff(m: ResourceSqlMapping, allow: seq<string>, deny: seq<string>)
    ensures CompileSpec(m, allow, deny).Err? <==> Refused(m, allow, deny)
  {
    hide TextRefused, TextReaches, TextUnrestricted, RawOutcome, AllowOutcome, DenyFold;
    AllowIs(m, allow);
    var css := AllowOutcome(m, allow);
    if css.Ok? && css.value != [] {
      var os := Outcomes(m, deny);
      DenyIs(OrScope(css.value), os);
      forall i | 0 <= i < |deny| ensures (os[i].Rejected? <==> TextRefused(m, deny[i])) && (os[i] == Compiled([]) <==> TextUnrestricted(m, deny[i])) {
        RawOutcomeIs(m, deny[i]);
      }
    }
  }

  // ----- What an accepted compilation decides -----

  /** Some text of the list is a printed pattern that matches the resource. */
  ghost predicate SomeMatches(raws: seq<string>, urn: ResourceUrn)
  {
    exists i, p :: 0 <= i < |raws| && Written(raws[i], p) && Matches(p, urn)
  }

  /** The compiled text selects a row exactly when an allow pattern matches its resource and no deny pattern does. */
  lemma ScopeDecides(m: ResourceSqlMapping, allow: seq<string>, deny: seq<string>, row: Row, d: Dialect)
    requires GoodMapping(m) && FaithfulList(m, allow, d) && FaithfulList(m, deny, d)
    ensures !Refused(m, allow, deny) ==>
      && CompileSpec(m, allow, deny).Ok?
      && (Selects(CompileSpec(m, allow, deny).value, row, d) <==>
            SomeMatches(allow, RowUrn(m, row)) && !SomeMatches(deny, RowUrn(m, row)))
  {
    hide Refused, CompileSpec, Selects, Written;
    RefusedIff(m, allow, deny);
    ScopeMeansPolicy(m, allow, deny, row, d);
    AnyIsSome(allow, RowUrn(m, row));
    AnyIsSome(deny, RowUrn(m, row));
  }

  lemma AnyIsSome(raws: seq<string>, urn: ResourceUrn)
    ensures AnyMatch(raws, urn) <==> SomeMatches(raws, urn)
  {
    hide Parse, Print, WellFormed, Matches;
    if AnyMatch(raws, urn) {
      var i :| 0 <= i < |raws| && RawMatches(raws[i], urn);
      ParsePrint(raws[i], Parse(raws[i]).value);
      assert Written(raws[i], Parse(raws[i]).value);
    }
    if SomeMatches(raws, urn) {
      var i, p :| 0 <= i < |raws| && Written(raws[i], p) && Matches(p, urn);
      ParsePrint(raws[i], p);
      assert RawMatches(raws[i], urn);
    }
  }
}
