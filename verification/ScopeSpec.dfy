/**
 What a table mapping and a list of URN patterns compile to, clause by clause, and which rows the
 clauses select.  Both adapters are proved against this specification.
 */
module ScopeSpec {
  import opened Strings
  import opened Urn
  import opened Sql

  datatype SegmentMap = ConstantSegment(value: string) | ColumnSegment(name: string)

  datatype PathMap = Literal(value: string) | PathColumn(name: string) | RemainderColumn(name: string)

  datatype ResourceSqlMapping = ResourceSqlMapping(
    partition: SegmentMap, service: SegmentMap, region: SegmentMap, tenant: SegmentMap, path: seq<PathMap>)

  /** `col = ?`, or `(col = ? OR col LIKE ?)` for a prefix of a remainder column. */
  datatype Clause = Equals(col: string, arg: string) | Under(col: string, prefix: string)

  /** A pattern is refused, selects no row of the table, or becomes a conjunction. */
  datatype Outcome = Rejected | NoRow | Compiled(clauses: seq<Clause>)

  function Then(a: Outcome, b: Outcome): Outcome
  {
    if a.Compiled? && b.Compiled? then Compiled(a.clauses + b.clauses)
    else if a.Compiled? then b else a
  }

  function SegmentOutcome(m: SegmentMap, pattern: string): Outcome
  {
    if pattern == "*" then Compiled([])
    else match m
      case ConstantSegment(v) => if v == pattern then Compiled([]) else NoRow
      case ColumnSegment(c) => Compiled([Equals(c, pattern)])
  }

  function RemainderOutcome(col: string, remaining: seq<string>): Outcome
  {
    if remaining == [] || remaining == ["**"] then Compiled([])
    else if "*" in remaining then Rejected
    else if remaining[|remaining| - 1] == "**" then
      var prefix := Join(remaining[..|remaining| - 1], "/");
      Compiled(if prefix != "" then [Under(col, prefix)] else [])
    else Compiled([Equals(col, Join(remaining, "/"))])
  }

  function PathOutcome(mpath: seq<PathMap>, pattern: seq<string>): Outcome
  {
    if mpath == [] then
      if pattern == [] || pattern == ["**"] then Compiled([]) else NoRow
    else if pattern != [] && pattern[0] == "**" then Compiled([])
    else match mpath[0]
      case Literal(v) =>
        if pattern == [] || (pattern[0] != "*" && pattern[0] != v) then NoRow
        else PathOutcome(mpath[1..], pattern[1..])
      case PathColumn(c) =>
        if pattern == [] then NoRow
        else Then(Compiled(if pattern[0] == "*" then [] else [Equals(c, pattern[0])]), PathOutcome(mpath[1..], pattern[1..]))
      case RemainderColumn(c) =>
        Then(RemainderOutcome(c, pattern), PathOutcome(mpath[1..], []))
  }

  function PatternOutcome(m: ResourceSqlMapping, p: UrnPattern): Outcome
  {
    Then(SegmentOutcome(m.partition, p.partition),
      Then(SegmentOutcome(m.service, p.service),
        Then(SegmentOutcome(m.region, p.region),
          Then(SegmentOutcome(m.tenant, p.tenant), PathOutcome(m.path, p.path)))))
  }

  // ----- Rows and the resources they stand for -----

  function SegmentValue(m: SegmentMap, row: Row): string
  {
    match m
    case ConstantSegment(v) => v
    case ColumnSegment(c) => row(c)
  }

  function RowPath(mpath: seq<PathMap>, row: Row): seq<string>
  {
    if mpath == [] then []
    else
      (match mpath[0]
       case Literal(v) => [v]
       case PathColumn(c) => [row(c)]
       case RemainderColumn(c) => Split(row(c), '/'))
      + RowPath(mpath[1..], row)
  }

  /** The resource one row of the table represents. */
  function RowUrn(m: ResourceSqlMapping, row: Row): ResourceUrn
  {
    ResourceUrn(SegmentValue(m.partition, row), SegmentValue(m.service, row), SegmentValue(m.region, row),
                SegmentValue(m.tenant, row), RowPath(m.path, row))
  }

  /** The text one element of the mapping contributes to a row's path. */
  function ElementText(m: PathMap, row: Row): string
  {
    if m.Literal? then m.value else row(m.name)
  }

  function ElementTexts(mpath: seq<PathMap>, row: Row): (r: seq<string>)
    ensures |r| == |mpath| && forall i :: 0 <= i < |mpath| ==> r[i] == ElementText(mpath[i], row)
  {
    if mpath == [] then [] else [ElementText(mpath[0], row)] + ElementTexts(mpath[1..], row)
  }

  /** Every part of a row's URN is the constant or the column the mapping names for that part; the path joins its elements' texts. */
  lemma RowIs(m: ResourceSqlMapping, row: Row)
    requires m.path != []
    ensures var urn := RowUrn(m, row);
      && urn.partition == (if m.partition.ColumnSegment? then row(m.partition.name) else m.partition.value)
      && urn.service == (if m.service.ColumnSegment? then row(m.service.name) else m.service.value)
      && urn.region == (if m.region.ColumnSegment? then row(m.region.name) else m.region.value)
      && urn.tenant == (if m.tenant.ColumnSegment? then row(m.tenant.name) else m.tenant.value)
      && Join(urn.path, "/") == Join(ElementTexts(m.path, row), "/")
  {
    PathIs(m.path, row);
    hide RowPath, ElementTexts, Join;
  }

  lemma {:induction false} PathIs(mpath: seq<PathMap>, row: Row)
    requires mpath != []
    ensures RowPath(mpath, row) != []
    ensures Join(RowPath(mpath, row), "/") == Join(ElementTexts(mpath, row), "/")
  {
    var texts := ElementTexts(mpath, row);
    var head := if mpath[0].RemainderColumn? then Split(row(mpath[0].name), '/') else [ElementText(mpath[0], row)];
    assert Join(head, "/") == texts[0] by {
      if mpath[0].RemainderColumn? { JoinSplit(row(mpath[0].name), '/'); }
    }
    assert RowPath(mpath, row) == head + RowPath(mpath[1..], row);
    if |mpath| > 1 {
      PathIs(mpath[1..], row);
      var rest := ElementTexts(mpath[1..], row);
      assert texts[1..] == rest;
      hide Join, Split, RowPath;
      JoinConcat(head, RowPath(mpath[1..], row), "/");
      JoinConcat([texts[0]], rest, "/");
      assert texts == [texts[0]] + rest;
      JoinOne(texts[0]);
    } else {
      assert RowPath(mpath[1..], row) == [] && head + [] == head && texts == [texts[0]];
    }
  }

  lemma JoinOne(s: string)
    ensures Join([s], "/") == s
  {
  }

  predicate ClauseHolds(c: Clause, row: Row, d: Dialect)
  {
    match c
    case Equals(col, arg) => row(col) == arg
    case Under(col, prefix) => row(col) == prefix || LikeMatches(row(col), prefix + "/%", d)
  }

  predicate AllHold(cs: seq<Clause>, row: Row, d: Dialect)
  {
    forall i :: 0 <= i < |cs| ==> ClauseHolds(cs[i], row, d)
  }

  lemma AllHoldOne(c: Clause, row: Row, d: Dialect)
    ensures AllHold([c], row, d) <==> ClauseHolds(c, row, d)
  {
    assert [c][0] == c;
  }

  lemma AllHoldConcat(a: seq<Clause>, b: seq<Clause>, row: Row, d: Dialect)
    ensures AllHold(a + b, row, d) <==> AllHold(a, row, d) && AllHold(b, row, d)
  {
    if AllHold(a + b, row, d) {
      forall i | 0 <= i < |a| ensures ClauseHolds(a[i], row, d) { assert (a + b)[i] == a[i]; }
      forall i | 0 <= i < |b| ensures ClauseHolds(b[i], row, d) { assert (a + b)[|a| + i] == b[i]; }
    }
  }

  /** A remainder column can only be the last element of a mapping. */
  predicate RemainderLast(mpath: seq<PathMap>)
  {
    forall i :: 0 <= i < |mpath| - 1 ==> !mpath[i].RemainderColumn?
  }

  /** Path patterns as the parser produces them, and their suffixes. */
  ghost predicate PathPatternOk(pattern: seq<string>)
  {
    && (forall i :: 0 <= i < |pattern| ==> ValidPathSegment(pattern[i], i, |pattern|))
    && Free(pattern, '/')
  }

  lemma PathPatternTail(pattern: seq<string>)
    requires PathPatternOk(pattern) && pattern != []
    ensures PathPatternOk(pattern[1..])
  {
    forall i | 0 <= i < |pattern| - 1 ensures ValidPathSegment(pattern[1..][i], i, |pattern| - 1) {
      assert ValidPathSegment(pattern[i + 1], i + 1, |pattern|);
    }
  }

  /**
   Where the compiled condition can be relied on: the pattern does not stop exactly where the
   remainder column starts, and a prefix handed to LIKE holds no metacharacter.
   */
  predicate FaithfulPath(mpath: seq<PathMap>, pattern: seq<string>, d: Dialect)
  {
    if mpath == [] || (pattern != [] && pattern[0] == "**") then true
    else if mpath[0].RemainderColumn? then
      && pattern != []
      && (pattern[|pattern| - 1] == "**" ==> Plain(Join(pattern[..|pattern| - 1], "/"), d))
    else pattern == [] || FaithfulPath(mpath[1..], pattern[1..], d)
  }

  predicate Faithful(m: ResourceSqlMapping, p: UrnPattern, d: Dialect)
  {
    FaithfulPath(m.path, p.path, d)
  }

  // ----- Remainder columns -----

  /** A text lies at or under a joined prefix exactly when its segments start with that prefix. */
  lemma SplitPrefix(t: string, pre: seq<string>)
    requires |pre| >= 1 && Free(pre, '/')
    ensures pre <= Split(t, '/') <==> t == Join(pre, "/") || Join(pre, "/") + "/" <= t
  {
    hide Split, Join;
    var p := Join(pre, "/");
    SplitJoin(pre, '/');
    JoinSplit(t, '/');
    if pre <= Split(t, '/') {
      var rest := Split(t, '/')[|pre|..];
      assert Split(t, '/') == pre + rest;
      if rest == [] {
        assert pre + rest == pre;
      } else {
        JoinConcat(pre, rest, "/");
      }
    }
    if p + "/" <= t {
      var r := t[|p| + 1..];
      assert t == p + "/" + r;
      SplitConcat(p, r, '/');
    }
  }

  /** Without wildcards a pattern covers only itself. */
  lemma {:induction false} LiteralPath(pattern: seq<string>, path: seq<string>)
    requires "*" !in pattern && "**" !in pattern
    ensures PathMatches(pattern, path) <==> pattern == path
  {
    if pattern != [] && path != [] {
      LiteralPath(pattern[1..], path[1..]);
      assert pattern == [pattern[0]] + pattern[1..] && path == [path[0]] + path[1..];
    }
  }

  lemma {:induction false} PrefixPath(pre: seq<string>, path: seq<string>)
    requires "*" !in pre && "**" !in pre
    ensures PathMatches(pre + ["**"], path) <==> pre <= path
  {
    if pre == [] {
      assert pre + ["**"] == ["**"];
    } else if path != [] {
      assert (pre + ["**"])[1..] == pre[1..] + ["**"];
      PrefixPath(pre[1..], path[1..]);
      assert pre == [pre[0]] + pre[1..] && path == [path[0]] + path[1..];
      assert pre <= path <==> pre[0] == path[0] && pre[1..] <= path[1..];
    }
  }

  lemma JoinedPrefix(pre: seq<string>)
    requires |pre| >= 1 && Free(pre, '/') && (forall i :: 0 <= i < |pre| ==> pre[i] != "")
    ensures var p := Join(pre, "/"); p != "" && p[|p| - 1] != '/'
  {
    hide Join;
    var p := Join(pre, "/");
    var last := pre[|pre| - 1];
    JoinSnoc(pre[..|pre| - 1], last, "/");
    assert pre == pre[..|pre| - 1] + [last];
    assert p[|p| - 1] == last[|last| - 1];
  }

  lemma RemainderMeaning(col: string, pattern: seq<string>, row: Row, d: Dialect)
    requires pattern != [] && PathPatternOk(pattern) && RemainderOutcome(col, pattern).Compiled?
    requires FaithfulPath([RemainderColumn(col)], pattern, d)
    ensures AllHold(RemainderOutcome(col, pattern).clauses, row, d) <==> PathMatches(pattern, Split(row(col), '/'))
  {
    var t := row(col);
    if pattern != ["**"] {
      var last := pattern[|pattern| - 1];
      var pre := pattern[..|pattern| - 1];
      assert pattern == pre + [last];
      assert forall i :: 0 <= i < |pre| ==> pre[i] == pattern[i];
      assert "**" !in pre;
      if last == "**" {
        var p := Join(pre, "/");
        JoinedPrefix(pre);
        PrefixPath(pre, Split(t, '/'));
        SplitPrefix(t, pre);
        UnderIffPlain(p, d);
        assert Plain(p, d);
        assert ExactAt(t, p, d);
        AllHoldOne(Under(col, p), row, d);
        assert RemainderOutcome(col, pattern) == Compiled([Under(col, p)]);
      } else {
        LiteralPath(pattern, Split(t, '/'));
        SplitJoin(pattern, '/');
        JoinSplit(t, '/');
        AllHoldOne(Equals(col, Join(pattern, "/")), row, d);
      }
    }
  }

  // ----- Whole paths and patterns -----

  /** A successful compilation selects exactly the rows whose path the pattern covers; "no row" means no row. */
  lemma {:induction false} PathMeaning(mpath: seq<PathMap>, pattern: seq<string>, row: Row, d: Dialect)
    requires RemainderLast(mpath) && PathPatternOk(pattern)
    ensures var o := PathOutcome(mpath, pattern);
      && (o.Compiled? && FaithfulPath(mpath, pattern, d) ==>
            (AllHold(o.clauses, row, d) <==> PathMatches(pattern, RowPath(mpath, row))))
      && (o.NoRow? ==> !PathMatches(pattern, RowPath(mpath, row)))
  {
    var o := PathOutcome(mpath, pattern);
    if mpath != [] && !(pattern != [] && pattern[0] == "**") {
      var path := RowPath(mpath, row);
      if mpath[0].RemainderColumn? {
        assert mpath == [mpath[0]];
        assert path == Split(row(mpath[0].name), '/') + [] == Split(row(mpath[0].name), '/');
        assert PathOutcome(mpath[1..], []) == Compiled([]);
        if o.Compiled? && FaithfulPath(mpath, pattern, d) {
          RemainderMeaning(mpath[0].name, pattern, row, d);
          AllHoldConcat(RemainderOutcome(mpath[0].name, pattern).clauses, [], row, d);
        }
      } else if pattern != [] {
        PathPatternTail(pattern);
        assert RemainderLast(mpath[1..]) by {
          assert forall i :: 0 <= i < |mpath| - 1 ==> mpath[1..][i] == mpath[i + 1];
        }
        PathMeaning(mpath[1..], pattern[1..], row, d);
        assert path[1..] == RowPath(mpath[1..], row);
        if o.Compiled? {
          var rest := PathOutcome(mpath[1..], pattern[1..]).clauses;
          if mpath[0].PathColumn? {
            AllHoldConcat(if pattern[0] == "*" then [] else [Equals(mpath[0].name, pattern[0])], rest, row, d);
          }
        }
      }
    }
  }

  lemma SegmentMeaning(m: SegmentMap, pattern: string, row: Row, d: Dialect)
    ensures var o := SegmentOutcome(m, pattern);
      && !o.Rejected?
      && (o.Compiled? ==> (AllHold(o.clauses, row, d) <==> SegmentMatches(pattern, SegmentValue(m, row))))
      && (o.NoRow? ==> !SegmentMatches(pattern, SegmentValue(m, row)))
  {
    if m.ColumnSegment? {
      AllHoldOne(Equals(m.name, pattern), row, d);
    }
  }

  lemma ThenHolds(a: Outcome, b: Outcome, row: Row, d: Dialect)
    requires Then(a, b).Compiled?
    ensures a.Compiled? && b.Compiled?
    ensures AllHold(Then(a, b).clauses, row, d) <==> AllHold(a.clauses, row, d) && AllHold(b.clauses, row, d)
  {
    AllHoldConcat(a.clauses, b.clauses, row, d);
  }

  lemma PatternMeaning(m: ResourceSqlMapping, p: UrnPattern, row: Row, d: Dialect)
    requires RemainderLast(m.path) && WellFormed(p)
    ensures var o := PatternOutcome(m, p);
      && (o.Compiled? && Faithful(m, p, d) ==> (AllHold(o.clauses, row, d) <==> Matches(p, RowUrn(m, row))))
      && (o.NoRow? ==> !Matches(p, RowUrn(m, row)))
  {
    var path := PathOutcome(m.path, p.path);
    var tenant := Then(SegmentOutcome(m.tenant, p.tenant), path);
    var region := Then(SegmentOutcome(m.region, p.region), tenant);
    var service := Then(SegmentOutcome(m.service, p.service), region);
    SegmentMeaning(m.partition, p.partition, row, d);
    SegmentMeaning(m.service, p.service, row, d);
    SegmentMeaning(m.region, p.region, row, d);
    SegmentMeaning(m.tenant, p.tenant, row, d);
    PathMeaning(m.path, p.path, row, d);
    if PatternOutcome(m, p).Compiled? {
      ThenHolds(SegmentOutcome(m.partition, p.partition), service, row, d);
      ThenHolds(SegmentOutcome(m.service, p.service), region, row, d);
      ThenHolds(SegmentOutcome(m.region, p.region), tenant, row, d);
      ThenHolds(SegmentOutcome(m.tenant, p.tenant), path, row, d);
    }
  }

  // ----- Exactly when the condition is faithful -----

  function SegmentColumns(m: SegmentMap): seq<string>
  {
    if m.ColumnSegment? then [m.name] else []
  }

  function PathColumns(mpath: seq<PathMap>): seq<string>
  {
    if mpath == [] then []
    else (if mpath[0].Literal? then [] else [mpath[0].name]) + PathColumns(mpath[1..])
  }

  function Columns(m: ResourceSqlMapping): seq<string>
  {
    SegmentColumns(m.partition) + SegmentColumns(m.service) + SegmentColumns(m.region) + SegmentColumns(m.tenant)
    + PathColumns(m.path)
  }

  ghost predicate Distinct(s: seq<string>)
  {
    forall i, j :: 0 <= i < j < |s| ==> s[i] != s[j]
  }

  function ClauseColumns(cs: seq<Clause>): (r: seq<string>)
    ensures |r| == |cs| && forall i :: 0 <= i < |cs| ==> r[i] == cs[i].col
  {
    if cs == [] then [] else [cs[0].col] + ClauseColumns(cs[1..])
  }

  /** `xs` is what remains of `ys` after deleting elements. */
  ghost predicate Subsequence(xs: seq<string>, ys: seq<string>)
  {
    (forall x :: x in xs ==> x in ys) && (Distinct(ys) ==> Distinct(xs))
  }

  lemma SubsequenceConcat(a: seq<string>, b: seq<string>, x: seq<string>, y: seq<string>)
    requires Subsequence(a, x) && Subsequence(b, y)
    ensures Subsequence(a + b, x + y)
  {
    if Distinct(x + y) {
      assert Distinct(x) by { assert forall i :: 0 <= i < |x| ==> (x + y)[i] == x[i]; }
      assert Distinct(y) by {
        forall i, j | 0 <= i < j < |y| ensures y[i] != y[j] { assert (x + y)[|x| + i] != (x + y)[|x| + j]; }
      }
      forall i, j | 0 <= i < j < |a + b| ensures (a + b)[i] != (a + b)[j] {
        if i < |a| <= j {
          assert a[i] in x && b[j - |a|] in y;
          var k :| 0 <= k < |x| && x[k] == a[i];
          var l :| 0 <= l < |y| && y[l] == b[j - |a|];
          assert (x + y)[k] != (x + y)[|x| + l];
        }
      }
    }
  }

  lemma {:induction false} PathClauseColumns(mpath: seq<PathMap>, pattern: seq<string>)
    ensures PathOutcome(mpath, pattern).Compiled? ==>
              Subsequence(ClauseColumns(PathOutcome(mpath, pattern).clauses), PathColumns(mpath))
  {
    if mpath != [] && PathOutcome(mpath, pattern).Compiled? && !(pattern != [] && pattern[0] == "**") {
      var rest := if mpath[0].RemainderColumn? then [] else pattern[1..];
      PathClauseColumns(mpath[1..], rest);
      if !mpath[0].Literal? {
        var c := mpath[0].name;
        var head := if mpath[0].RemainderColumn? then RemainderOutcome(c, pattern).clauses
                    else if pattern[0] == "*" then [] else [Equals(c, pattern[0])];
        ConsColumns(head, c, PathOutcome(mpath[1..], rest).clauses, PathColumns(mpath[1..]));
      } else {
        assert PathColumns(mpath) == [] + PathColumns(mpath[1..]) == PathColumns(mpath[1..]);
      }
    }
  }

  lemma ConsColumns(head: seq<Clause>, c: string, tail: seq<Clause>, ys: seq<string>)
    requires |head| <= 1 && (head != [] ==> head[0].col == c) && Subsequence(ClauseColumns(tail), ys)
    ensures Subsequence(ClauseColumns(head + tail), [c] + ys)
  {
    assert Subsequence(ClauseColumns(head), [c]);
    SubsequenceConcat(ClauseColumns(head), ClauseColumns(tail), [c], ys);
    assert ClauseColumns(head + tail) == ClauseColumns(head) + ClauseColumns(tail);
  }

  lemma ThenColumns(m: SegmentMap, pattern: string, b: Outcome, ys: seq<string>)
    requires b.Compiled? ==> Subsequence(ClauseColumns(b.clauses), ys)
    ensures var o := Then(SegmentOutcome(m, pattern), b);
            o.Compiled? ==> Subsequence(ClauseColumns(o.clauses), SegmentColumns(m) + ys)
  {
    var a := SegmentOutcome(m, pattern);
    if Then(a, b).Compiled? {
      hide ClauseColumns, Subsequence;
      if m.ColumnSegment? {
        ConsColumns(a.clauses, m.name, b.clauses, ys);
      } else {
        assert [] + b.clauses == b.clauses && [] + ys == ys;
      }
    }
  }

  lemma PatternClauseColumns(m: ResourceSqlMapping, p: UrnPattern)
    ensures PatternOutcome(m, p).Compiled? ==> Subsequence(ClauseColumns(PatternOutcome(m, p).clauses), Columns(m))
  {
    hide PathOutcome, SegmentOutcome, Then, ClauseColumns, Subsequence;
    var path, ys := PathOutcome(m.path, p.path), PathColumns(m.path);
    PathClauseColumns(m.path, p.path);
    ThenColumns(m.tenant, p.tenant, path, ys);
    path, ys := Then(SegmentOutcome(m.tenant, p.tenant), path), SegmentColumns(m.tenant) + ys;
    ThenColumns(m.region, p.region, path, ys);
    path, ys := Then(SegmentOutcome(m.region, p.region), path), SegmentColumns(m.region) + ys;
    ThenColumns(m.service, p.service, path, ys);
    path, ys := Then(SegmentOutcome(m.service, p.service), path), SegmentColumns(m.service) + ys;
    ThenColumns(m.partition, p.partition, path, ys);
    assert SegmentColumns(m.partition) + ys == Columns(m);
  }

  /** The row that satisfies every equality clause and holds `t` everywhere else. */
  function RowFor(cs: seq<Clause>, t: string): Row
  {
    (c: string) => Assigned(cs, t, c)
  }

  function Assigned(cs: seq<Clause>, t: string, c: string): string
  {
    if cs == [] then t
    else if cs[0].Equals? && cs[0].col == c then cs[0].arg
    else Assigned(cs[1..], t, c)
  }

  lemma {:induction false} AssignedAt(cs: seq<Clause>, t: string, i: nat)
    requires i < |cs| && Distinct(ClauseColumns(cs))
    ensures Assigned(cs, t, cs[i].col) == if cs[i].Equals? then cs[i].arg else t
  {
    var cols := ClauseColumns(cs);
    if i == 0 {
      if cs[0].Under? {
        assert forall k :: 1 <= k < |cs| ==> cols[k] != cols[0];
        NotAssigned(cs[1..], t, cs[0].col);
      }
    } else {
      assert cols[0] != cols[i];
      forall j, k | 0 <= j < k < |cs| - 1 ensures ClauseColumns(cs[1..])[j] != ClauseColumns(cs[1..])[k] {
        assert cols[j + 1] != cols[k + 1];
      }
      AssignedAt(cs[1..], t, i - 1);
    }
  }

  lemma {:induction false} NotAssigned(cs: seq<Clause>, t: string, c: string)
    requires forall i :: 0 <= i < |cs| ==> cs[i].col != c
    ensures Assigned(cs, t, c) == t
  {
    if cs != [] {
      NotAssigned(cs[1..], t, c);
    }
  }

  /** A value of the remainder column the compiled condition accepts although the pattern does not cover it. */
  function Witness(mpath: seq<PathMap>, pattern: seq<string>, d: Dialect): string
  {
    if mpath == [] || pattern == [] || pattern[0] == "**" then "x"
    else if mpath[0].RemainderColumn? then Shortest(Join(pattern[..|pattern| - 1], "/"), d)
    else Witness(mpath[1..], pattern[1..], d)
  }

  lemma UnfaithfulRemainder(col: string, pattern: seq<string>, d: Dialect)
    requires pattern != [] && pattern[0] != "**" && PathPatternOk(pattern) && RemainderOutcome(col, pattern).Compiled?
    requires pattern[|pattern| - 1] == "**" && !Plain(Join(pattern[..|pattern| - 1], "/"), d)
    ensures var p := Join(pattern[..|pattern| - 1], "/");
      && RemainderOutcome(col, pattern) == Compiled([Under(col, p)])
      && LikeMatches(Shortest(p, d), p + "/%", d)
      && !PathMatches(pattern, Split(Shortest(p, d), '/'))
  {
    hide LikeMatches, Split, Shortest, Plain;
    var pre := pattern[..|pattern| - 1];
    var p := Join(pre, "/");
    var t := Shortest(p, d);
    assert pattern == pre + ["**"];
    assert forall i :: 0 <= i < |pre| ==> pre[i] == pattern[i];
    assert "**" !in pre && "*" !in pre;
    JoinedPrefix(pre);
    ShortestMatches(p, d);
    ShortestShape(p, d);
    PrefixPath(pre, Split(t, '/'));
    SplitPrefix(t, pre);
  }

  lemma {:induction false} UnfaithfulPath(mpath: seq<PathMap>, pattern: seq<string>, row: Row, d: Dialect)
    requires RemainderLast(mpath) && PathPatternOk(pattern)
    requires PathOutcome(mpath, pattern).Compiled? && !FaithfulPath(mpath, pattern, d)
    requires mpath[|mpath| - 1].RemainderColumn? ==> row(mpath[|mpath| - 1].name) == Witness(mpath, pattern, d)
    ensures !PathMatches(pattern, RowPath(mpath, row))
    ensures forall c :: c in PathOutcome(mpath, pattern).clauses && c.Under? ==>
              LikeMatches(Witness(mpath, pattern, d), c.prefix + "/%", d)
  {
    hide LikeMatches, Split, Join, Shortest, Plain;
    var path := RowPath(mpath, row);
    if mpath[0].RemainderColumn? {
      assert mpath == [mpath[0]];
      var t := row(mpath[0].name);
      assert path == Split(t, '/') + [] == Split(t, '/');
      assert PathOutcome(mpath[1..], []) == Compiled([]);
      if pattern != [] {
        UnfaithfulRemainder(mpath[0].name, pattern, d);
      }
    } else {
      PathPatternTail(pattern);
      assert RemainderLast(mpath[1..]) by {
        assert forall i :: 0 <= i < |mpath| - 1 ==> mpath[1..][i] == mpath[i + 1];
      }
      UnfaithfulPath(mpath[1..], pattern[1..], row, d);
      assert path[1..] == RowPath(mpath[1..], row);
    }
  }

  lemma {:induction false} UnfaithfulHasRemainder(mpath: seq<PathMap>, pattern: seq<string>, d: Dialect)
    requires RemainderLast(mpath) && PathOutcome(mpath, pattern).Compiled? && !FaithfulPath(mpath, pattern, d)
    ensures mpath != [] && mpath[|mpath| - 1].RemainderColumn?
    ensures forall c :: c in PathOutcome(mpath, pattern).clauses && c.Equals? ==> c.col in PathColumns(mpath[..|mpath| - 1])
  {
    if mpath[0].RemainderColumn? {
      assert mpath == [mpath[0]];
      assert PathOutcome(mpath[1..], []) == Compiled([]);
    } else {
      assert RemainderLast(mpath[1..]) by {
        assert forall i :: 0 <= i < |mpath| - 1 ==> mpath[1..][i] == mpath[i + 1];
      }
      UnfaithfulHasRemainder(mpath[1..], pattern[1..], d);
      assert mpath[..|mpath| - 1][1..] == mpath[1..][..|mpath| - 2];
    }
  }

  lemma {:induction false} PathColumnsSnoc(mpath: seq<PathMap>)
    requires mpath != [] && mpath[|mpath| - 1].RemainderColumn?
    ensures PathColumns(mpath) == PathColumns(mpath[..|mpath| - 1]) + [mpath[|mpath| - 1].name]
  {
    if |mpath| > 1 {
      PathColumnsSnoc(mpath[1..]);
      assert mpath[..|mpath| - 1][1..] == mpath[1..][..|mpath| - 2];
    } else {
      assert PathColumns(mpath[1..]) == [];
    }
  }

  /**
   For a mapping that uses each column once, the compiled condition and the policy matcher agree on
   every row if and only if the pattern is faithful.
   */
  lemma FaithfulIff(m: ResourceSqlMapping, p: UrnPattern, d: Dialect)
    requires RemainderLast(m.path) && Distinct(Columns(m)) && WellFormed(p) && PatternOutcome(m, p).Compiled?
    ensures Faithful(m, p, d) <==>
            forall row: Row :: AllHold(PatternOutcome(m, p).clauses, row, d) <==> Matches(p, RowUrn(m, row))
  {
    if Faithful(m, p, d) {
      forall row: Row ensures AllHold(PatternOutcome(m, p).clauses, row, d) <==> Matches(p, RowUrn(m, row)) {
        PatternMeaning(m, p, row, d);
      }
    } else {
      var row := UnfaithfulRow(m, p, d);
      assert !(AllHold(PatternOutcome(m, p).clauses, row, d) <==> Matches(p, RowUrn(m, row)));
    }
  }

  lemma UnfaithfulRow(m: ResourceSqlMapping, p: UrnPattern, d: Dialect) returns (row: Row)
    requires RemainderLast(m.path) && Distinct(Columns(m)) && WellFormed(p) && PatternOutcome(m, p).Compiled?
    requires !Faithful(m, p, d)
    ensures AllHold(PatternOutcome(m, p).clauses, row, d) && !Matches(p, RowUrn(m, row))
  {
    var cs := PatternOutcome(m, p).clauses;
    var pathClauses := PathOutcome(m.path, p.path).clauses;
    var t := Witness(m.path, p.path, d);
    row := RowFor(cs, t);
    UnfaithfulHasRemainder(m.path, p.path, d);
    var rc := m.path[|m.path| - 1].name;
    PatternClauseColumns(m, p);
    assert Distinct(ClauseColumns(cs));
    RemainderUnassigned(m, p, d);
    NotAssignedIfNoEquals(cs, t, rc);
    assert row(rc) == t;
    UnfaithfulPath(m.path, p.path, row, d);
    forall i | 0 <= i < |cs| ensures ClauseHolds(cs[i], row, d) {
      AssignedAt(cs, t, i);
      if cs[i].Under? {
        UnderFromPath(m, p, i);
      }
    }
  }

  lemma {:induction false} NotAssignedIfNoEquals(cs: seq<Clause>, t: string, c: string)
    requires forall x :: x in cs && x.Equals? ==> x.col != c
    ensures Assigned(cs, t, c) == t
  {
    if cs != [] {
      assert cs[0] in cs;
      NotAssignedIfNoEquals(cs[1..], t, c);
    }
  }

  lemma ThenOrigin(m: SegmentMap, pattern: string, b: Outcome, c: Clause)
    requires Then(SegmentOutcome(m, pattern), b).Compiled? && c in Then(SegmentOutcome(m, pattern), b).clauses
    ensures b.Compiled? && (c in b.clauses || (c.Equals? && c.col in SegmentColumns(m)))
  {
  }

  /** Clauses of a pattern: one for each segment column, then those of the path. */
  lemma PatternClauseOrigin(m: ResourceSqlMapping, p: UrnPattern, c: Clause)
    requires PatternOutcome(m, p).Compiled? && c in PatternOutcome(m, p).clauses
    ensures PathOutcome(m.path, p.path).Compiled?
    ensures c in PathOutcome(m.path, p.path).clauses ||
            (c.Equals? && c.col in SegmentColumns(m.partition) + SegmentColumns(m.service)
                                   + SegmentColumns(m.region) + SegmentColumns(m.tenant))
  {
    hide PathOutcome, Then, SegmentOutcome;
    var path := PathOutcome(m.path, p.path);
    var tenant := Then(SegmentOutcome(m.tenant, p.tenant), path);
    var region := Then(SegmentOutcome(m.region, p.region), tenant);
    var service := Then(SegmentOutcome(m.service, p.service), region);
    ThenOrigin(m.partition, p.partition, service, c);
    ThenCompiled(m.service, p.service, region);
    ThenCompiled(m.region, p.region, tenant);
    ThenCompiled(m.tenant, p.tenant, path);
    if c in service.clauses {
      ThenOrigin(m.service, p.service, region, c);
      if c in region.clauses {
        ThenOrigin(m.region, p.region, tenant, c);
        if c in tenant.clauses {
          ThenOrigin(m.tenant, p.tenant, path, c);
        }
      }
    }
  }

  lemma ThenCompiled(m: SegmentMap, pattern: string, b: Outcome)
    requires Then(SegmentOutcome(m, pattern), b).Compiled?
    ensures b.Compiled?
  {
  }

  lemma UnderFromPath(m: ResourceSqlMapping, p: UrnPattern, i: nat)
    requires PatternOutcome(m, p).Compiled? && i < |PatternOutcome(m, p).clauses|
    requires PatternOutcome(m, p).clauses[i].Under?
    ensures PathOutcome(m.path, p.path).Compiled?
    ensures PatternOutcome(m, p).clauses[i] in PathOutcome(m.path, p.path).clauses
  {
    PatternClauseOrigin(m, p, PatternOutcome(m, p).clauses[i]);
  }

  lemma PathCompiled(m: ResourceSqlMapping, p: UrnPattern)
    requires PatternOutcome(m, p).Compiled?
    ensures PathOutcome(m.path, p.path).Compiled?
  {
    hide PathOutcome;
  }

  lemma RemainderUnassigned(m: ResourceSqlMapping, p: UrnPattern, d: Dialect)
    requires RemainderLast(m.path) && Distinct(Columns(m)) && PatternOutcome(m, p).Compiled? && !Faithful(m, p, d)
    ensures m.path != [] && m.path[|m.path| - 1].RemainderColumn?
    ensures forall c :: c in PatternOutcome(m, p).clauses && c.Equals? ==> c.col != m.path[|m.path| - 1].name
  {
    PathCompiled(m, p);
    hide PathOutcome, PatternOutcome, PathColumns, FaithfulPath;
    UnfaithfulHasRemainder(m.path, p.path, d);
    PathColumnsSnoc(m.path);
    var segs := SegmentColumns(m.partition) + SegmentColumns(m.service) + SegmentColumns(m.region) + SegmentColumns(m.tenant);
    var before := segs + PathColumns(m.path[..|m.path| - 1]);
    var rc := m.path[|m.path| - 1].name;
    assert Columns(m) == before + [rc];
    forall c | c in PatternOutcome(m, p).clauses && c.Equals? ensures c.col != rc {
      PatternClauseOrigin(m, p, c);
      assert c.col in before;
      var k :| 0 <= k < |before| && before[k] == c.col;
      assert (before + [rc])[k] != (before + [rc])[|before|];
    }
  }

  // ----- Concrete failures, and what survives them -----

  /** The outcome is right about one row: "no row" is true of it, and a faithful condition agrees with the matcher. */
  predicate RightOn(mpath: seq<PathMap>, pattern: seq<string>, row: Row, d: Dialect)
  {
    var o := PathOutcome(mpath, pattern);
    && (o.NoRow? ==> !PathMatches(pattern, RowPath(mpath, row)))
    && (o.Compiled? && FaithfulPath(mpath, pattern, d) ==>
          (AllHold(o.clauses, row, d) <==> PathMatches(pattern, RowPath(mpath, row))))
  }

  /** What a path that is over compiles to: nothing for remainders, no row for anything else. */
  lemma {:induction false} RestOutcome(mpath: seq<PathMap>)
    ensures PathOutcome(mpath, [])
      == if forall i :: 0 <= i < |mpath| ==> mpath[i].RemainderColumn? then Compiled([]) else NoRow
  {
    if mpath != [] {
      RestOutcome(mpath[1..]);
      assert forall i :: 1 <= i < |mpath| ==> mpath[i] == mpath[1..][i - 1];
    }
  }

  const EVERY_X: Row := c => "x"

  /** Nothing but remainders follow: `x` is selected though the row's path is longer. */
  lemma SecondRemainderIgnored(mpath: seq<PathMap>, d: Dialect)
    requires |mpath| >= 2 && forall i :: 0 <= i < |mpath| ==> mpath[i].RemainderColumn?
    ensures !RightOn(mpath, ["x"], EVERY_X, d)
  {
    RestOutcome(mpath[1..]);
    assert Join(["x"], "/") == "x";
    var c := Equals(mpath[0].name, "x");
    assert PathOutcome(mpath, ["x"]) == Compiled([c] + []);
    assert [c] + [] == [c];
    AllHoldOne(c, EVERY_X, d);
    SplitWhole("x", '/');
    var path := RowPath(mpath, EVERY_X);
    assert path == ["x"] + RowPath(mpath[1..], EVERY_X);
    assert path[1..] == RowPath(mpath[1..], EVERY_X) && |path[1..]| >= 1;
    assert !PathMatches([], path[1..]);
    assert ["x"][1..] == [];
    assert !PathMatches(["x"], path);
  }

  /** Something else follows: `x` and below is said to be in no row, though this row lies there. */
  lemma LaterColumnHides(mpath: seq<PathMap>, d: Dialect)
    requires mpath != [] && mpath[0].RemainderColumn? && exists i :: 0 <= i < |mpath| && !mpath[i].RemainderColumn?
    ensures !RightOn(mpath, ["x", "**"], EVERY_X, d)
  {
    var i :| 0 <= i < |mpath| && !mpath[i].RemainderColumn?;
    assert mpath[1..][i - 1] == mpath[i];
    RestOutcome(mpath[1..]);
    assert RemainderOutcome(mpath[0].name, ["x", "**"]).Compiled?;
    SplitWhole("x", '/');
    var path := RowPath(mpath, EVERY_X);
    assert path == ["x"] + RowPath(mpath[1..], EVERY_X);
    assert ["x", "**"][1..] == ["**"] && path[1..] == RowPath(mpath[1..], EVERY_X);
    assert PathMatches(["**"], path[1..]);
  }

  /** An element before the remainder is passed over by `*`. */
  lemma StarPasses(mpath: seq<PathMap>, pattern: seq<string>, row: Row, d: Dialect)
    requires mpath != [] && !mpath[0].RemainderColumn?
    ensures RightOn(mpath, ["*"] + pattern, row, d) <==> RightOn(mpath[1..], pattern, row, d)
  {
    var longer := ["*"] + pattern;
    assert longer[1..] == pattern;
    var rest := PathOutcome(mpath[1..], pattern);
    if rest.Compiled? { assert [] + rest.clauses == rest.clauses; }
    assert PathOutcome(mpath, longer) == rest;
    var path := RowPath(mpath, row);
    assert path[1..] == RowPath(mpath[1..], row);
    assert PathMatches(longer, path) == PathMatches(pattern, path[1..]);
  }

  /** A pattern and a row about which a mapping with an early remainder is wrong. */
  lemma {:induction false} EarlyRemainderWrong(mpath: seq<PathMap>, d: Dialect) returns (pattern: seq<string>, row: Row)
    requires !RemainderLast(mpath)
    ensures WellFormedPath(pattern) && !RightOn(mpath, pattern, row, d)
  {
    hide RightOn;
    if !mpath[0].RemainderColumn? {
      assert forall i :: 0 <= i < |mpath[1..]| ==> mpath[1..][i] == mpath[i + 1];
      var i :| 0 <= i < |mpath| - 1 && mpath[i].RemainderColumn?;
      assert mpath[1..][i - 1].RemainderColumn?;
      var shorter;
      shorter, row := EarlyRemainderWrong(mpath[1..], d);
      pattern := ["*"] + shorter;
      StarOk(shorter);
      StarPasses(mpath, shorter, row, d);
    } else if forall i :: 0 <= i < |mpath| ==> mpath[i].RemainderColumn? {
      pattern, row := ["x"], EVERY_X;
      SecondRemainderIgnored(mpath, d);
    } else {
      pattern, row := ["x", "**"], EVERY_X;
      LaterColumnHides(mpath, d);
    }
  }

  lemma StarOk(pattern: seq<string>)
    requires WellFormedPath(pattern)
    ensures WellFormedPath(["*"] + pattern)
  {
    var longer := ["*"] + pattern;
    forall i | 0 <= i < |longer| ensures ValidPathSegment(longer[i], i, |longer|) && '/' !in longer[i] && ':' !in longer[i] {
      if i > 0 { assert longer[i] == pattern[i - 1] && ValidPathSegment(pattern[i - 1], i - 1, |pattern|); }
    }
  }

  /** The same for a whole URN pattern. */
  predicate RightAbout(m: ResourceSqlMapping, p: UrnPattern, row: Row, d: Dialect)
  {
    var o := PatternOutcome(m, p);
    && (o.NoRow? ==> !Matches(p, RowUrn(m, row)))
    && (o.Compiled? && Faithful(m, p, d) ==> (AllHold(o.clauses, row, d) <==> Matches(p, RowUrn(m, row))))
  }

  lemma AnySegments(m: ResourceSqlMapping, pattern: seq<string>, row: Row, d: Dialect)
    ensures RightAbout(m, UrnPattern("*", "*", "*", "*", pattern), row, d) <==> RightOn(m.path, pattern, row, d)
  {
    var o := PathOutcome(m.path, pattern);
    ThenNone(o);
    assert PatternOutcome(m, UrnPattern("*", "*", "*", "*", pattern)) == o;
  }

  lemma ThenNone(o: Outcome)
    ensures Then(Compiled([]), o) == o
  {
    if o.Compiled? { assert [] + o.clauses == o.clauses; }
  }

  /** A mapping is right about every pattern and every row if and only if no remainder column comes early. */
  lemma RemainderMustBeLast(m: ResourceSqlMapping, d: Dialect)
    ensures RemainderLast(m.path) <==> forall p, row: Row :: WellFormed(p) ==> RightAbout(m, p, row, d)
  {
    if RemainderLast(m.path) {
      hide WellFormed;
      forall p, row: Row | WellFormed(p) ensures RightAbout(m, p, row, d) {
        PatternMeaning(m, p, row, d);
      }
    } else {
      var pattern, row := EarlyRemainderWrong(m.path, d);
      AnySegments(m, pattern, row, d);
      var p := UrnPattern("*", "*", "*", "*", pattern);
      assert WellFormed(p) && !RightAbout(m, p, row, d);
    }
  }

  /** `bucket` against `bucket/<key>`: no clause at all, so every object matches. */
  lemma StoppingAtRemainderSelectsAll(row: Row)
    ensures var mpath, pattern := [Literal("bucket"), RemainderColumn("key")], ["bucket"];
      && PathOutcome(mpath, pattern) == Compiled([])
      && !PathMatches(pattern, RowPath(mpath, row))
  {
    var mpath, pattern := [Literal("bucket"), RemainderColumn("key")], ["bucket"];
    var rest := mpath[1..];
    assert rest == [RemainderColumn("key")] && rest[1..] == [];
    assert PathOutcome(rest[1..], []) == Compiled([]);
    assert PathOutcome(rest, []) == Compiled([] + []);
    assert pattern[1..] == [];
    var path := RowPath(mpath, row);
    assert path == ["bucket"] + RowPath(rest, row);
    assert |RowPath(rest, row)| >= 1;
    assert path[1..] == RowPath(rest, row);
  }

  /** The prefix `a_` under a final globstar also selects the key `ax/`. */
  lemma UnescapedUnderscore()
    ensures !Plain("a_", NoEscape) && LikeMatches("ax/", "a_" + "/%", NoEscape) && !("a_" + "/" <= "ax/")
  {
    assert LikeSpecial("a_"[1], NoEscape);
    ShortestMatches("a_", NoEscape);
    assert Shortest("", NoEscape) == "/";
    assert "a_"[1..] == "_" && "_"[1..] == "";
    assert Shortest("_", NoEscape) == "x" + "/";
    assert Shortest("a_", NoEscape) == "a" + ("x" + "/");
    assert "a" + ("x" + "/") == "ax/";
    assert ("a_" + "/")[1] != "ax/"[1];
  }

  /** Without escapes the unescaped prefix only widens: no row the pattern covers is ever lost. */
  lemma {:induction false} PathNeverHides(mpath: seq<PathMap>, pattern: seq<string>, row: Row)
    requires RemainderLast(mpath) && PathPatternOk(pattern) && PathOutcome(mpath, pattern).Compiled?
    requires PathMatches(pattern, RowPath(mpath, row))
    ensures AllHold(PathOutcome(mpath, pattern).clauses, row, NoEscape)
  {
    hide LikeMatches, Join;
    if mpath != [] && !(pattern != [] && pattern[0] == "**") {
      var path := RowPath(mpath, row);
      if mpath[0].RemainderColumn? {
        assert mpath == [mpath[0]];
        assert path == Split(row(mpath[0].name), '/') + [] == Split(row(mpath[0].name), '/');
        assert PathOutcome(mpath[1..], []) == Compiled([]);
        var cs := RemainderOutcome(mpath[0].name, pattern).clauses;
        assert cs + [] == cs;
        if pattern != [] {
          RemainderNeverHides(mpath[0].name, pattern, row);
        }
      } else {
        PathPatternTail(pattern);
        assert RemainderLast(mpath[1..]) by {
          assert forall i :: 0 <= i < |mpath| - 1 ==> mpath[1..][i] == mpath[i + 1];
        }
        assert path[1..] == RowPath(mpath[1..], row);
        PathNeverHides(mpath[1..], pattern[1..], row);
      }
    }
  }

  lemma RemainderNeverHides(col: string, pattern: seq<string>, row: Row)
    requires pattern != [] && PathPatternOk(pattern) && RemainderOutcome(col, pattern).Compiled?
    requires PathMatches(pattern, Split(row(col), '/'))
    ensures AllHold(RemainderOutcome(col, pattern).clauses, row, NoEscape)
  {
    hide LikeMatches, Split;
    var t := row(col);
    if pattern != ["**"] {
      var last, pre := pattern[|pattern| - 1], pattern[..|pattern| - 1];
      assert pattern == pre + [last];
      assert forall i :: 0 <= i < |pre| ==> pre[i] == pattern[i];
      assert "**" !in pre;
      if last == "**" {
        var p := Join(pre, "/");
        JoinedPrefix(pre);
        PrefixPath(pre, Split(t, '/'));
        SplitPrefix(t, pre);
        if p + "/" <= t {
          LikeAnything(t[|p + "/"|..], NoEscape);
          UnderImpliesLike(t, p + "/", "%");
          assert p + "/" + "%" == p + "/%";
        }
      } else {
        LiteralPath(pattern, Split(t, '/'));
        JoinSplit(t, '/');
      }
    }
  }
}
