/**
 The WHERE text and argument list a scope compiles to, and the proof that the text, read back as SQL
 with its arguments, selects exactly the rows the policy permits.
 */
module ScopeText {
  import opened Strings
  import opened Urn
  import opened Sql
  import opened ScopeSpec

  datatype SqlScope = SqlScope(where: string, args: seq<string>)

  const ALLOW_ALL := "1=1"
  const DENY_ALL := "0=1"

  function ClauseText(c: Clause): string
  {
    match c
    case Equals(col, _) => col + " = ?"
    case Under(col, _) => "(" + col + " = ? OR " + col + " LIKE ?)"
  }

  function ClauseArgs(c: Clause): seq<string>
  {
    match c
    case Equals(_, arg) => [arg]
    case Under(_, prefix) => [prefix, prefix + "/%"]
  }

  function Texts(cs: seq<Clause>): (r: seq<string>)
    ensures |r| == |cs|
  {
    if cs == [] then [] else Texts(cs[..|cs| - 1]) + [ClauseText(cs[|cs| - 1])]
  }

  function ArgsOf(cs: seq<Clause>): seq<string>
  {
    if cs == [] then [] else ArgsOf(cs[..|cs| - 1]) + ClauseArgs(cs[|cs| - 1])
  }

  function WhereOf(cs: seq<Clause>): string
  {
    if cs == [] then ALLOW_ALL else Join(Texts(cs), " AND ")
  }

  function ScopeOf(cs: seq<Clause>): SqlScope
  {
    SqlScope(WhereOf(cs), ArgsOf(cs))
  }

  function Parenthesised(css: seq<seq<Clause>>): (r: seq<string>)
    ensures |r| == |css|
  {
    if css == [] then []
    else Parenthesised(css[..|css| - 1]) + ["(" + WhereOf(css[|css| - 1]) + ")"]
  }

  function AllArgs(css: seq<seq<Clause>>): seq<string>
  {
    if css == [] then [] else AllArgs(css[..|css| - 1]) + ArgsOf(css[|css| - 1])
  }

  /** The disjunction of the allow patterns. */
  function OrScope(css: seq<seq<Clause>>): SqlScope
    requires css != []
  {
    if |css| == 1 then ScopeOf(css[0])
    else if [] in css then SqlScope(ALLOW_ALL, [])
    else SqlScope(Join(Parenthesised(css), " OR "), AllArgs(css))
  }

  function AndNot(scope: SqlScope, cs: seq<Clause>): SqlScope
  {
    SqlScope("(" + scope.where + ") AND NOT (" + WhereOf(cs) + ")", scope.args + ArgsOf(cs))
  }

  /** Compiles one raw pattern. */
  function RawOutcome(m: ResourceSqlMapping, raw: string): Outcome
  {
    var p := Parse(raw);
    if p.Err? then Rejected else PatternOutcome(m, p.value)
  }

  /** The allow patterns that select some row, in order; one refused pattern refuses the whole list. */
  function AllowOutcome(m: ResourceSqlMapping, allow: seq<string>): Result<seq<seq<Clause>>>
  {
    if allow == [] then Ok([])
    else
      var before := AllowOutcome(m, allow[..|allow| - 1]);
      var last := RawOutcome(m, allow[|allow| - 1]);
      if before.Err? || last.Rejected? then Err
      else Ok(before.value + if last.Compiled? then [last.clauses] else [])
  }

  function Outcomes(m: ResourceSqlMapping, raws: seq<string>): (r: seq<Outcome>)
    ensures |r| == |raws| && forall i :: 0 <= i < |raws| ==> r[i] == RawOutcome(m, raws[i])
  {
    seq(|raws|, i requires 0 <= i < |raws| => RawOutcome(m, raws[i]))
  }

  /** Subtracts the deny patterns one by one; a pattern without clauses denies every row at once. */
  function DenyFold(scope: SqlScope, deny: seq<Outcome>): Result<SqlScope>
    decreases |deny|
  {
    if deny == [] then Ok(scope)
    else
      match deny[0]
      case Rejected => Err
      case NoRow => DenyFold(scope, deny[1..])
      case Compiled(cs) =>
        if cs == [] then Ok(SqlScope(DENY_ALL, []))
        else DenyFold(AndNot(scope, cs), deny[1..])
  }

  /** What `compileScope` returns. */
  function CompileSpec(m: ResourceSqlMapping, allow: seq<string>, deny: seq<string>): Result<SqlScope>
  {
    var css := AllowOutcome(m, allow);
    if css.Err? then Err
    else if css.value == [] then Ok(SqlScope(DENY_ALL, []))
    else DenyFold(OrScope(css.value), Outcomes(m, deny))
  }

  // ----- Trees -----

  function ClauseTree(c: Clause, n: nat): Cond
  {
    match c
    case Equals(col, _) => Compare(Column(col), Param(n))
    case Under(col, _) => Group(Or(Compare(Column(col), Param(n)), Like(Column(col), Param(n + 1))))
  }

  function ConjTree(cs: seq<Clause>, n: nat): Cond
  {
    if cs == [] then TRUE_TREE
    else
      var init, last := cs[..|cs| - 1], cs[|cs| - 1];
      if init == [] then ClauseTree(last, n) else And(ConjTree(init, n), ClauseTree(last, n + |ArgsOf(init)|))
  }

  function OrTree(css: seq<seq<Clause>>, n: nat): Cond
    requires css != []
  {
    var init, last := css[..|css| - 1], css[|css| - 1];
    if init == [] then Group(ConjTree(last, n))
    else Or(OrTree(init, n), Group(ConjTree(last, n + |AllArgs(init)|)))
  }

  const TRUE_TREE := Compare(Numeral("1"), Numeral("1"))
  const FALSE_TREE := Compare(Numeral("0"), Numeral("1"))

  function AllowTree(css: seq<seq<Clause>>): Cond
    requires css != []
  {
    if |css| == 1 then ConjTree(css[0], 0) else if [] in css then TRUE_TREE else OrTree(css, 0)
  }

  function AndNotTree(e: Cond, cs: seq<Clause>, k: nat): Cond
  {
    And(Group(e), Not(Group(ConjTree(cs, k))))
  }

  /** `e` narrowed by the deny patterns; `k` placeholders are already in use. */
  function DenyTree(e: Cond, k: nat, deny: seq<Outcome>): Cond
    decreases |deny|
  {
    if deny == [] then e
    else
      match deny[0]
      case Rejected => FALSE_TREE
      case NoRow => DenyTree(e, k, deny[1..])
      case Compiled(cs) =>
        if cs == [] then FALSE_TREE
        else DenyTree(AndNotTree(e, cs, k), k + |ArgsOf(cs)|, deny[1..])
  }

  function ScopeTree(m: ResourceSqlMapping, allow: seq<string>, deny: seq<string>): Cond
  {
    var css := AllowOutcome(m, allow);
    if css.Err? || css.value == [] then FALSE_TREE
    else DenyTree(AllowTree(css.value), |OrScope(css.value).args|, Outcomes(m, deny))
  }

  ghost predicate GoodClauses(cs: seq<Clause>)
  {
    forall i :: 0 <= i < |cs| ==> GoodColumn(cs[i].col)
  }

  /** `text` is the tree `e`, whose placeholders are numbered from n and take `args` one by one. */
  ghost predicate Denotes(text: string, args: seq<string>, e: Cond, n: nat)
  {
    text == Text(e) && Wf(e) && Numbered(e, n) && Holes(e) == |args|
  }

  /** The arguments at positions n, n+1, ... are `xs`. */
  predicate Placed(args: seq<string>, n: nat, xs: seq<string>)
  {
    n + |xs| <= |args| && args[n..n + |xs|] == xs
  }

  lemma PlacedSplit(args: seq<string>, n: nat, xs: seq<string>, ys: seq<string>)
    requires Placed(args, n, xs + ys)
    ensures Placed(args, n, xs) && Placed(args, n + |xs|, ys)
  {
    var all := args[n..n + |xs + ys|];
    assert args[n..n + |xs|] == all[..|xs|];
    assert args[n + |xs|..n + |xs + ys|] == all[|xs|..];
  }

  // ----- The text is the spelling of the tree -----

  /** The two constant conditions. */
  lemma ConstantDenotes(n: nat)
    ensures Denotes(ALLOW_ALL, [], TRUE_TREE, n)
    ensures Denotes(DENY_ALL, [], FALSE_TREE, n)
  {
    assert "1" + "=" + "1" == ALLOW_ALL && "0" + "=" + "1" == DENY_ALL;
  }

  lemma GroupDenotes(s: string, xs: seq<string>, e: Cond, n: nat)
    requires Denotes(s, xs, e, n)
    ensures Denotes("(" + s + ")", xs, Group(e), n)
  {
  }

  lemma NotDenotes(s: string, xs: seq<string>, e: Cond, n: nat)
    requires Denotes(s, xs, e, n) && Rank(e) >= 2
    ensures Denotes("NOT " + s, xs, Not(e), n)
  {
  }

  lemma AndDenotes(s: string, xs: seq<string>, e: Cond, t: string, ys: seq<string>, f: Cond, n: nat)
    requires Denotes(s, xs, e, n) && Denotes(t, ys, f, n + |xs|) && Rank(e) >= 1 && Rank(f) >= 2
    ensures Denotes(s + " AND " + t, xs + ys, And(e, f), n)
  {
  }

  lemma OrDenotes(s: string, xs: seq<string>, e: Cond, t: string, ys: seq<string>, f: Cond, n: nat)
    requires Denotes(s, xs, e, n) && Denotes(t, ys, f, n + |xs|) && Rank(f) >= 1
    ensures Denotes(s + " OR " + t, xs + ys, Or(e, f), n)
  {
  }

  lemma ClauseDenotes(c: Clause, n: nat)
    ensures Denotes(ClauseText(c), ClauseArgs(c), ClauseTree(c, n), n)
    ensures Rank(ClauseTree(c, n)) == 3
  {
    var eq, like := c.col + " = ?", c.col + " LIKE ?";
    assert eq == c.col + " = " + "?" && like == c.col + " LIKE " + "?";
    if c.Under? {
      var x, y := Compare(Column(c.col), Param(n)), Like(Column(c.col), Param(n + 1));
      assert Denotes(eq, [c.prefix], x, n) && Denotes(like, [c.prefix + "/%"], y, n + 1);
      OrDenotes(eq, [c.prefix], x, like, [c.prefix + "/%"], y, n);
      GroupDenotes(eq + " OR " + like, ClauseArgs(c), Or(x, y), n);
      assert ClauseText(c) == "(" + (eq + " OR " + like) + ")";
    }
  }

  lemma AndNotDenotes(s: string, xs: seq<string>, e: Cond, t: string, ys: seq<string>, f: Cond, n: nat)
    requires Denotes(s, xs, e, n) && Denotes(t, ys, f, n + |xs|)
    ensures Denotes("(" + s + ") AND NOT (" + t + ")", xs + ys, And(Group(e), Not(Group(f))), n)
  {
    GroupDenotes(s, xs, e, n);
    GroupDenotes(t, ys, f, n + |xs|);
    NotDenotes("(" + t + ")", ys, Group(f), n + |xs|);
    AndDenotes("(" + s + ")", xs, Group(e), "NOT " + ("(" + t + ")"), ys, Not(Group(f)), n);
    AndNotText(s, t);
  }

  lemma AndNotText(s: string, t: string)
    ensures "(" + s + ") AND NOT (" + t + ")" == ("(" + s + ")") + " AND " + ("NOT " + ("(" + t + ")"))
  {
  }

  lemma {:induction false} ConjDenotes(cs: seq<Clause>, n: nat)
    ensures Denotes(WhereOf(cs), ArgsOf(cs), ConjTree(cs, n), n)
    ensures Rank(ConjTree(cs, n)) >= 1
  {
    if cs == [] {
      ConstantDenotes(n);
    } else {
      var init, last := cs[..|cs| - 1], cs[|cs| - 1];
      JoinSnoc(Texts(init), ClauseText(last), " AND ");
      ClauseDenotes(last, n + |ArgsOf(init)|);
      if init != [] {
        ConjDenotes(init, n);
        AndDenotes(WhereOf(init), ArgsOf(init), ConjTree(init, n),
                   ClauseText(last), ClauseArgs(last), ClauseTree(last, n + |ArgsOf(init)|), n);
      } else {
        assert ArgsOf(cs) == [] + ClauseArgs(last) == ClauseArgs(last);
      }
    }
  }

  lemma DisjStepTree(init: seq<seq<Clause>>, last: seq<Clause>, n: nat)
    ensures AllArgs(init + [last]) == AllArgs(init) + ArgsOf(last)
    ensures OrTree(init + [last], n) ==
      if init == [] then Group(ConjTree(last, n)) else Or(OrTree(init, n), Group(ConjTree(last, n + |AllArgs(init)|)))
  {
    assert (init + [last])[..|init|] == init;
  }

  lemma DisjStepText(init: seq<seq<Clause>>, last: seq<Clause>)
    ensures var part := "(" + WhereOf(last) + ")";
      Join(Parenthesised(init + [last]), " OR ") == if init == [] then part else Join(Parenthesised(init), " OR ") + " OR " + part
  {
    assert (init + [last])[..|init|] == init;
    JoinSnoc(Parenthesised(init), "(" + WhereOf(last) + ")", " OR ");
  }

  lemma {:induction false} DisjText(css: seq<seq<Clause>>, n: nat)
    requires css != []
    ensures Join(Parenthesised(css), " OR ") == Text(OrTree(css, n))
  {
    hide WhereOf, ConjTree, Join, Parenthesised, OrTree, Text;
    var init, last := css[..|css| - 1], css[|css| - 1];
    assert css == init + [last];
    DisjStepTree(init, last, n);
    DisjStepText(init, last);
    ConjText(last, n + |AllArgs(init)|);
    if init != [] {
      DisjText(init, n);
      OrText(OrTree(init, n), Group(ConjTree(last, n + |AllArgs(init)|)));
    }
  }

  lemma OrText(x: Cond, y: Cond)
    ensures Text(Or(x, y)) == Text(x) + " OR " + Text(y)
  {
  }

  lemma ConjText(cs: seq<Clause>, n: nat)
    ensures "(" + WhereOf(cs) + ")" == Text(Group(ConjTree(cs, n)))
  {
    ConjDenotes(cs, n);
  }

  lemma ConjShape(cs: seq<Clause>, n: nat)
    ensures Wf(ConjTree(cs, n)) && Numbered(ConjTree(cs, n), n) && Holes(ConjTree(cs, n)) == |ArgsOf(cs)|
  {
    ConjDenotes(cs, n);
  }

  lemma {:induction false} DisjShape(css: seq<seq<Clause>>, n: nat)
    requires css != []
    ensures Wf(OrTree(css, n)) && Numbered(OrTree(css, n), n) && Holes(OrTree(css, n)) == |AllArgs(css)|
  {
    hide ConjTree, ArgsOf, OrTree, Wf, Numbered, Holes;
    var init, last := css[..|css| - 1], css[|css| - 1];
    assert css == init + [last];
    DisjStepTree(init, last, n);
    var m := n + |AllArgs(init)|;
    ConjShape(last, m);
    GroupShape(ConjTree(last, m), m);
    if init != [] {
      DisjShape(init, n);
      OrShape(OrTree(init, n), ConjTree(last, m), n);
    }
  }

  lemma GroupShape(y: Cond, n: nat)
    requires Wf(y) && Numbered(y, n)
    ensures Wf(Group(y)) && Numbered(Group(y), n) && Holes(Group(y)) == Holes(y)
  {
  }

  lemma OrShape(x: Cond, y: Cond, n: nat)
    requires Wf(x) && Numbered(x, n) && Wf(y) && Numbered(y, n + Holes(x))
    ensures var e := Or(x, Group(y)); Wf(e) && Numbered(e, n) && Holes(e) == Holes(x) + Holes(y)
  {
    GroupShape(y, n + Holes(x));
  }

  lemma DisjDenotes(css: seq<seq<Clause>>, n: nat)
    requires css != []
    ensures Denotes(Join(Parenthesised(css), " OR "), AllArgs(css), OrTree(css, n), n)
  {
    DisjText(css, n);
    DisjShape(css, n);
  }

  /** The text is the sentinel exactly when no clause was emitted. */
  lemma SentinelIsFaithful(cs: seq<Clause>)
    ensures WhereOf(cs) == ALLOW_ALL <==> cs == []
  {
    if cs != [] {
      var init, last := cs[..|cs| - 1], cs[|cs| - 1];
      JoinSnoc(Texts(init), ClauseText(last), " AND ");
      var w, t := WhereOf(cs), ClauseText(last);
      assert w[|w| - 1] == t[|t| - 1];
      assert t[|t| - 1] == '?' || t[|t| - 1] == ')';
    }
  }

  // ----- Truth of the trees -----

  lemma ClauseTruth(c: Clause, n: nat, args: seq<string>, row: Row, d: Dialect)
    requires Placed(args, n, ClauseArgs(c))
    ensures Eval(ClauseTree(c, n), row, args, d) == ClauseHolds(c, row, d)
  {
    assert args[n] == args[n..n + |ClauseArgs(c)|][0] == ClauseArgs(c)[0];
    if c.Under? {
      assert args[n + 1] == args[n..n + 2][1] == c.prefix + "/%";
      var x, y := Compare(Column(c.col), Param(n)), Like(Column(c.col), Param(n + 1));
      assert Eval(ClauseTree(c, n), row, args, d) == Eval(Or(x, y), row, args, d);
      assert Eval(Or(x, y), row, args, d) == (Eval(x, row, args, d) || Eval(y, row, args, d));
    }
  }

  lemma ConjStep(init: seq<Clause>, last: Clause, n: nat)
    ensures ArgsOf(init + [last]) == ArgsOf(init) + ClauseArgs(last)
    ensures ConjTree(init + [last], n) ==
      if init == [] then ClauseTree(last, n) else And(ConjTree(init, n), ClauseTree(last, n + |ArgsOf(init)|))
  {
    assert (init + [last])[..|init|] == init;
  }

  lemma {:induction false} ConjTruth(cs: seq<Clause>, n: nat, args: seq<string>, row: Row, d: Dialect)
    requires Placed(args, n, ArgsOf(cs))
    ensures Eval(ConjTree(cs, n), row, args, d) == AllHold(cs, row, d)
  {
    if cs != [] {
      hide ClauseHolds;
      var init, last := cs[..|cs| - 1], cs[|cs| - 1];
      assert cs == init + [last];
      ConjStep(init, last, n);
      PlacedSplit(args, n, ArgsOf(init), ClauseArgs(last));
      ConjTruth(init, n, args, row, d);
      ClauseTruth(last, n + |ArgsOf(init)|, args, row, d);
      AllHoldConcat(init, [last], row, d);
      AllHoldOne(last, row, d);
    }
  }

  predicate AnyHold(css: seq<seq<Clause>>, row: Row, d: Dialect)
  {
    exists i :: 0 <= i < |css| && AllHold(css[i], row, d)
  }

  lemma AnyHoldSnoc(css: seq<seq<Clause>>, cs: seq<Clause>, row: Row, d: Dialect)
    ensures AnyHold(css + [cs], row, d) <==> AnyHold(css, row, d) || AllHold(cs, row, d)
  {
    if AnyHold(css, row, d) {
      var i :| 0 <= i < |css| && AllHold(css[i], row, d);
      assert (css + [cs])[i] == css[i];
    }
    if AllHold(cs, row, d) {
      assert (css + [cs])[|css|] == cs;
    }
  }

  lemma {:induction false} DisjTruth(css: seq<seq<Clause>>, n: nat, args: seq<string>, row: Row, d: Dialect)
    requires css != [] && Placed(args, n, AllArgs(css))
    ensures Eval(OrTree(css, n), row, args, d) == AnyHold(css, row, d)
  {
    hide AllHold, ConjTree, ArgsOf, OrTree;
    var init, last := css[..|css| - 1], css[|css| - 1];
    assert css == init + [last];
    DisjStepTree(init, last, n);
    PlacedSplit(args, n, AllArgs(init), ArgsOf(last));
    ConjTruth(last, n + |AllArgs(init)|, args, row, d);
    AnyHoldSnoc(init, last, row, d);
    if init != [] {
      DisjTruth(init, n, args, row, d);
    }
  }

  // ----- Scopes -----

  /** The row satisfies the WHERE text once every placeholder takes its argument. */
  predicate Selects(scope: SqlScope, row: Row, d: Dialect)
  {
    var e := ParseWhere(scope.where);
    e.Some? && Holes(e.value) == |scope.args| && Eval(e.value, row, scope.args, d)
  }

  lemma AllowDenotes(css: seq<seq<Clause>>)
    requires css != []
    ensures Denotes(OrScope(css).where, OrScope(css).args, AllowTree(css), 0)
  {
    if |css| == 1 {
      ConjDenotes(css[0], 0);
    } else if [] in css {
      ConstantDenotes(0);
    } else {
      DisjDenotes(css, 0);
    }
  }

  lemma AllowTruth(css: seq<seq<Clause>>, row: Row, d: Dialect)
    requires css != []
    ensures Eval(AllowTree(css), row, OrScope(css).args, d) == AnyHold(css, row, d)
  {
    if |css| == 1 {
      ConjTruth(css[0], 0, ArgsOf(css[0]), row, d);
      assert AnyHold(css, row, d) == AllHold(css[0], row, d);
    } else if [] in css {
      var i :| 0 <= i < |css| && css[i] == [];
      assert AllHold(css[i], row, d);
    } else {
      DisjTruth(css, 0, AllArgs(css), row, d);
    }
  }

  lemma AndNotScope(scope: SqlScope, e: Cond, cs: seq<Clause>)
    requires Denotes(scope.where, scope.args, e, 0)
    ensures Denotes(AndNot(scope, cs).where, AndNot(scope, cs).args, AndNotTree(e, cs, |scope.args|), 0)
  {
    ConjDenotes(cs, |scope.args|);
    AndNotDenotes(scope.where, scope.args, e, WhereOf(cs), ArgsOf(cs), ConjTree(cs, |scope.args|), 0);
  }

  lemma AndNotTruth(args: seq<string>, e: Cond, cs: seq<Clause>, row: Row, d: Dialect)
    requires Numbered(e, 0) && Holes(e) == |args|
    ensures Eval(AndNotTree(e, cs, |args|), row, args + ArgsOf(cs), d) == (Eval(e, row, args, d) && !AllHold(cs, row, d))
  {
    hide AllHold;
    var all := args + ArgsOf(cs);
    assert Placed(all, |args|, ArgsOf(cs));
    ConjTruth(cs, |args|, all, row, d);
    EvalFrame(e, 0, row, args, all, d);
    AndNotEval(e, ConjTree(cs, |args|), row, all, d);
  }

  lemma AndNotEval(e: Cond, g: Cond, row: Row, args: seq<string>, d: Dialect)
    ensures Eval(And(Group(e), Not(Group(g))), row, args, d) == (Eval(e, row, args, d) && !Eval(g, row, args, d))
  {
    assert Eval(Not(Group(g)), row, args, d) == !Eval(Group(g), row, args, d);
  }

  /** The raw pattern covers the resource. */
  predicate RawMatches(raw: string, urn: ResourceUrn)
  {
    Parse(raw).Ok? && Matches(Parse(raw).value, urn)
  }

  predicate AnyMatch(raws: seq<string>, urn: ResourceUrn)
  {
    exists i :: 0 <= i < |raws| && RawMatches(raws[i], urn)
  }

  lemma AnyMatchConcat(a: seq<string>, b: seq<string>, urn: ResourceUrn)
    ensures AnyMatch(a + b, urn) <==> AnyMatch(a, urn) || AnyMatch(b, urn)
  {
    if AnyMatch(a, urn) {
      var i :| 0 <= i < |a| && RawMatches(a[i], urn);
      assert (a + b)[i] == a[i];
    }
    if AnyMatch(b, urn) {
      var i :| 0 <= i < |b| && RawMatches(b[i], urn);
      assert (a + b)[|a| + i] == b[i];
    }
  }

  lemma AnyMatchOne(raw: string, urn: ResourceUrn)
    ensures AnyMatch([raw], urn) <==> RawMatches(raw, urn)
  {
    assert [raw][0] == raw;
  }

  /** What the policy engine decides: some allow pattern covers the resource and no deny pattern does. */
  predicate Permitted(allow: seq<string>, deny: seq<string>, urn: ResourceUrn)
  {
    AnyMatch(allow, urn) && !AnyMatch(deny, urn)
  }

  ghost predicate FaithfulRaw(m: ResourceSqlMapping, raw: string, d: Dialect)
  {
    Parse(raw).Ok? ==> Faithful(m, Parse(raw).value, d)
  }

  ghost predicate FaithfulList(m: ResourceSqlMapping, raws: seq<string>, d: Dialect)
  {
    forall i :: 0 <= i < |raws| ==> FaithfulRaw(m, raws[i], d)
  }

  lemma RawMeaning(m: ResourceSqlMapping, raw: string, row: Row, d: Dialect)
    requires RemainderLast(m.path) && !RawOutcome(m, raw).Rejected? && FaithfulRaw(m, raw, d)
    ensures RawMatches(raw, RowUrn(m, row)) <==>
            RawOutcome(m, raw).Compiled? && AllHold(RawOutcome(m, raw).clauses, row, d)
  {
    ParsePrint(raw, Parse(raw).value);
    PatternMeaning(m, Parse(raw).value, row, d);
  }

  lemma {:induction false} AllowMeaning(m: ResourceSqlMapping, allow: seq<string>, row: Row, d: Dialect)
    requires RemainderLast(m.path) && AllowOutcome(m, allow).Ok? && FaithfulList(m, allow, d)
    ensures AnyHold(AllowOutcome(m, allow).value, row, d) <==> AnyMatch(allow, RowUrn(m, row))
  {
    hide AllHold, RawOutcome, RawMatches, RowUrn, Faithful, Parse;
    if allow != [] {
      var init, last := allow[..|allow| - 1], allow[|allow| - 1];
      AllowMeaning(m, init, row, d);
      assert FaithfulRaw(m, last, d);
      RawMeaning(m, last, row, d);
      assert allow == init + [last];
      AnyMatchConcat(init, [last], RowUrn(m, row));
      AnyMatchOne(last, RowUrn(m, row));
      var css, o := AllowOutcome(m, init).value, RawOutcome(m, last);
      if o.Compiled? {
        AnyHoldSnoc(css, o.clauses, row, d);
      } else {
        assert css + [] == css;
      }
    }
  }

  lemma DenyStep(scope: SqlScope, e: Cond, deny: seq<Outcome>)
    requires deny != [] && deny[0].Compiled? && deny[0].clauses != []
    ensures var cs := deny[0].clauses;
      var next, f := AndNot(scope, cs), AndNotTree(e, cs, |scope.args|);
      && DenyFold(scope, deny) == DenyFold(next, deny[1..])
      && DenyTree(e, |scope.args|, deny) == DenyTree(f, |next.args|, deny[1..])
  {
  }

  lemma {:induction false} DenyDenotes(scope: SqlScope, e: Cond, deny: seq<Outcome>)
    requires Denotes(scope.where, scope.args, e, 0) && DenyFold(scope, deny).Ok?
    ensures var r := DenyFold(scope, deny).value; Denotes(r.where, r.args, DenyTree(e, |scope.args|, deny), 0)
    decreases |deny|
  {
    if deny != [] {
      var o, rest := deny[0], deny[1..];
      if o.NoRow? {
        DenyDenotes(scope, e, rest);
      } else if o.clauses == [] {
        ConstantDenotes(0);
      } else {
        AndNotScope(scope, e, o.clauses);
        DenyDenotes(AndNot(scope, o.clauses), AndNotTree(e, o.clauses, |scope.args|), rest);
        DenyStep(scope, e, deny);
      }
    }
  }

  /** Some deny pattern selects the row. */
  predicate Denied(deny: seq<Outcome>, row: Row, d: Dialect)
  {
    exists i :: 0 <= i < |deny| && OutcomeHolds(deny[i], row, d)
  }

  predicate OutcomeHolds(o: Outcome, row: Row, d: Dialect)
  {
    o.Compiled? && AllHold(o.clauses, row, d)
  }

  lemma DeniedCons(deny: seq<Outcome>, row: Row, d: Dialect)
    requires deny != []
    ensures Denied(deny, row, d) <==> OutcomeHolds(deny[0], row, d) || Denied(deny[1..], row, d)
  {
    if Denied(deny, row, d) {
      var i :| 0 <= i < |deny| && OutcomeHolds(deny[i], row, d);
      assert i > 0 ==> deny[1..][i - 1] == deny[i];
    }
    if Denied(deny[1..], row, d) {
      var i :| 0 <= i < |deny[1..]| && OutcomeHolds(deny[1..][i], row, d);
      assert deny[1..][i] == deny[i + 1];
    }
  }

  /** Each deny pattern narrows the meaning by the rows it selects. */
  lemma {:induction false} DenyTruth(scope: SqlScope, e: Cond, deny: seq<Outcome>, row: Row, d: Dialect)
    requires Denotes(scope.where, scope.args, e, 0) && DenyFold(scope, deny).Ok?
    ensures Eval(DenyTree(e, |scope.args|, deny), row, DenyFold(scope, deny).value.args, d) <==>
            Eval(e, row, scope.args, d) && !Denied(deny, row, d)
    decreases |deny|
  {
    if deny != [] {
      var o, rest := deny[0], deny[1..];
      DeniedCons(deny, row, d);
      if o.NoRow? {
        DenyTruth(scope, e, rest, row, d);
      } else if o.clauses == [] {
        assert AllHold(o.clauses, row, d);
      } else {
        AndNotScope(scope, e, o.clauses);
        AndNotTruth(scope.args, e, o.clauses, row, d);
        DenyTruth(AndNot(scope, o.clauses), AndNotTree(e, o.clauses, |scope.args|), rest, row, d);
        DenyStep(scope, e, deny);
      }
    }
  }

  /** In a list that is not refused outright, the patterns that select the row are those that cover its resource. */
  lemma DeniedMeaning(m: ResourceSqlMapping, deny: seq<string>, row: Row, d: Dialect)
    requires RemainderLast(m.path) && FaithfulList(m, deny, d)
    ensures Denied(Outcomes(m, deny), row, d) ==> AnyMatch(deny, RowUrn(m, row))
    ensures AnyMatch(deny, RowUrn(m, row)) && (forall i :: 0 <= i < |deny| ==> !RawOutcome(m, deny[i]).Rejected?) ==>
            Denied(Outcomes(m, deny), row, d)
  {
    var os, urn := Outcomes(m, deny), RowUrn(m, row);
    if Denied(os, row, d) {
      var i :| 0 <= i < |os| && OutcomeHolds(os[i], row, d);
      RawMeaning(m, deny[i], row, d);
      assert RawMatches(deny[i], urn);
    }
    if AnyMatch(deny, urn) && (forall i :: 0 <= i < |deny| ==> !RawOutcome(m, deny[i]).Rejected?) {
      var i :| 0 <= i < |deny| && RawMatches(deny[i], urn);
      RawMeaning(m, deny[i], row, d);
      assert OutcomeHolds(os[i], row, d);
    }
  }

  /** A successful fold met no refused pattern before it stopped; it stops early only when every row is denied. */
  lemma {:induction false} FoldStops(scope: SqlScope, deny: seq<Outcome>)
    requires DenyFold(scope, deny).Ok?
    ensures (exists k :: 0 <= k < |deny| && deny[k] == Compiled([])) || (forall i :: 0 <= i < |deny| ==> !deny[i].Rejected?)
    decreases |deny|
  {
    if deny != [] && deny[0] != Compiled([]) {
      var next := if deny[0].NoRow? then scope else AndNot(scope, deny[0].clauses);
      FoldStops(next, deny[1..]);
      if exists k :: 0 <= k < |deny[1..]| && deny[1..][k] == Compiled([]) {
        var k :| 0 <= k < |deny[1..]| && deny[1..][k] == Compiled([]);
        assert deny[k + 1] == Compiled([]);
      } else {
        forall i | 0 <= i < |deny| ensures !deny[i].Rejected? {
          if i > 0 { assert deny[i] == deny[1..][i - 1]; }
        }
      }
    }
  }

  // ----- Names -----

  ghost predicate GoodMapping(m: ResourceSqlMapping)
  {
    RemainderLast(m.path) && forall c :: c in Columns(m) ==> GoodColumn(c)
  }

  lemma {:induction false} ConjNames(cs: seq<Clause>, n: nat)
    requires GoodClauses(cs)
    ensures GoodNames(ConjTree(cs, n))
  {
    if cs != [] {
      ConjNames(cs[..|cs| - 1], n);
      ClauseNames(cs[|cs| - 1], n);
      ClauseNames(cs[|cs| - 1], n + |ArgsOf(cs[..|cs| - 1])|);
    }
  }

  lemma ClauseNames(c: Clause, n: nat)
    requires GoodColumn(c.col)
    ensures GoodNames(ClauseTree(c, n))
  {
    if c.Under? {
      var x, y := Compare(Column(c.col), Param(n)), Like(Column(c.col), Param(n + 1));
      assert GoodNames(x) && GoodNames(y);
      assert GoodNames(Or(x, y));
    }
  }

  lemma {:induction false} DisjNames(css: seq<seq<Clause>>, n: nat)
    requires css != [] && forall i :: 0 <= i < |css| ==> GoodClauses(css[i])
    ensures GoodNames(OrTree(css, n))
  {
    var init, last := css[..|css| - 1], css[|css| - 1];
    if init == [] {
      ConjNames(last, n);
    } else {
      DisjNames(init, n);
      ConjNames(last, n + |AllArgs(init)|);
    }
  }

  lemma OutcomeNames(m: ResourceSqlMapping, raw: string)
    requires GoodMapping(m) && RawOutcome(m, raw).Compiled?
    ensures GoodClauses(RawOutcome(m, raw).clauses)
  {
    var p, cs := Parse(raw).value, RawOutcome(m, raw).clauses;
    PatternClauseColumns(m, p);
    forall i | 0 <= i < |cs| ensures GoodColumn(cs[i].col) {
      assert ClauseColumns(cs)[i] in Columns(m);
    }
  }

  lemma {:induction false} AllowNames(m: ResourceSqlMapping, allow: seq<string>)
    requires GoodMapping(m) && AllowOutcome(m, allow).Ok?
    ensures forall i :: 0 <= i < |AllowOutcome(m, allow).value| ==> GoodClauses(AllowOutcome(m, allow).value[i])
  {
    if allow != [] {
      AllowNames(m, allow[..|allow| - 1]);
      if RawOutcome(m, allow[|allow| - 1]).Compiled? {
        OutcomeNames(m, allow[|allow| - 1]);
      }
    }
  }

  lemma {:induction false} DenyNames(e: Cond, k: nat, deny: seq<Outcome>)
    requires GoodNames(e) && forall i :: 0 <= i < |deny| && deny[i].Compiled? ==> GoodClauses(deny[i].clauses)
    ensures GoodNames(DenyTree(e, k, deny))
    decreases |deny|
  {
    if deny != [] {
      var o, rest := deny[0], deny[1..];
      assert forall i :: 0 <= i < |rest| ==> rest[i] == deny[i + 1];
      if o.NoRow? {
        DenyNames(e, k, rest);
      } else if o.Compiled? && o.clauses != [] {
        ConjNames(o.clauses, k);
        assert GoodNames(Not(Group(ConjTree(o.clauses, k))));
        DenyNames(AndNotTree(e, o.clauses, k), k + |ArgsOf(o.clauses)|, rest);
      }
    }
  }

  lemma ScopeNames(m: ResourceSqlMapping, allow: seq<string>, deny: seq<string>)
    requires GoodMapping(m)
    ensures GoodNames(ScopeTree(m, allow, deny))
  {
    var css := AllowOutcome(m, allow);
    if css.Ok? && css.value != [] {
      AllowNames(m, allow);
      if |css.value| == 1 {
        ConjNames(css.value[0], 0);
      } else if [] !in css.value {
        DisjNames(css.value, 0);
      }
      var os := Outcomes(m, deny);
      forall i | 0 <= i < |os| && os[i].Compiled? ensures GoodClauses(os[i].clauses) { OutcomeNames(m, deny[i]); }
      DenyNames(AllowTree(css.value), |OrScope(css.value).args|, os);
    }
  }

  // ----- Main results -----

  lemma CompiledScope(m: ResourceSqlMapping, allow: seq<string>, deny: seq<string>, row: Row, d: Dialect)
    requires RemainderLast(m.path) && CompileSpec(m, allow, deny).Ok?
    ensures var r, f := CompileSpec(m, allow, deny).value, ScopeTree(m, allow, deny);
      && Denotes(r.where, r.args, f, 0)
      && (FaithfulList(m, allow, d) && FaithfulList(m, deny, d) ==>
            (Eval(f, row, r.args, d) <==> Permitted(allow, deny, RowUrn(m, row))))
  {
    var css := AllowOutcome(m, allow).value;
    if FaithfulList(m, allow, d) {
      AllowMeaning(m, allow, row, d);
    }
    if css == [] {
      ConstantDenotes(0);
    } else {
      AllowDenotes(css);
      AllowTruth(css, row, d);
      var os := Outcomes(m, deny);
      DenyDenotes(OrScope(css), AllowTree(css), os);
      DenyTruth(OrScope(css), AllowTree(css), os, row, d);
      if FaithfulList(m, deny, d) {
        FoldStops(OrScope(css), os);
        if exists k :: 0 <= k < |os| && os[k] == Compiled([]) {
          var k :| 0 <= k < |os| && os[k] == Compiled([]);
          assert OutcomeHolds(os[k], row, d);
        }
        DeniedMeaning(m, deny, row, d);
      }
    }
  }

  /**
   Read back under SQL precedence, the concatenated text is the intended tree, and its placeholders,
   numbered from left to right, are as many as the arguments.
   */
  lemma TextReadsBack(m: ResourceSqlMapping, allow: seq<string>, deny: seq<string>)
    requires GoodMapping(m) && CompileSpec(m, allow, deny).Ok?
    ensures var r, f := CompileSpec(m, allow, deny).value, ScopeTree(m, allow, deny);
      ParseWhere(r.where) == Some(f) && Numbered(f, 0) && Holes(f) == |r.args|
  {
    CompiledScope(m, allow, deny, c => "", NoEscape);
    ScopeNames(m, allow, deny);
    ReadsBack(ScopeTree(m, allow, deny));
  }

  /** The main result: the compiled WHERE text selects a row exactly when the policy permits its resource. */
  lemma ScopeMeansPolicy(m: ResourceSqlMapping, allow: seq<string>, deny: seq<string>, row: Row, d: Dialect)
    requires GoodMapping(m) && FaithfulList(m, allow, d) && FaithfulList(m, deny, d)
    ensures CompileSpec(m, allow, deny).Ok? ==>
            (Selects(CompileSpec(m, allow, deny).value, row, d) <==> Permitted(allow, deny, RowUrn(m, row)))
  {
    if CompileSpec(m, allow, deny).Ok? {
      CompiledScope(m, allow, deny, row, d);
      TextReadsBack(m, allow, deny);
    }
  }
}
