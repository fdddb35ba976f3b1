/**
 The fragment of SQL conditions the scope compilers emit: a lexer, a recursive-descent parser with
 the usual precedence (NOT over AND over OR, AND and OR associating to the left), positional
 parameters numbered from left to right, and an evaluator over rows.
 */
module Sql {
  import opened Strings

  // ----- Lexing -----

  datatype Token = LParen | RParen | Equal | Hole | KwAnd | KwOr | KwNot | KwLike | Word(text: string)

  /** Characters of numerals and of (possibly qualified) column names. */
  predicate IsWordChar(c: char)
  {
    'a' <= c <= 'z' || 'A' <= c <= 'Z' || IsDigit(c) || c == '_' || c == '.'
  }

  function UpperChar(c: char): char
  {
    if 'a' <= c <= 'z' then c - 'a' + 'A' else c
  }

  function Upper(s: string): (r: string)
    ensures |r| == |s|
  {
    seq(|s|, i requires 0 <= i < |s| => UpperChar(s[i]))
  }

  /** Keywords are recognised whatever their letter case. */
  function WordToken(w: string): Token
  {
    var u := Upper(w);
    if u == "AND" then KwAnd else if u == "OR" then KwOr else if u == "NOT" then KwNot
    else if u == "LIKE" then KwLike else Word(w)
  }

  /** Length of the longest run of word characters at the front. */
  function WordLength(s: string): (k: nat)
    ensures k <= |s|
    ensures forall i :: 0 <= i < k ==> IsWordChar(s[i])
    ensures k < |s| ==> !IsWordChar(s[k])
  {
    if s == "" || !IsWordChar(s[0]) then 0 else 1 + WordLength(s[1..])
  }

  /** Length of the first lexeme: a whole word, or one character. */
  function LexemeLength(s: string): (k: nat)
    requires s != ""
    ensures 1 <= k <= |s|
  {
    if IsWordChar(s[0]) then WordLength(s) else 1
  }

  /** The tokens of one lexeme: none for a space. */
  function Lexeme(s: string): Option<seq<Token>>
    requires s != ""
  {
    if s[0] == ' ' then Some([])
    else if s[0] == '(' then Some([LParen])
    else if s[0] == ')' then Some([RParen])
    else if s[0] == '=' then Some([Equal])
    else if s[0] == '?' then Some([Hole])
    else if IsWordChar(s[0]) then Some([WordToken(s)])
    else None
  }

  function Concat(a: Option<seq<Token>>, b: Option<seq<Token>>): Option<seq<Token>>
  {
    if a.Some? && b.Some? then Some(a.value + b.value) else None
  }

  function Lex(s: string): Option<seq<Token>>
    decreases |s|
  {
    if s == "" then Some([])
    else
      var k := LexemeLength(s);
      Concat(Lexeme(s[..k]), Lex(s[k..]))
  }

  /** `a` and `b` lex separately when no word would run across the seam. */
  predicate Seam(a: string, b: string)
  {
    a == "" || b == "" || !IsWordChar(a[|a| - 1]) || !IsWordChar(b[0])
  }

  lemma {:induction false} WordLengthAppend(a: string, b: string)
    requires a != "" && Seam(a, b)
    ensures WordLength(a + b) == WordLength(a)
  {
    assert (a + b)[1..] == a[1..] + b;
    if IsWordChar(a[0]) {
      if |a| > 1 {
        WordLengthAppend(a[1..], b);
      } else {
        assert a[1..] + b == b;
      }
    }
  }

  lemma LexemeLengthAppend(a: string, b: string)
    requires a != "" && Seam(a, b)
    ensures LexemeLength(a + b) == LexemeLength(a)
  {
    WordLengthAppend(a, b);
  }

  lemma {:induction false} LexAppend(a: string, b: string)
    requires Seam(a, b)
    ensures Lex(a + b) == Concat(Lex(a), Lex(b))
    decreases |a|
  {
    if a == "" {
      assert a + b == b;
      assert Lex(b).Some? ==> [] + Lex(b).value == Lex(b).value;
    } else {
      var k := LexemeLength(a);
      var rest := a[k..];
      LexemeLengthAppend(a, b);
      hide LexemeLength, Lexeme, IsWordChar, Concat;
      assert (a + b)[..k] == a[..k];
      assert (a + b)[k..] == rest + b;
      assert rest != "" ==> rest[|rest| - 1] == a[|a| - 1];
      LexAppend(rest, b);
      ConcatAssociative(Lexeme(a[..k]), Lex(rest), Lex(b));
    }
  }

  lemma ConcatAssociative(a: Option<seq<Token>>, b: Option<seq<Token>>, c: Option<seq<Token>>)
    ensures Concat(a, Concat(b, c)) == Concat(Concat(a, b), c)
  {
    if a.Some? && b.Some? && c.Some? {
      assert a.value + (b.value + c.value) == a.value + b.value + c.value;
    }
  }

  // ----- Syntax trees -----

  datatype Operand = Column(name: string) | Numeral(text: string) | Param(index: nat)

  datatype Cond =
    | Compare(left: Operand, right: Operand)
    | Like(subject: Operand, pattern: Operand)
    | Group(inner: Cond)
    | Not(negated: Cond)
    | And(first: Cond, second: Cond)
    | Or(either: Cond, other: Cond)

  function Tokens(e: Cond): seq<Token>
  {
    match e
    case Compare(l, r) => [OperandToken(l), Equal, OperandToken(r)]
    case Like(l, r) => [OperandToken(l), KwLike, OperandToken(r)]
    case Group(x) => [LParen] + Tokens(x) + [RParen]
    case Not(x) => [KwNot] + Tokens(x)
    case And(l, r) => Tokens(l) + [KwAnd] + Tokens(r)
    case Or(l, r) => Tokens(l) + [KwOr] + Tokens(r)
  }

  function OperandToken(o: Operand): Token
  {
    match o
    case Column(n) => Word(n)
    case Numeral(w) => Word(w)
    case Param(_) => Hole
  }

  /** Number of placeholders. */
  function Holes(e: Cond): nat
  {
    match e
    case Compare(l, r) => OperandHoles(l) + OperandHoles(r)
    case Like(l, r) => OperandHoles(l) + OperandHoles(r)
    case Group(x) => Holes(x)
    case Not(x) => Holes(x)
    case And(l, r) => Holes(l) + Holes(r)
    case Or(l, r) => Holes(l) + Holes(r)
  }

  function OperandHoles(o: Operand): nat { if o.Param? then 1 else 0 }

  /** Placeholders carry the numbers n, n+1, ... from left to right. */
  predicate Numbered(e: Cond, n: nat)
  {
    match e
    case Compare(l, r) => OperandNumbered(l, n) && OperandNumbered(r, n + OperandHoles(l))
    case Like(l, r) => OperandNumbered(l, n) && OperandNumbered(r, n + OperandHoles(l))
    case Group(x) => Numbered(x, n)
    case Not(x) => Numbered(x, n)
    case And(l, r) => Numbered(l, n) && Numbered(r, n + Holes(l))
    case Or(l, r) => Numbered(l, n) && Numbered(r, n + Holes(l))
  }

  predicate OperandNumbered(o: Operand, n: nat) { o.Param? ==> o.index == n }

  predicate IsNumeral(w: string) { w != "" && IsDigit(w[0]) }

  /** Binding strength: OR 0, AND 1, NOT 2, everything else 3. */
  function Rank(e: Cond): nat
  {
    match e
    case Or(_, _) => 0
    case And(_, _) => 1
    case Not(_) => 2
    case _ => 3
  }

  /** Trees whose printed form needs no further parentheses. */
  predicate Wf(e: Cond)
  {
    match e
    case Compare(_, _) => true
    case Like(_, _) => true
    case Group(x) => Wf(x)
    case Not(x) => Wf(x) && Rank(x) >= 2
    case And(l, r) => Wf(l) && Rank(l) >= 1 && Wf(r) && Rank(r) >= 2
    case Or(l, r) => Wf(l) && Wf(r) && Rank(r) >= 1
  }

  /** Column names the lexer reads as one identifier. */
  predicate GoodColumn(w: string)
  {
    w != "" && (forall i :: 0 <= i < |w| ==> IsWordChar(w[i])) && !IsNumeral(w) && WordToken(w) == Word(w)
  }

  predicate GoodOperand(o: Operand)
  {
    match o
    case Column(n) => GoodColumn(n)
    case Numeral(w) => w == "0" || w == "1"
    case Param(_) => true
  }

  predicate GoodNames(e: Cond)
  {
    match e
    case Compare(l, r) => GoodOperand(l) && GoodOperand(r)
    case Like(l, r) => GoodOperand(l) && GoodOperand(r)
    case Group(x) => GoodNames(x)
    case Not(x) => GoodNames(x)
    case And(l, r) => GoodNames(l) && GoodNames(r)
    case Or(l, r) => GoodNames(l) && GoodNames(r)
  }

  // ----- Parsing -----

  datatype Parsed = Fail | Done(cond: Cond, rest: seq<Token>, next: nat)

  function ParseOperand(t: Token, n: nat): Option<Operand>
  {
    match t
    case Hole => Some(Param(n))
    case Word(w) => Some(if IsNumeral(w) then Numeral(w) else Column(w))
    case _ => None
  }

  function ParseComparison(ts: seq<Token>, n: nat): (r: Parsed)
    ensures r.Done? ==> |r.rest| < |ts|
  {
    if |ts| < 3 then Fail
    else
      var l := ParseOperand(ts[0], n);
      if l.None? then Fail
      else
        var m := n + OperandHoles(l.value);
        var r := ParseOperand(ts[2], m);
        if r.None? then Fail
        else if ts[1] == Equal then Done(Compare(l.value, r.value), ts[3..], m + OperandHoles(r.value))
        else if ts[1] == KwLike then Done(Like(l.value, r.value), ts[3..], m + OperandHoles(r.value))
        else Fail
  }

  function ParseAtom(ts: seq<Token>, n: nat): (r: Parsed)
    ensures r.Done? ==> |r.rest| < |ts|
    decreases |ts|, 0
  {
    if ts != [] && ts[0] == LParen then
      var p := ParseOr(ts[1..], n);
      if p.Done? && p.rest != [] && p.rest[0] == RParen then Done(Group(p.cond), p.rest[1..], p.next) else Fail
    else ParseComparison(ts, n)
  }

  function ParseNot(ts: seq<Token>, n: nat): (r: Parsed)
    ensures r.Done? ==> |r.rest| < |ts|
    decreases |ts|, 1
  {
    if ts != [] && ts[0] == KwNot then
      var p := ParseNot(ts[1..], n);
      if p.Done? then Done(Not(p.cond), p.rest, p.next) else Fail
    else ParseAtom(ts, n)
  }

  function AndTail(acc: Cond, ts: seq<Token>, n: nat): (r: Parsed)
    ensures r.Done? ==> |r.rest| <= |ts|
    decreases |ts|, 2
  {
    if ts != [] && ts[0] == KwAnd then
      var p := ParseNot(ts[1..], n);
      if p.Done? then AndTail(And(acc, p.cond), p.rest, p.next) else Fail
    else Done(acc, ts, n)
  }

  function ParseAnd(ts: seq<Token>, n: nat): (r: Parsed)
    ensures r.Done? ==> |r.rest| < |ts|
    decreases |ts|, 3
  {
    var p := ParseNot(ts, n);
    if p.Done? then AndTail(p.cond, p.rest, p.next) else Fail
  }

  function OrTail(acc: Cond, ts: seq<Token>, n: nat): (r: Parsed)
    ensures r.Done? ==> |r.rest| <= |ts|
    decreases |ts|, 4
  {
    if ts != [] && ts[0] == KwOr then
      var p := ParseAnd(ts[1..], n);
      if p.Done? then OrTail(Or(acc, p.cond), p.rest, p.next) else Fail
    else Done(acc, ts, n)
  }

  function ParseOr(ts: seq<Token>, n: nat): (r: Parsed)
    ensures r.Done? ==> |r.rest| < |ts|
    decreases |ts|, 5
  {
    var p := ParseAnd(ts, n);
    if p.Done? then OrTail(p.cond, p.rest, p.next) else Fail
  }

  lemma ReadComparison(e: Cond, n: nat, rest: seq<Token>)
    requires GoodNames(e) && Numbered(e, n) && (e.Compare? || e.Like?)
    ensures ParseComparison(Tokens(e) + rest, n) == Done(e, rest, n + Holes(e))
  {
    assert (Tokens(e) + rest)[3..] == rest;
  }

  lemma {:induction false} ReadAtom(e: Cond, n: nat, rest: seq<Token>)
    requires GoodNames(e) && Wf(e) && Numbered(e, n) && Rank(e) == 3
    ensures ParseAtom(Tokens(e) + rest, n) == Done(e, rest, n + Holes(e))
    decreases e, 0
  {
    hide ParseOr, ParseAnd, ParseNot, AndTail, ParseComparison, GoodOperand;
    var ts := Tokens(e) + rest;
    if e.Group? {
      assert ts[1..] == Tokens(e.inner) + ([RParen] + rest);
      ReadOr(e.inner, n, [RParen] + rest);
      assert ([RParen] + rest)[1..] == rest;
    } else {
      ReadComparison(e, n, rest);
    }
  }

  lemma {:induction false} ReadNot(e: Cond, n: nat, rest: seq<Token>)
    requires GoodNames(e) && Wf(e) && Numbered(e, n) && Rank(e) >= 2
    ensures ParseNot(Tokens(e) + rest, n) == Done(e, rest, n + Holes(e))
    decreases e, 1
  {
    hide ParseAtom, GoodOperand;
    if e.Not? {
      assert (Tokens(e) + rest)[1..] == Tokens(e.negated) + rest;
      ReadNot(e.negated, n, rest);
    } else {
      ReadAtom(e, n, rest);
    }
  }

  lemma AndTailStep(acc: Cond, ts: seq<Token>, n: nat)
    requires ts != [] && ts[0] == KwAnd && ParseNot(ts[1..], n).Done?
    ensures var p := ParseNot(ts[1..], n); AndTail(acc, ts, n) == AndTail(And(acc, p.cond), p.rest, p.next)
  {
  }

  lemma {:induction false} ReadAnd(e: Cond, n: nat, rest: seq<Token>)
    requires GoodNames(e) && Wf(e) && Numbered(e, n) && Rank(e) >= 1
    ensures ParseAnd(Tokens(e) + rest, n) == AndTail(e, rest, n + Holes(e))
    decreases e, 2
  {
    hide ParseNot, GoodOperand;
    if e.And? {
      hide ParseAnd, AndTail, OperandNumbered, OperandHoles, OperandToken;
      var tail := [KwAnd] + (Tokens(e.second) + rest);
      assert Tokens(e) + rest == Tokens(e.first) + tail;
      ReadAnd(e.first, n, tail);
      assert tail[1..] == Tokens(e.second) + rest;
      ReadNot(e.second, n + Holes(e.first), rest);
      AndTailStep(e.first, tail, n + Holes(e.first));
    } else {
      ReadNot(e, n, rest);
    }
  }

  lemma OrTailStep(acc: Cond, ts: seq<Token>, n: nat)
    requires ts != [] && ts[0] == KwOr && ParseAnd(ts[1..], n).Done?
    ensures var p := ParseAnd(ts[1..], n); OrTail(acc, ts, n) == OrTail(Or(acc, p.cond), p.rest, p.next)
  {
  }

  lemma ReadLastAnd(e: Cond, n: nat, rest: seq<Token>)
    requires GoodNames(e) && Wf(e) && Numbered(e, n) && Rank(e) >= 1
    requires rest == [] || rest[0] != KwAnd
    ensures ParseAnd(Tokens(e) + rest, n) == Done(e, rest, n + Holes(e))
    decreases e, 3
  {
    hide ParseAnd, Tokens, GoodNames;
    ReadAnd(e, n, rest);
  }

  lemma {:induction false} ReadOr(e: Cond, n: nat, rest: seq<Token>)
    requires GoodNames(e) && Wf(e) && Numbered(e, n)
    requires rest == [] || rest[0] != KwAnd
    ensures ParseOr(Tokens(e) + rest, n) == OrTail(e, rest, n + Holes(e))
    decreases e, 4
  {
    hide ParseAnd, GoodOperand, OperandNumbered, OperandHoles, OperandToken;
    if e.Or? {
      hide ParseOr, OrTail;
      var tail := [KwOr] + (Tokens(e.other) + rest);
      assert Tokens(e) + rest == Tokens(e.either) + tail;
      ReadOr(e.either, n, tail);
      assert tail[1..] == Tokens(e.other) + rest;
      ReadLastAnd(e.other, n + Holes(e.either), rest);
      OrTailStep(e.either, tail, n + Holes(e.either));
    } else {
      ReadLastAnd(e, n, rest);
    }
  }

  /** The tree a condition text denotes, if it is one. */
  function ParseWhere(text: string): Option<Cond>
  {
    var ts := Lex(text);
    if ts.None? then None
    else
      var p := ParseOr(ts.value, 0);
      if p.Done? && p.rest == [] then Some(p.cond) else None
  }

  // ----- Concrete text -----

  function OperandText(o: Operand): string
  {
    match o
    case Column(n) => n
    case Numeral(w) => w
    case Param(_) => "?"
  }

  /** The tree as the compilers spell it: constants are compared without spaces. */
  function Text(e: Cond): string
  {
    match e
    case Compare(l, r) => OperandText(l) + (if l.Numeral? then "=" else " = ") + OperandText(r)
    case Like(l, r) => OperandText(l) + " LIKE " + OperandText(r)
    case Group(x) => "(" + Text(x) + ")"
    case Not(x) => "NOT " + Text(x)
    case And(l, r) => Text(l) + " AND " + Text(r)
    case Or(l, r) => Text(l) + " OR " + Text(r)
  }

  lemma {:induction false} LexWord(w: string)
    requires w != "" && forall i :: 0 <= i < |w| ==> IsWordChar(w[i])
    ensures Lex(w) == Some([WordToken(w)])
  {
    assert WordLength(w) == |w|;
    assert w[..|w|] == w && w[|w|..] == "";
    assert [WordToken(w)] + [] == [WordToken(w)];
  }

  lemma LexChar(c: char)
    requires c in " ()=?"
    ensures Lex([c]) == Lexeme([c])
  {
    assert [c][..1] == [c] && [c][1..] == "";
    var ts := Lexeme([c]).value;
    assert ts + [] == ts;
  }

  lemma LexOperand(o: Operand)
    requires GoodOperand(o)
    ensures Lex(OperandText(o)) == Some([OperandToken(o)])
  {
    if o.Param? {
      LexChar('?');
    } else {
      LexWord(OperandText(o));
      if o.Numeral? {
        assert |Upper(o.text)| == 1;
      }
    }
  }

  lemma LexKeyword(w: string, t: Token)
    requires (w, t) in [("AND", KwAnd), ("OR", KwOr), ("NOT", KwNot), ("LIKE", KwLike)]
    ensures Lex(w) == Some([t])
  {
    hide Lex;
    assert forall i :: 0 <= i < |w| ==> IsWordChar(w[i]);
    LexWord(w);
    assert Upper(w) == w;
  }

  /** `sep` starts and ends with a character that no word can contain. */
  predicate Separates(sep: string)
  {
    sep != "" && !IsWordChar(sep[0]) && !IsWordChar(sep[|sep| - 1])
  }

  lemma Sandwich(a: string, ts: seq<Token>, sep: string, us: seq<Token>, b: string, vs: seq<Token>)
    requires Lex(a) == Some(ts) && Lex(sep) == Some(us) && Lex(b) == Some(vs)
    requires Separates(sep)
    ensures Lex(a + sep + b) == Some(ts + us + vs)
  {
    LexAppend(a, sep);
    LexAppend(a + sep, b);
  }

  lemma LexSpaced(w: string, sp: string, t: Token)
    requires Lex(w) == Some([t]) && sp == " "
    ensures Lex(sp + w + sp) == Some([t])
  {
    LexChar(' ');
    LexAppend(sp, w);
    LexAppend(sp + w, sp);
    assert [] + [t] + [] == [t];
  }

  lemma LexAnd()
    ensures Lex(" AND ") == Some([KwAnd])
  {
    LexKeyword("AND", KwAnd);
    LexSpaced("AND", " ", KwAnd);
    assert " " + "AND" + " " == " AND ";
  }

  lemma LexOr()
    ensures Lex(" OR ") == Some([KwOr])
  {
    LexKeyword("OR", KwOr);
    LexSpaced("OR", " ", KwOr);
    assert " " + "OR" + " " == " OR ";
  }

  lemma LexLike()
    ensures Lex(" LIKE ") == Some([KwLike])
  {
    LexKeyword("LIKE", KwLike);
    LexSpaced("LIKE", " ", KwLike);
    assert " " + "LIKE" + " " == " LIKE ";
  }

  lemma LexEquals()
    ensures Lex(" = ") == Some([Equal])
  {
    LexChar('=');
    LexSpaced("=", " ", Equal);
    assert " " + "=" + " " == " = ";
  }

  lemma LexNot()
    ensures Lex("NOT ") == Some([KwNot])
  {
    LexKeyword("NOT", KwNot);
    LexChar(' ');
    LexAppend("NOT", " ");
    assert "NOT" + " " == "NOT ";
    assert [KwNot] + [] == [KwNot];
  }

  lemma LexComparison(e: Cond)
    requires GoodNames(e) && (e.Compare? || e.Like?)
    ensures Lex(Text(e)) == Some(Tokens(e))
  {
    var l, r := if e.Compare? then e.left else e.subject, if e.Compare? then e.right else e.pattern;
    LexOperand(l);
    LexOperand(r);
    var op := if e.Like? then KwLike else Equal;
    assert Tokens(e) == [OperandToken(l)] + [op] + [OperandToken(r)];
    if e.Like? {
      LexLike();
      Sandwich(OperandText(l), [OperandToken(l)], " LIKE ", [KwLike], OperandText(r), [OperandToken(r)]);
    } else if l.Numeral? {
      LexChar('=');
      Sandwich(OperandText(l), [OperandToken(l)], "=", [Equal], OperandText(r), [OperandToken(r)]);
    } else {
      LexEquals();
      Sandwich(OperandText(l), [OperandToken(l)], " = ", [Equal], OperandText(r), [OperandToken(r)]);
    }
  }

  lemma LexPrefixed(a: string, ts: seq<Token>, b: string, us: seq<Token>)
    requires Lex(a) == Some(ts) && Lex(b) == Some(us) && a != "" && !IsWordChar(a[|a| - 1])
    ensures Lex(a + b) == Some(ts + us)
  {
    LexAppend(a, b);
  }

  lemma LexGroup(s: string, ts: seq<Token>)
    requires Lex(s) == Some(ts)
    ensures Lex("(" + s + ")") == Some([LParen] + ts + [RParen])
  {
    LexChar('('); LexChar(')');
    LexPrefixed("(", [LParen], s, ts);
    LexAppend("(" + s, ")");
  }

  /** The spelled tree lexes to the tree's tokens. */
  lemma {:induction false} LexText(e: Cond)
    requires GoodNames(e)
    ensures Lex(Text(e)) == Some(Tokens(e))
  {
    match e
    case Compare(_, _) => LexComparison(e);
    case Like(_, _) => LexComparison(e);
    case Group(x) =>
      LexText(x);
      LexGroup(Text(x), Tokens(x));
    case Not(x) =>
      LexText(x);
      LexNot();
      LexPrefixed("NOT ", [KwNot], Text(x), Tokens(x));
    case And(l, r) =>
      LexText(l); LexText(r);
      LexAnd();
      Sandwich(Text(l), Tokens(l), " AND ", [KwAnd], Text(r), Tokens(r));
    case Or(l, r) =>
      LexText(l); LexText(r);
      LexOr();
      Sandwich(Text(l), Tokens(l), " OR ", [KwOr], Text(r), Tokens(r));
  }

  /** Spelling a well-formed, well-numbered tree and reading the text gives the tree back. */
  lemma ReadsBack(e: Cond)
    requires GoodNames(e) && Wf(e) && Numbered(e, 0)
    ensures ParseWhere(Text(e)) == Some(e)
  {
    hide Lex, Tokens, ParseOr, Text, GoodNames;
    LexText(e);
    ReadOr(e, 0, []);
    assert Tokens(e) + [] == Tokens(e);
  }

  // ----- Evaluation -----

  /** One row of the table: the non-null value of every column. */
  type Row = string -> string

  /** Whether a backslash escapes the next character of a LIKE pattern. */
  datatype Dialect = NoEscape | BackslashEscape

  predicate LikeMatches(t: string, p: string, d: Dialect)
    decreases |t| + |p|
  {
    if p == "" then t == ""
    else if p[0] == '%' then LikeMatches(t, p[1..], d) || (t != "" && LikeMatches(t[1..], p, d))
    else if p[0] == '_' then t != "" && LikeMatches(t[1..], p[1..], d)
    else if p[0] == '\\' && d.BackslashEscape? then
      |p| > 1 && t != "" && t[0] == p[1] && LikeMatches(t[1..], p[2..], d)
    else t != "" && t[0] == p[0] && LikeMatches(t[1..], p[1..], d)
  }

  function ValueOf(o: Operand, row: Row, args: seq<string>): string
  {
    match o
    case Column(n) => row(n)
    case Numeral(w) => w
    case Param(i) => if i < |args| then args[i] else ""
  }

  predicate Eval(e: Cond, row: Row, args: seq<string>, d: Dialect)
  {
    match e
    case Compare(l, r) => ValueOf(l, row, args) == ValueOf(r, row, args)
    case Like(l, r) => LikeMatches(ValueOf(l, row, args), ValueOf(r, row, args), d)
    case Group(x) => Eval(x, row, args, d)
    case Not(x) => !Eval(x, row, args, d)
    case And(l, r) => Eval(l, row, args, d) && Eval(r, row, args, d)
    case Or(l, r) => Eval(l, row, args, d) || Eval(r, row, args, d)
  }

  /** A tree reads only the arguments its placeholders number. */
  lemma {:induction false} EvalFrame(e: Cond, n: nat, row: Row, xs: seq<string>, ys: seq<string>, d: Dialect)
    requires Numbered(e, n)
    requires n + Holes(e) <= |xs| && n + Holes(e) <= |ys|
    requires forall i :: n <= i < n + Holes(e) ==> xs[i] == ys[i]
    ensures Eval(e, row, xs, d) == Eval(e, row, ys, d)
  {
    hide LikeMatches;
    match e
    case Compare(_, _) =>
    case Like(_, _) =>
    case Group(x) => EvalFrame(x, n, row, xs, ys, d);
    case Not(x) => EvalFrame(x, n, row, xs, ys, d);
    case And(l, r) =>
      EvalFrame(l, n, row, xs, ys, d);
      EvalFrame(r, n + Holes(l), row, xs, ys, d);
    case Or(l, r) =>
      EvalFrame(l, n, row, xs, ys, d);
      EvalFrame(r, n + Holes(l), row, xs, ys, d);
  }

  // ----- LIKE with an unescaped prefix -----

  predicate LikeSpecial(c: char, d: Dialect)
  {
    c == '%' || c == '_' || (c == '\\' && d.BackslashEscape?)
  }

  predicate Plain(p: string, d: Dialect)
  {
    forall i :: 0 <= i < |p| ==> !LikeSpecial(p[i], d)
  }

  lemma {:induction false} LikeAnything(t: string, d: Dialect)
    ensures LikeMatches(t, "%", d)
  {
    if t == "" {
      assert LikeMatches(t, "%"[1..], d);
    } else {
      LikeAnything(t[1..], d);
    }
  }

  lemma {:induction false} LikePlain(t: string, p: string, q: string, d: Dialect)
    requires Plain(p, d)
    ensures LikeMatches(t, p + q, d) <==> p <= t && LikeMatches(t[|p|..], q, d)
  {
    if p == "" {
      assert p + q == q;
      assert t[|p|..] == t;
    } else {
      assert (p + q)[1..] == p[1..] + q;
      if t != "" && t[0] == p[0] {
        assert !LikeSpecial(p[0], d);
        LikePlain(t[1..], p[1..], q, d);
        assert p[1..] <= t[1..] <==> p <= t by {
          if p[1..] <= t[1..] {
            assert p == [p[0]] + p[1..] && t == [t[0]] + t[1..];
            forall i | 0 <= i < |p| ensures p[i] == t[i] {
              if i > 0 { assert p[1..][i - 1] == t[1..][i - 1]; }
            }
          }
        }
        if p <= t {
          assert t[1..][|p[1..]|..] == t[|p|..];
        }
      }
    }
  }

  /** A shortest text that `p/%` accepts, with `x` for every `_`. */
  function Shortest(p: string, d: Dialect): string
    decreases |p|
  {
    if p == "" then "/"
    else if p[0] == '%' then Shortest(p[1..], d)
    else if p[0] == '_' then "x" + Shortest(p[1..], d)
    else if p[0] == '\\' && d.BackslashEscape? then
      if |p| == 1 then "/" else [p[1]] + Shortest(p[2..], d)
    else [p[0]] + Shortest(p[1..], d)
  }

  lemma {:induction false} ShortestMatches(p: string, d: Dialect)
    ensures LikeMatches(Shortest(p, d), p + "/%", d)
    decreases |p|
  {
    var s := Shortest(p, d);
    if p == "" {
      assert p + "/%" == "/%";
      assert "/%"[1..] == "%" && "/"[1..] == "";
      LikeAnything("", d);
    } else if p[0] == '\\' && d.BackslashEscape? {
      if |p| == 1 {
        assert (p + "/%")[2..] == "%" && s[1..] == "";
        LikeAnything("", d);
      } else {
        assert (p + "/%")[2..] == p[2..] + "/%";
        ShortestMatches(p[2..], d);
        assert s[1..] == Shortest(p[2..], d);
      }
    } else {
      assert (p + "/%")[1..] == p[1..] + "/%";
      ShortestMatches(p[1..], d);
      if p[0] != '%' {
        assert s[1..] == Shortest(p[1..], d);
      }
    }
  }

  lemma {:induction false} ShortestShape(p: string, d: Dialect)
    ensures var s := Shortest(p, d); s != "" && s[|s| - 1] == '/' && |s| <= |p| + 1
    ensures Plain(p, d) <==> Shortest(p, d) == p + "/"
    decreases |p|
  {
    if p != "" {
      var s := Shortest(p, d);
      if p[0] == '\\' && d.BackslashEscape? {
        assert LikeSpecial(p[0], d);
        if |p| > 1 {
          ShortestShape(p[2..], d);
        }
        assert |s| < |p + "/"|;
      } else {
        ShortestShape(p[1..], d);
        assert p + "/" == [p[0]] + (p[1..] + "/");
        if p[0] == '%' {
          assert LikeSpecial(p[0], d);
          assert |s| < |p + "/"|;
        } else if p[0] == '_' {
          assert LikeSpecial(p[0], d);
          assert s[0] == 'x' && (p + "/")[0] == '_';
        } else {
          assert !LikeSpecial(p[0], d);
          assert Plain(p, d) <==> Plain(p[1..], d) by {
            if Plain(p[1..], d) {
              forall i | 0 <= i < |p| ensures !LikeSpecial(p[i], d) {
                if i > 0 { assert p[i] == p[1..][i - 1]; }
              }
            }
          }
          if s == p + "/" {
            assert s[1..] == Shortest(p[1..], d) && (p + "/")[1..] == p[1..] + "/";
          }
        }
      }
    }
  }

  /** On the text `t`, `t = p OR t LIKE p/%` is the test "t is p or lies under p/". */
  ghost predicate ExactAt(t: string, p: string, d: Dialect)
  {
    (t == p || LikeMatches(t, p + "/%", d)) <==> (t == p || p + "/" <= t)
  }

  /** `t = p OR t LIKE p/%` is the test "t is p or lies under p/" on every text exactly when p has no LIKE metacharacter. */
  lemma UnderIffPlain(p: string, d: Dialect)
    requires p != "" && p[|p| - 1] != '/'
    ensures Plain(p, d) <==> forall t: string :: ExactAt(t, p, d)
  {
    if Plain(p, d) {
      forall t: string ensures ExactAt(t, p, d) {
        assert p + "/%" == (p + "/") + "%";
        LikePlain(t, p + "/", "%", d);
        if p + "/" <= t {
          LikeAnything(t[|p + "/"|..], d);
        }
      }
    } else {
      var s := Shortest(p, d);
      ShortestMatches(p, d);
      ShortestShape(p, d);
      assert s != p;
      assert !(p + "/" <= s);
      assert !ExactAt(s, p, d);
    }
  }

  /** Without metacharacters in force the pattern never loses a text under `p/`. */
  lemma {:induction false} UnderImpliesLike(t: string, p: string, q: string)
    requires p <= t && LikeMatches(t[|p|..], q, NoEscape)
    ensures LikeMatches(t, p + q, NoEscape)
  {
    if p == "" {
      assert p + q == q && t[|p|..] == t;
    } else {
      assert (p + q)[1..] == p[1..] + q;
      assert t[1..][|p[1..]|..] == t[|p|..];
      UnderImpliesLike(t[1..], p[1..], q);
      if p[0] == '%' {
        assert LikeMatches(t[1..], p + q, NoEscape) by {
          assert LikeMatches(t[1..], (p + q)[1..], NoEscape);
        }
      }
    }
  }
}
