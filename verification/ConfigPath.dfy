/**
 Names of environment overrides: parsing them into paths, the two ways to write an index, and the
 loop that applies all overrides to a configuration tree.
 */
module ConfigPath {
  import opened Collections
  import opened Strings
  import opened ConfigTree

  const ENV_PREFIX := "AUTHGUARD__"
  const INDEX_WORD := "INDEX_"
  const USIZE_MAX: nat := 0xFFFF_FFFF_FFFF_FFFF

  // ----- Pieces between double underscores -----

  function SplitDouble(s: string): (r: seq<string>)
    ensures |r| >= 1
    decreases |s|
  {
    if s == "" then [""]
    else if |s| >= 2 && s[0] == '_' && s[1] == '_' then [""] + SplitDouble(s[2..])
    else
      var rest := SplitDouble(s[1..]);
      [[s[0]] + rest[0]] + rest[1..]
  }

  ghost predicate NoDouble(s: string)
  {
    forall i :: 0 <= i < |s| - 1 ==> !(s[i] == '_' && s[i + 1] == '_')
  }

  /** Text that survives between double underscores. */
  ghost predicate Solid(s: string)
  {
    s != "" && NoDouble(s) && s[|s| - 1] != '_'
  }

  lemma NoDoubleTail(s: string)
    requires s != "" && NoDouble(s)
    ensures NoDouble(s[1..])
  {
    assert forall i :: 0 <= i < |s| - 1 ==> s[1..][i] == s[i + 1];
    forall i | 0 <= i < |s[1..]| - 1 ensures !(s[1..][i] == '_' && s[1..][i + 1] == '_') {
      var k := i + 1;
      assert !(s[k] == '_' && s[k + 1] == '_');
    }
  }

  lemma {:induction false} SplitDoubleWhole(s: string)
    requires NoDouble(s)
    ensures SplitDouble(s) == [s]
    decreases |s|
  {
    if s != "" {
      NoDoubleTail(s);
      SplitDoubleWhole(s[1..]);
      assert [s[0]] + s[1..] == s;
      assert |s| >= 2 ==> !(s[0] == '_' && s[0 + 1] == '_');
    }
  }

  lemma {:induction false} SplitDoubleConcat(a: string, b: string)
    requires NoDouble(a) && (a == "" || a[|a| - 1] != '_')
    ensures SplitDouble(a + "__" + b) == [a] + SplitDouble(b)
    decreases |a|
  {
    var s := a + "__" + b;
    if a == "" {
      assert s[2..] == b;
    } else {
      NoDoubleTail(a);
      assert s[1..] == a[1..] + "__" + b;
      SplitDoubleConcat(a[1..], b);
      assert [a[0]] + a[1..] == a;
      assert |a| >= 2 ==> !(a[0] == '_' && a[0 + 1] == '_');
      assert s[0] == a[0] && (|a| >= 2 ==> s[1] == a[1]) && (|a| == 1 ==> s[0] != '_');
    }
  }

  lemma {:induction false} SplitDoubleJoin(pieces: seq<string>)
    requires pieces != [] && forall i :: 0 <= i < |pieces| ==> Solid(pieces[i])
    ensures SplitDouble(Join(pieces, "__")) == pieces
  {
    hide SplitDouble;
    SplitDoubleWhole(pieces[0]);
    if |pieces| > 1 {
      SplitDoubleJoin(pieces[1..]);
      SplitDoubleConcat(pieces[0], Join(pieces[1..], "__"));
    }
  }

  // ----- Numbers -----

  function DigitsValue(d: string): nat
    requires forall i :: 0 <= i < |d| ==> IsDigit(d[i])
  {
    if d == "" then 0
    else
      var last := d[|d| - 1];
      assert IsDigit(last);
      DigitsValue(d[..|d| - 1]) * 10 + (last as int - '0' as int)
  }

  /** At least one digit, and no overflow. */
  function ParseDigits(d: string): Option<nat>
  {
    if d == "" || exists i :: 0 <= i < |d| && !IsDigit(d[i]) then None
    else if DigitsValue(d) > USIZE_MAX then None
    else Some(DigitsValue(d))
  }

  /** `str::parse::<usize>` also takes a plus sign before the digits. */
  function ParseUsize(s: string): Option<nat>
  {
    ParseDigits(if s != "" && s[0] == '+' then s[1..] else s)
  }

  function Decimal(n: nat): (r: string)
    ensures r != "" && forall i :: 0 <= i < |r| ==> IsDigit(r[i])
  {
    var last := ['0' + (n % 10) as char];
    if n < 10 then last else Decimal(n / 10) + last
  }

  lemma {:induction false} DecimalValue(n: nat)
    ensures DigitsValue(Decimal(n)) == n
  {
    if n >= 10 {
      DecimalValue(n / 10);
      assert Decimal(n)[..|Decimal(n)| - 1] == Decimal(n / 10);
    } else {
      assert Decimal(n)[..0] == "";
    }
  }

  lemma ParseDecimal(n: nat)
    requires n <= USIZE_MAX
    ensures ParseUsize(Decimal(n)) == Some(n)
  {
    DecimalValue(n);
    assert IsDigit(Decimal(n)[0]);
  }

  // ----- Parsing -----

  function Prepend(s: Segment, r: Result<Path>): Result<Path>
  {
    if r.Ok? then Ok([s] + r.value) else Err
  }

  function Concat(a: Result<Path>, b: Result<Path>): Result<Path>
  {
    if a.Ok? && b.Ok? then Ok(a.value + b.value) else Err
  }

  function ParseBrackets(remaining: string): Result<Path>
    decreases |remaining|
  {
    if remaining == "" then Ok([])
    else if remaining[0] != '[' || ']' !in remaining then Err
    else
      var e := IndexOf(remaining, ']');
      var n := ParseUsize(remaining[1..e]);
      if n.None? then Err else Prepend(Index(n.value), ParseBrackets(remaining[e + 1..]))
  }

  function KeyEnd(segment: string): (k: nat)
    ensures k <= |segment|
  {
    if '[' in segment then IndexOf(segment, '[') else |segment|
  }

  function ParseSegment(segment: string): Result<Path>
    requires segment != ""
  {
    if INDEX_WORD <= segment then
      var n := ParseUsize(segment[|INDEX_WORD|..]);
      if n.Some? then Ok([Index(n.value)]) else Err
    else if segment[0] == '[' then ParseBrackets(segment)
    else Prepend(Key(segment[..KeyEnd(segment)]), ParseBrackets(segment[KeyEnd(segment)..]))
  }

  function ParsePieces(pieces: seq<string>): Result<Path>
  {
    if pieces == [] then Ok([])
    else Concat(if pieces[0] == "" then Ok([]) else ParseSegment(pieces[0]), ParsePieces(pieces[1..]))
  }

  function ParsePath(text: string): Result<Path>
  {
    var r := ParsePieces(SplitDouble(text));
    if r == Ok([]) then Err else r
  }

  lemma ConcatAssociative(a: Result<Path>, b: Result<Path>, c: Result<Path>)
    ensures Concat(Concat(a, b), c) == Concat(a, Concat(b, c))
  {
    if a.Ok? && b.Ok? && c.Ok? {
      assert a.value + b.value + c.value == a.value + (b.value + c.value);
    }
  }

  lemma ConcatNothing(a: Result<Path>)
    ensures Concat(Ok([]), a) == a && Concat(a, Ok([])) == a
  {
    if a.Ok? {
      assert [] + a.value == a.value && a.value + [] == a.value;
    }
  }

  method ParseEnvironmentPath(text: string) returns (r: Result<Path>)
    ensures r == ParsePath(text)
  {
    hide SplitDouble, ParseSegment;
    var parsed: Path := [];
    var pieces := SplitDouble(text);
    ConcatNothing(ParsePieces(pieces));
    assert pieces[0..] == pieces;
    for i := 0 to |pieces|
      invariant ParsePieces(pieces) == Concat(Ok(parsed), ParsePieces(pieces[i..]))
    {
      assert pieces[i..][1..] == pieces[i + 1..];
      ghost var rest := ParsePieces(pieces[i + 1..]);
      if pieces[i] == "" {
        ConcatNothing(rest);
      } else {
        var one := ParsePiece(pieces[i]);
        if one.Err? {
          return Err;
        }
        ConcatAssociative(Ok(parsed), one, rest);
        parsed := parsed + one.value;
      }
    }
    assert pieces[|pieces|..] == [];
    assert parsed + [] == parsed;
    return if parsed == [] then Err else Ok(parsed);
  }

  method ParsePiece(segment: string) returns (r: Result<Path>)
    requires segment != ""
    ensures r == ParseSegment(segment)
  {
    hide IndexOf;
    if INDEX_WORD <= segment {
      var n := ParseUsize(segment[|INDEX_WORD|..]);
      return if n.Some? then Ok([Index(n.value)]) else Err;
    }
    var parsed: Path, remaining := [], segment;
    ConcatNothing(ParseBrackets(segment));
    if segment[0] != '[' {
      var keyEnd := KeyEnd(segment);
      parsed := [Key(segment[..keyEnd])];
      remaining := segment[keyEnd..];
    }
    while remaining != ""
      invariant ParseSegment(segment) == Concat(Ok(parsed), ParseBrackets(remaining))
      decreases |remaining|
    {
      if remaining[0] != '[' || ']' !in remaining {
        return Err;
      }
      var indexEnd := IndexOf(remaining, ']');
      var n := ParseUsize(remaining[1..indexEnd]);
      if n.None? {
        return Err;
      }
      ConcatAssociative(Ok(parsed), Ok([Index(n.value)]), ParseBrackets(remaining[indexEnd + 1..]));
      parsed := parsed + [Index(n.value)];
      remaining := remaining[indexEnd + 1..];
    }
    assert parsed + [] == parsed;
    return Ok(parsed);
  }

  // ----- Printing -----

  ghost predicate GoodKey(name: string)
  {
    Solid(name) && '[' !in name && !(INDEX_WORD <= name)
  }

  ghost predicate GoodSegment(s: Segment)
  {
    match s
    case Key(name) => GoodKey(name)
    case Index(n) => n <= USIZE_MAX
  }

  ghost predicate GoodPath(p: Path)
  {
    p != [] && forall i :: 0 <= i < |p| ==> GoodSegment(p[i])
  }

  function Word(s: Segment): string
  {
    match s
    case Key(name) => name
    case Index(n) => INDEX_WORD + Decimal(n)
  }

  function Words(p: Path): (r: seq<string>)
    ensures |r| == |p|
  {
    if p == [] then [] else [Word(p[0])] + Words(p[1..])
  }

  /** Every segment on its own, indices as `INDEX_n`. */
  function PrintWords(p: Path): string { Join(Words(p), "__") }

  lemma WordReads(s: Segment)
    requires GoodSegment(s)
    ensures Solid(Word(s)) && ParseSegment(Word(s)) == Ok([s])
  {
    hide ParseUsize;
    match s
    case Key(name) =>
      assert name[..|name|] == name && name[|name|..] == "";
      assert [s] + [] == [s];
    case Index(n) =>
      var w := Word(s);
      ParseDecimal(n);
      assert w[|INDEX_WORD|..] == Decimal(n);
      assert forall i :: |INDEX_WORD| <= i < |w| ==> IsDigit(w[i]);
      assert w[..|INDEX_WORD|] == INDEX_WORD;
  }

  lemma {:induction false} WordsRead(p: Path)
    requires forall i :: 0 <= i < |p| ==> GoodSegment(p[i])
    ensures ParsePieces(Words(p)) == Ok(p)
    ensures forall i :: 0 <= i < |p| ==> Solid(Words(p)[i])
  {
    hide ParseSegment, Solid, GoodSegment, Word;
    if p != [] {
      WordReads(p[0]);
      WordsRead(p[1..]);
      assert Word(p[0]) != "" by { SolidNonempty(Word(p[0])); }
      assert p == [p[0]] + p[1..];
    }
  }

  lemma SolidNonempty(s: string)
    requires Solid(s)
    ensures s != ""
  {
  }

  /** Round trip for the word form. */
  lemma ParsePrintWords(p: Path)
    requires GoodPath(p)
    ensures ParsePath(PrintWords(p)) == Ok(p)
  {
    hide Solid, GoodSegment, ParsePieces, Words, SplitDouble;
    WordsRead(p);
    SplitDoubleJoin(Words(p));
  }

  function Bracket(n: nat): string { "[" + Decimal(n) + "]" }

  /** Leading indices of a path. */
  function Run(p: Path): (k: nat)
    ensures k <= |p| && forall i :: 0 <= i < k ==> p[i].Index?
    ensures k < |p| ==> p[k].Key?
  {
    if p == [] || p[0].Key? then 0 else 1 + Run(p[1..])
  }

  function BracketText(p: Path): string
    requires forall i :: 0 <= i < |p| ==> p[i].Index?
  {
    if p == [] then "" else Bracket(p[0].index) + BracketText(p[1..])
  }

  /** A key, or a leading index, with the indices that follow it. */
  function Piece(p: Path): string
    requires p != []
  {
    var k := Run(p[1..]);
    (if p[0].Key? then p[0].name else Bracket(p[0].index)) + BracketText(p[1..][..k])
  }

  function Pieces(p: Path): seq<string>
    decreases |p|
  {
    if p == [] then [] else [Piece(p)] + Pieces(p[1..][Run(p[1..])..])
  }

  /** Indices in brackets after what they index. */
  function PrintBrackets(p: Path): string { Join(Pieces(p), "__") }

  lemma DecimalFree(n: nat, c: char)
    requires !IsDigit(c)
    ensures c !in Decimal(n)
  {
    var d := Decimal(n);
    forall i | 0 <= i < |d| ensures d[i] != c {
      assert IsDigit(d[i]);
    }
  }

  lemma FirstClose(d: string, rest: string)
    requires ']' !in d
    ensures var text := "[" + d + "]" + rest;
      ']' in text && IndexOf(text, ']') == |d| + 1 && text[1..|d| + 1] == d && text[|d| + 2..] == rest
  {
    hide IndexOf;
    var text := "[" + d + "]" + rest;
    assert text[|d| + 1] == ']';
    assert text[..|d| + 1] == "[" + d;
    IndexOfUnique(text, ']', |d| + 1);
  }

  lemma ParseBracketStep(n: nat, rest: string)
    requires n <= USIZE_MAX
    ensures ParseBrackets(Bracket(n) + rest) == Prepend(Index(n), ParseBrackets(rest))
  {
    hide ParseUsize, Decimal, IndexOf, Prepend;
    var d := Decimal(n);
    DecimalFree(n, ']');
    FirstClose(d, rest);
    ParseDecimal(n);
    assert Bracket(n) + rest == "[" + d + "]" + rest;
  }

  lemma {:induction false} BracketsRead(p: Path)
    requires forall i :: 0 <= i < |p| ==> p[i].Index? && p[i].index <= USIZE_MAX
    ensures ParseBrackets(BracketText(p)) == Ok(p)
  {
    if p != [] {
      hide ParseBrackets, Bracket;
      BracketsRead(p[1..]);
      ParseBracketStep(p[0].index, BracketText(p[1..]));
      assert p == [p[0]] + p[1..];
    } else {
      assert BracketText(p) == "";
    }
  }

  lemma {:induction false} BracketTextSolid(p: Path)
    requires forall i :: 0 <= i < |p| ==> p[i].Index?
    ensures '_' !in BracketText(p) && (p != [] ==> BracketText(p) != "" && BracketText(p)[|BracketText(p)| - 1] == ']' && BracketText(p)[0] == '[')
  {
    if p != [] {
      BracketTextSolid(p[1..]);
      var d := Decimal(p[0].index);
      assert '_' !in d by { assert forall i :: 0 <= i < |d| ==> IsDigit(d[i]); }
      assert BracketText(p) == Bracket(p[0].index) + BracketText(p[1..]);
    }
  }

  lemma SolidAppend(a: string, b: string)
    requires Solid(a) && '_' !in b
    ensures Solid(a + b)
  {
    var s := a + b;
    forall i | 0 <= i < |s| - 1 ensures !(s[i] == '_' && s[i + 1] == '_') {
      if i + 1 < |a| {
        assert !(a[i] == '_' && a[i + 1] == '_');
      } else {
        assert s[i + 1] == b[i + 1 - |a|];
      }
    }
    assert b != "" ==> s[|s| - 1] == b[|b| - 1];
  }

  lemma KeyEnds(name: string, text: string)
    requires '[' !in name && (text == "" || text[0] == '[')
    ensures KeyEnd(name + text) == |name|
  {
    hide IndexOf;
    var piece := name + text;
    if text == "" {
      assert piece == name;
    } else {
      assert piece[..|name|] == name;
      assert piece[|name|] == text[0];
      IndexOfUnique(piece, '[', |name|);
    }
  }

  lemma NotIndexWord(name: string, text: string)
    requires GoodKey(name) && '_' !in text
    ensures !(INDEX_WORD <= name + text)
  {
    var s := name + text;
    assert INDEX_WORD[5] == '_';
    if |name| >= |INDEX_WORD| {
      assert s[..|INDEX_WORD|] == name[..|INDEX_WORD|];
    } else {
      assert |s| > 5 ==> s[5] == text[5 - |name|];
    }
  }

  lemma ParseKeySegment(name: string, text: string)
    requires GoodKey(name) && '_' !in text && (text == "" || text[0] == '[')
    ensures ParseSegment(name + text) == Prepend(Key(name), ParseBrackets(text))
  {
    var piece := name + text;
    NotIndexWord(name, text);
    KeyEnds(name, text);
    assert piece[0] == name[0];
    assert name[0] in name;
    hide ParseBrackets, GoodKey, KeyEnd;
    assert piece[..|name|] == name && piece[|name|..] == text;
  }

  lemma KeyPieceReads(name: string, run: Path)
    requires GoodKey(name) && forall i :: 0 <= i < |run| ==> run[i].Index? && run[i].index <= USIZE_MAX
    ensures var piece := name + BracketText(run);
      Solid(piece) && ParseSegment(piece) == Ok([Key(name)] + run)
  {
    var text := BracketText(run);
    BracketTextSolid(run);
    BracketsRead(run);
    assert text == "" || text[0] == '[' by { assert run == [] ==> text == ""; }
    hide BracketText, ParseBrackets, ParseSegment;
    SolidAppend(name, text);
    ParseKeySegment(name, text);
  }

  lemma ParseBracketSegment(text: string)
    requires text != "" && text[0] == '['
    ensures ParseSegment(text) == ParseBrackets(text)
  {
    hide ParseBrackets;
    assert INDEX_WORD[0] != text[0];
  }

  lemma BracketsAreSolid(p: Path)
    requires p != [] && forall i :: 0 <= i < |p| ==> p[i].Index?
    ensures Solid(BracketText(p)) && BracketText(p)[0] == '['
  {
    BracketTextSolid(p);
    var text := BracketText(p);
    hide BracketText;
    assert forall i :: 0 <= i < |text| ==> text[i] != '_';
  }

  lemma BracketTextCons(n: nat, run: Path)
    requires forall i :: 0 <= i < |run| ==> run[i].Index?
    ensures var all := [Index(n)] + run; BracketText(all) == Bracket(n) + BracketText(run)
  {
    hide Bracket;
    assert ([Index(n)] + run)[1..] == run;
  }

  lemma BracketsReadAsSegment(p: Path)
    requires p != [] && forall i :: 0 <= i < |p| ==> p[i].Index? && p[i].index <= USIZE_MAX
    ensures Solid(BracketText(p)) && ParseSegment(BracketText(p)) == Ok(p)
  {
    hide BracketText, Bracket, ParseBrackets, ParseSegment, Solid;
    BracketsAreSolid(p);
    SolidNonempty(BracketText(p));
    BracketsRead(p);
    ParseBracketSegment(BracketText(p));
  }

  lemma IndexPieceReads(n: nat, run: Path)
    requires n <= USIZE_MAX && forall i :: 0 <= i < |run| ==> run[i].Index? && run[i].index <= USIZE_MAX
    ensures var piece := Bracket(n) + BracketText(run);
      Solid(piece) && ParseSegment(piece) == Ok([Index(n)] + run)
  {
    hide BracketText, Bracket, ParseSegment, Solid;
    BracketTextCons(n, run);
    BracketsReadAsSegment([Index(n)] + run);
  }

  lemma PieceReads(p: Path)
    requires GoodPath(p)
    ensures var k := Run(p[1..]);
      Solid(Piece(p)) && Piece(p) != "" && ParseSegment(Piece(p)) == Ok(p[..k + 1])
  {
    hide BracketText, Bracket, ParseSegment, Solid;
    var k := Run(p[1..]);
    var run := p[1..][..k];
    forall i | 0 <= i < k ensures run[i].Index? && run[i].index <= USIZE_MAX {
      assert run[i] == p[i + 1] == p[1..][i];
      assert GoodSegment(p[i + 1]);
    }
    assert p[..k + 1] == [p[0]] + run;
    assert GoodSegment(p[0]);
    if p[0].Key? {
      KeyPieceReads(p[0].name, run);
    } else {
      IndexPieceReads(p[0].index, run);
    }
    SolidNonempty(Piece(p));
  }

  lemma PiecesNil()
    ensures Pieces([]) == []
  {
  }

  lemma PiecesCons(p: Path)
    requires p != []
    ensures Pieces(p) == [Piece(p)] + Pieces(p[1..][Run(p[1..])..])
  {
    hide Piece, Run;
  }

  lemma {:induction false} PiecesRead(p: Path)
    requires forall i :: 0 <= i < |p| ==> GoodSegment(p[i])
    ensures ParsePieces(Pieces(p)) == Ok(p)
    ensures forall i :: 0 <= i < |Pieces(p)| ==> Solid(Pieces(p)[i])
    decreases |p|
  {
    hide ParseSegment, Solid, GoodSegment, Piece, Run, Pieces;
    if p == [] {
      PiecesNil();
    } else {
      var k := Run(p[1..]);
      var rest := p[1..][k..];
      PieceReads(p);
      PiecesRead(rest);
      PiecesCons(p);
      assert p == p[..k + 1] + rest;
    }
  }

  /** Round trip for the bracket form. */
  lemma ParsePrintBrackets(p: Path)
    requires GoodPath(p)
    ensures ParsePath(PrintBrackets(p)) == Ok(p)
  {
    hide Solid, GoodSegment, ParsePieces, SplitDouble;
    PiecesRead(p);
    SplitDoubleJoin(Pieces(p));
  }

  // ----- Applying the environment -----

  /** The override an environment entry stands for; `yaml` is the YAML reader, which may reject the text. */
  function OverrideOf(entry: (string, string), yaml: string -> Option<Yaml>): Result<seq<Override>>
  {
    if !(ENV_PREFIX <= entry.0) then Ok([])
    else
      var path := ParsePath(entry.0[|ENV_PREFIX|..]);
      if path.Err? then Err
      else
        var parsed := yaml(entry.1);
        Ok([Override(path.value, if parsed.Some? then parsed.value else Scalar(entry.1))])
  }

  function OverridesOf(entries: seq<(string, string)>, yaml: string -> Option<Yaml>): Result<seq<Override>>
  {
    if entries == [] then Ok([])
    else
      var first, rest := OverrideOf(entries[0], yaml), OverridesOf(entries[1..], yaml);
      if first.Err? || rest.Err? then Err else Ok(first.value + rest.value)
  }

  method SetYamlPath(current: Yaml, path: Path, value: Yaml) returns (r: Yaml)
    ensures r == SetPath(current, path, value)
    decreases |path|
  {
    if path == [] {
      return value;
    }
    match path[0]
    case Index(index) =>
      var items := if current.Sequence? then current.items else [];
      while |items| <= index
        invariant |items| >= |Items(current)| && (|items| > |Items(current)| ==> |items| <= index + 1)
        invariant forall i :: 0 <= i < |items| ==> items[i] == if i < |Items(current)| then Items(current)[i] else Null
        decreases index + 1 - |items|
      {
        items := items + [Null];
      }
      assert items == Padded(Items(current), index);
      var child := SetYamlPath(items[index], path[1..], value);
      return Sequence(items[index := child]);
    case Key(segment) =>
      var entries := if current.Mapping? then current.entries else [];
      var normalized := Normalized(segment);
      var n := 0;
      while n < |entries| && !Answers(entries[n].0, normalized)
        invariant 0 <= n <= |entries|
        invariant forall i :: 0 <= i < n ==> !Answers(entries[i].0, normalized)
      {
        n := n + 1;
      }
      assert n == Position(entries, normalized);
      if n < |entries| {
        var child := SetYamlPath(entries[n].1, path[1..], value);
        return Mapping(entries[n := (entries[n].0, child)]);
      }
      var child := SetYamlPath(Null, path[1..], value);
      return Mapping(entries + [(Name(Lower(segment)), child)]);
  }

  method ApplyEnvironmentEntries(root: Yaml, entries: seq<(string, string)>, yaml: string -> Option<Yaml>) returns (r: Result<Yaml>)
    ensures var os := OverridesOf(entries, yaml);
      r == if os.Ok? then Ok(ApplyAll(root, os.value)) else Err
  {
    hide ParsePath, SetPath;
    var current := root;
    ghost var all := OverridesOf(entries, yaml);
    assert entries[0..] == entries;
    for i := 0 to |entries|
      invariant all.Ok? <==> OverridesOf(entries[i..], yaml).Ok?
      invariant all.Ok? ==> ApplyAll(root, all.value) == ApplyAll(current, OverridesOf(entries[i..], yaml).value)
    {
      assert entries[i..][1..] == entries[i + 1..];
      var (name, rawValue) := entries[i];
      ghost var rest := OverridesOf(entries[i + 1..], yaml);
      if ENV_PREFIX <= name {
        var path := ParseEnvironmentPath(name[|ENV_PREFIX|..]);
        if path.Err? {
          return Err;
        }
        var parsed := yaml(rawValue);
        var value := if parsed.Some? then parsed.value else Scalar(rawValue);
        ghost var o := Override(path.value, value);
        if rest.Ok? {
          assert ([o] + rest.value)[1..] == rest.value;
        }
        current := SetYamlPath(current, path.value, value);
      } else if rest.Ok? {
        assert [] + rest.value == rest.value;
      }
    }
    assert entries[|entries|..] == [];
    return Ok(current);
  }

  lemma {:induction false} OverridesConcat(a: seq<(string, string)>, b: seq<(string, string)>, yaml: string -> Option<Yaml>)
    ensures var x, y, z := OverridesOf(a, yaml), OverridesOf(b, yaml), OverridesOf(a + b, yaml);
      z == if x.Ok? && y.Ok? then Ok(x.value + y.value) else Err
  {
    hide OverrideOf;
    if a == [] {
      assert a + b == b;
      if OverridesOf(b, yaml).Ok? { assert [] + OverridesOf(b, yaml).value == OverridesOf(b, yaml).value; }
    } else {
      assert (a + b)[1..] == a[1..] + b;
      OverridesConcat(a[1..], b, yaml);
      var f, x, y := OverrideOf(a[0], yaml), OverridesOf(a[1..], yaml), OverridesOf(b, yaml);
      if f.Ok? && x.Ok? && y.Ok? {
        assert f.value + (x.value + y.value) == f.value + x.value + y.value;
      }
    }
  }

  /** Moving one entry to the front. */
  lemma MovedToFront(before: seq<(string, string)>, e: (string, string), rest: seq<(string, string)>, yaml: string -> Option<Yaml>)
    ensures var x, y := OverridesOf([e] + (before + rest), yaml), OverridesOf(before + [e] + rest, yaml);
      x.Ok? == y.Ok? && (x.Ok? ==> multiset(x.value) == multiset(y.value))
  {
    hide OverridesOf;
    OverridesConcat([e], before + rest, yaml);
    OverridesConcat(before, rest, yaml);
    OverridesConcat(before + [e], rest, yaml);
    OverridesConcat(before, [e], yaml);
  }

  /** Where an entry of the first listing stands in the second. */
  lemma FindEntry(es: seq<(string, string)>, fs: seq<(string, string)>) returns (n: nat)
    requires es != [] && multiset(es) == multiset(fs)
    ensures n < |fs| && fs == fs[..n] + [es[0]] + fs[n + 1..]
    ensures multiset(es[1..]) == multiset(fs[..n] + fs[n + 1..])
  {
    assert es[0] in multiset(fs);
    n :| 0 <= n < |fs| && fs[n] == es[0];
    WithoutOne(fs, n);
    WithoutOne(es, 0);
    assert es[..0] + es[1..] == es[1..];
  }

  /** Permuting the environment permutes the overrides. */
  lemma {:induction false} PermutedEnvironment(es: seq<(string, string)>, fs: seq<(string, string)>, yaml: string -> Option<Yaml>)
    requires multiset(es) == multiset(fs)
    ensures var x, y := OverridesOf(es, yaml), OverridesOf(fs, yaml);
      x.Ok? == y.Ok? && (x.Ok? ==> multiset(x.value) == multiset(y.value))
    decreases |es|
  {
    hide OverridesOf;
    if es == [] {
      assert |multiset(fs)| == 0;
    } else {
      var n := FindEntry(es, fs);
      var tail, others := es[1..], fs[..n] + fs[n + 1..];
      PermutedEnvironment(tail, others, yaml);
      assert es == [es[0]] + tail;
      SameTails(es[0], tail, others, yaml);
      MovedToFront(fs[..n], es[0], fs[n + 1..], yaml);
    }
  }

  lemma SameTails(e: (string, string), a: seq<(string, string)>, b: seq<(string, string)>, yaml: string -> Option<Yaml>)
    requires var x, y := OverridesOf(a, yaml), OverridesOf(b, yaml);
      x.Ok? == y.Ok? && (x.Ok? ==> multiset(x.value) == multiset(y.value))
    ensures var x, y := OverridesOf([e] + a, yaml), OverridesOf([e] + b, yaml);
      x.Ok? == y.Ok? && (x.Ok? ==> multiset(x.value) == multiset(y.value))
  {
    hide OverridesOf;
    OverridesConcat([e], a, yaml);
    OverridesConcat([e], b, yaml);
  }

  /** The configuration seen does not depend on the order in which the process lists its environment. */
  lemma EnvironmentOrderIrrelevant(root: Yaml, es: seq<(string, string)>, fs: seq<(string, string)>, yaml: string -> Option<Yaml>)
    requires multiset(es) == multiset(fs)
    requires OverridesOf(es, yaml).Ok? && PairwiseCompatible(multiset(OverridesOf(es, yaml).value))
    ensures OverridesOf(fs, yaml).Ok?
    ensures Indistinct(ApplyAll(root, OverridesOf(es, yaml).value), ApplyAll(root, OverridesOf(fs, yaml).value))
  {
    hide OverridesOf, Indistinct, PairwiseCompatible;
    PermutedEnvironment(es, fs, yaml);
    OrderIrrelevant(root, OverridesOf(es, yaml).value, OverridesOf(fs, yaml).value);
  }
}
