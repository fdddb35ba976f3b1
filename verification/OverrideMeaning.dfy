/**
 What an environment entry means: the grammar of its name, the value its text is read as, what it
 shows in the final configuration, and how a new key is spelled.
 */
module OverrideMeaning {
  import opened ConfigPath
  import opened ConfigTree
  import opened RouteMeaning
  import opened Strings

  // ----- The grammar of names -----

  ghost predicate Digits(d: string, n: nat)
  {
    d != "" && (forall i :: 0 <= i < |d| ==> IsDigit(d[i])) && DigitsValue(d) == n && n <= 18446744073709551615
  }

  /** An optional plus sign and decimal digits, leading zeros allowed, within 64 bits. */
  ghost predicate Number(s: string, n: nat)
  {
    Digits(s, n) || (s != "" && s[0] == '+' && Digits(s[1..], n))
  }

  lemma DigitsIff(d: string, n: nat)
    ensures Digits(d, n) <==> ParseDigits(d) == Some(n)
  {
    hide DigitsValue;
  }

  lemma NumberIff(s: string, n: nat)
    ensures Number(s, n) <==> ParseUsize(s) == Some(n)
  {
    hide DigitsValue;
    DigitsIff(if s != "" && s[0] == '+' then s[1..] else s, n);
    hide ParseDigits;
    if s != "" && s[0] == '+' {
      assert !Digits(s, n) by { assert !IsDigit(s[0]); }
    }
    hide Digits;
  }

  /** A row of numbers in brackets. */
  ghost predicate Bracketed(text: string, p: Path)
    decreases |p|
  {
    if p == [] then text == ""
    else
      && p[0].Index?
      && exists d, rest :: ']' !in d && Number(d, p[0].index) && text == "[" + d + "]" + rest && Bracketed(rest, p[1..])
  }

  lemma ReadBracket(d: string, rest: string, n: nat)
    requires ']' !in d && Number(d, n)
    ensures ParseBrackets("[" + d + "]" + rest) == Prepend(Index(n), ParseBrackets(rest))
  {
    hide Number, ParseUsize, IndexOf, Prepend;
    FirstClose(d, rest);
    NumberIff(d, n);
  }

  /** The first bracket of a row that parses. */
  lemma CutBracket(text: string) returns (d: string, rest: string, n: nat)
    requires text != "" && ParseBrackets(text).Ok?
    ensures ']' !in d && Number(d, n) && text == "[" + d + "]" + rest && |rest| < |text|
    ensures ParseBrackets(rest).Ok? && ParseBrackets(text).value == [Index(n)] + ParseBrackets(rest).value
  {
    hide Number, ParseUsize, IndexOf;
    var e := IndexOf(text, ']');
    d, rest, n := text[1..e], text[e + 1..], ParseUsize(text[1..e]).value;
    NumberIff(d, n);
    NotBefore(text, e);
  }

  lemma {:induction false} BracketedReads(text: string, p: Path)
    requires Bracketed(text, p)
    ensures ParseBrackets(text) == Ok(p)
    decreases |p|
  {
    hide Number, ParseBrackets;
    if p != [] {
      var d, rest :| ']' !in d && Number(d, p[0].index) && text == "[" + d + "]" + rest && Bracketed(rest, p[1..]);
      ReadBracket(d, rest, p[0].index);
      BracketedReads(rest, p[1..]);
      assert p == [p[0]] + p[1..];
    } else {
      NoBrackets();
    }
  }

  lemma NoBrackets()
    ensures ParseBrackets("") == Ok([])
  {
  }

  lemma {:induction false} ReadIsBracketed(text: string)
    requires ParseBrackets(text).Ok?
    ensures Bracketed(text, ParseBrackets(text).value)
    decreases |text|
  {
    hide Number, ParseBrackets;
    NoBrackets();
    if text != "" {
      var d, rest, n := CutBracket(text);
      ReadIsBracketed(rest);
      assert ParseBrackets(text).value[1..] == ParseBrackets(rest).value;
    }
  }

  lemma BracketedIff(text: string, p: Path)
    ensures Bracketed(text, p) <==> ParseBrackets(text) == Ok(p)
  {
    hide Bracketed, ParseBrackets;
    if Bracketed(text, p) {
      BracketedReads(text, p);
    }
    if ParseBrackets(text).Ok? {
      ReadIsBracketed(text);
    }
  }

  lemma NotBefore(text: string, e: nat)
    requires 0 < e < |text| && ']' !in text[..e]
    ensures ']' !in text[1..e]
  {
    assert forall i :: 0 <= i < |text[1..e]| ==> text[1..e][i] == text[..e][i + 1];
  }

  /** One piece: `INDEX_` and a number, or a key, numbers in brackets, or both. */
  ghost predicate Spells(piece: string, p: Path)
  {
    if "INDEX_" <= piece then |p| == 1 && p[0].Index? && Number(piece[6..], p[0].index)
    else exists key, brackets, row ::
      && '[' !in key && piece == key + brackets && (brackets == "" || brackets[0] == '[')
      && Bracketed(brackets, row) && p == (if key == "" then [] else [Key(key)]) + row
  }

  lemma SpellsIff(piece: string, p: Path)
    requires piece != ""
    ensures Spells(piece, p) <==> ParseSegment(piece) == Ok(p)
  {
    if "INDEX_" <= piece {
      hide Number, ParseUsize;
      if |p| == 1 && p[0].Index? {
        NumberIff(piece[6..], p[0].index);
        assert p == [Index(p[0].index)];
      }
      if ParseUsize(piece[6..]).Some? {
        NumberIff(piece[6..], ParseUsize(piece[6..]).value);
      }
    } else {
      KeyedIff(piece, p);
    }
  }

  lemma KeyedIff(piece: string, p: Path)
    requires piece != "" && !("INDEX_" <= piece)
    ensures Spells(piece, p) <==> ParseSegment(piece) == Ok(p)
  {
    hide Bracketed, ParseSegment, IndexOf;
    if key, brackets, row :|
      && '[' !in key && piece == key + brackets && (brackets == "" || brackets[0] == '[')
      && Bracketed(brackets, row) && p == (if key == "" then [] else [Key(key)]) + row
    {
      KeyedReads(key, brackets, row);
    }
    if ParseSegment(piece) == Ok(p) {
      ReadIsKeyed(piece, p);
    }
  }

  lemma KeyedReads(key: string, brackets: string, row: Path)
    requires '[' !in key && key + brackets != "" && (brackets == "" || brackets[0] == '[') && Bracketed(brackets, row)
    requires !("INDEX_" <= key + brackets)
    ensures ParseSegment(key + brackets) == Ok((if key == "" then [] else [Key(key)]) + row)
  {
    hide Bracketed, ParseBrackets, IndexOf;
    var piece := key + brackets;
    KeyEnds(key, brackets);
    assert piece[..|key|] == key && piece[|key|..] == brackets;
    BracketedIff(brackets, row);
    if key == "" {
      assert piece == brackets && [] + row == row;
    } else {
      assert piece[0] == key[0] && key[0] in key;
    }
  }

  lemma ReadIsKeyed(piece: string, p: Path)
    requires piece != "" && !("INDEX_" <= piece) && ParseSegment(piece) == Ok(p)
    ensures Spells(piece, p)
  {
    hide Bracketed, ParseBrackets, IndexOf;
    var k := KeyEnd(piece);
    var key, brackets := piece[..k], piece[k..];
    assert piece == key + brackets;
    if piece[0] == '[' {
      assert k == 0 by { IndexOfUnique(piece, '[', 0); }
      assert brackets == piece && key == "" && p == [] + p;
      BracketedIff(brackets, p);
    } else {
      BracketedIff(brackets, ParseBrackets(brackets).value);
      assert key != "" by { assert '[' in piece ==> piece[k] == '['; }
    }
  }

  function Flat(parts: seq<Path>): Path
  {
    if parts == [] then [] else parts[0] + Flat(parts[1..])
  }

  /** Each non-empty piece spells its part of the path. */
  ghost predicate SpellsAll(pieces: seq<string>, parts: seq<Path>)
  {
    && |parts| == |pieces|
    && forall i :: 0 <= i < |pieces| ==> if pieces[i] == "" then parts[i] == [] else Spells(pieces[i], parts[i])
  }

  /** A name is accepted for a path exactly when its pieces spell that path, and it is not empty. */
  lemma NameIff(text: string, p: Path)
    ensures ParsePath(text) == Ok(p) <==> p != [] && exists parts :: SpellsAll(SplitDouble(text), parts) && p == Flat(parts)
  {
    hide SplitDouble, SpellsAll, ParsePieces, Flat;
    if ParsePath(text) == Ok(p) {
      var parts := PiecesSpell(SplitDouble(text));
    }
    if parts :| SpellsAll(SplitDouble(text), parts) && p == Flat(parts) {
      SpelledParse(SplitDouble(text), parts);
    }
  }

  lemma {:induction false} PiecesSpell(pieces: seq<string>) returns (parts: seq<Path>)
    requires ParsePieces(pieces).Ok?
    ensures SpellsAll(pieces, parts) && Flat(parts) == ParsePieces(pieces).value
  {
    hide ParseSegment, Spells;
    parts := [];
    if pieces != [] {
      var rest := PiecesSpell(pieces[1..]);
      var first := if pieces[0] == "" then [] else ParseSegment(pieces[0]).value;
      if pieces[0] != "" {
        SpellsIff(pieces[0], first);
      }
      parts := [first] + rest;
      assert parts[1..] == rest;
    }
  }

  lemma {:induction false} SpelledParse(pieces: seq<string>, parts: seq<Path>)
    requires SpellsAll(pieces, parts)
    ensures ParsePieces(pieces) == Ok(Flat(parts))
  {
    hide ParseSegment, Spells;
    if pieces != [] {
      SpelledParse(pieces[1..], parts[1..]);
      if pieces[0] != "" {
        SpellsIff(pieces[0], parts[0]);
      }
    }
  }

  // ----- Entries -----

  /** An entry with the prefix overrides its path with what YAML reads, or with the text itself where YAML reads nothing. */
  lemma EntryIff(name: string, raw: string, yaml: string -> Option<Yaml>, o: Override)
    ensures var r := OverrideOf((name, raw), yaml);
      && (r == Ok([]) <==> !("AUTHGUARD__" <= name))
      && (r == Ok([o]) <==>
           && "AUTHGUARD__" <= name && ParsePath(name[11..]) == Ok(o.path)
           && (yaml(raw).Some? ==> o.value == yaml(raw).value) && (yaml(raw).None? ==> o.value == Scalar(raw)))
  {
    hide ParsePath;
    assert |ENV_PREFIX| == 11;
  }

  /** Overrides other than those that part from the path leave what was set there in view. */
  lemma {:induction false} StaysInView(v: Yaml, os: seq<Override>, p: Path)
    requires forall i :: 0 <= i < |os| ==> Divergent(os[i].path, p)
    ensures Look(ApplyAll(v, os), p) == Look(v, p)
    decreases |os|
  {
    hide SetPath, Look, Divergent;
    if os != [] {
      DivergentUndisturbed(v, os[0].path, os[0].value, p);
      StaysInView(SetPath(v, os[0].path, os[0].value), os[1..], p);
    }
  }

  lemma {:induction false} ApplyConcat(v: Yaml, a: seq<Override>, b: seq<Override>)
    ensures ApplyAll(v, a + b) == ApplyAll(ApplyAll(v, a), b)
    decreases |a|
  {
    hide SetPath;
    if a == [] {
      assert a + b == b;
    } else {
      assert (a + b)[1..] == a[1..] + b;
      ApplyConcat(SetPath(v, a[0].path, a[0].value), a[1..], b);
    }
  }

  /** In the final configuration an entry shows its value at its path, whatever came before it, if all later entries part from it. */
  lemma EntryShows(root: Yaml, before: seq<(string, string)>, name: string, raw: string, after: seq<(string, string)>,
                   yaml: string -> Option<Yaml>, p: Path)
    requires OverridesOf(before, yaml).Ok? && OverridesOf(after, yaml).Ok?
    requires "AUTHGUARD__" <= name && ParsePath(name[11..]) == Ok(p)
    requires forall i :: 0 <= i < |OverridesOf(after, yaml).value| ==> Divergent(OverridesOf(after, yaml).value[i].path, p)
    ensures var os := OverridesOf(before + [(name, raw)] + after, yaml);
      os.Ok? && Look(ApplyAll(root, os.value), p) == if yaml(raw).Some? then yaml(raw).value else Scalar(raw)
  {
    hide ParsePath, SetPath, Look, Divergent, ApplyAll;
    var o := Override(p, if yaml(raw).Some? then yaml(raw).value else Scalar(raw));
    EntryIff(name, raw, yaml, o);
    OverridesConcat(before, [(name, raw)], yaml);
    OverridesConcat(before + [(name, raw)], after, yaml);
    OneOverride(name, raw, yaml, o);
    hide OverridesOf, OverrideOf;
    var x, y := OverridesOf(before, yaml).value, OverridesOf(after, yaml).value;
    ApplyConcat(root, x + [o], y);
    ApplyConcat(root, x, [o]);
    AppliedOne(ApplyAll(root, x), o);
    StaysInView(ApplyAll(root, x + [o]), y, p);
    GetSet(ApplyAll(root, x), p, o.value);
  }

  lemma OneOverride(name: string, raw: string, yaml: string -> Option<Yaml>, o: Override)
    requires OverrideOf((name, raw), yaml) == Ok([o])
    ensures OverridesOf([(name, raw)], yaml) == Ok([o])
  {
    hide OverrideOf;
    assert [(name, raw)][1..] == [];
    assert [o] + [] == [o];
  }

  lemma AppliedOne(v: Yaml, o: Override)
    ensures ApplyAll(v, [o]) == SetPath(v, o.path, o.value)
  {
    hide SetPath;
    assert [o][1..] == [];
  }

  // ----- Keys -----

  /** Names are compared by their ASCII letters, in lower case, and digits. */
  lemma {:induction false} NormalizedMeans(a: string, b: string, c: char)
    ensures Normalized(a + b) == Normalized(a) + Normalized(b)
    ensures Normalized("") == ""
    ensures Normalized([c]) ==
      if 'A' <= c <= 'Z' then [(c as int + 32) as char] else if 'a' <= c <= 'z' || '0' <= c <= '9' then [c] else ""
  {
    if a == "" {
      assert a + b == b;
    } else {
      assert (a + b)[1..] == a[1..] + b;
      NormalizedMeans(a[1..], b, c);
    }
    assert [c][1..] == "";
  }

  /**
   Setting below a name keeps every key as it is spelled, and adds one only when none has the same
   letters and digits: the name with its ASCII letters in lower case.
   */
  lemma KeysAfterSet(v: Yaml, name: string, rest: Path, x: Yaml)
    ensures var before, w := Entries(v), SetPath(v, [Key(name)] + rest, x);
      var known := exists i :: 0 <= i < |before| && before[i].0.Name? && Normalized(before[i].0.text) == Normalized(name);
      && w.Mapping? && |w.entries| == |before| + (if known then 0 else 1)
      && (forall i :: 0 <= i < |before| ==> w.entries[i].0 == before[i].0)
      && (!known ==>
           var key := w.entries[|before|].0;
           key.Name? && |key.text| == |name| && forall i :: 0 <= i < |name| ==>
             key.text[i] as int == if 'A' <= name[i] <= 'Z' then name[i] as int + 32 else name[i] as int)
  {
    hide Position, Lower;
    LowerMeans(name);
    assert ([Key(name)] + rest)[1..] == rest;
  }
}
