/**
 String splitting and joining as the adapters use them: `strings.Split`, `strings.SplitN`
 and `strings.Join` in Go, `str.split` and `str.join` in Python, `str::split` in Rust.
 Strings are sequences of characters.
 */
module Strings {

  /** The value of a computation that either succeeds or is refused.  Error texts are not modelled. */
  datatype Result<+T> = Ok(value: T) | Err

  datatype Option<+T> = None | Some(value: T)

  /** Every piece of `s` between occurrences of `c`; always at least one piece. */
  function Split(s: string, c: char): (r: seq<string>)
    ensures |r| >= 1
  {
    if s == "" then [""]
    else if s[0] == c then [""] + Split(s[1..], c)
    else
      var rest := Split(s[1..], c);
      [[s[0]] + rest[0]] + rest[1..]
  }

  /** At most `n` pieces; the last piece is left unsplit. */
  function SplitN(s: string, c: char, n: nat): (r: seq<string>)
    requires n >= 1
    ensures 1 <= |r| <= n
  {
    if n == 1 || c !in s then [s]
    else
      var k := IndexOf(s, c);
      [s[..k]] + SplitN(s[k + 1..], c, n - 1)
  }

  /** Position of the first `c` in `s`. */
  function IndexOf(s: string, c: char): (k: nat)
    requires c in s
    ensures k < |s| && s[k] == c && c !in s[..k]
  {
    if s[0] == c then 0
    else
      var k := 1 + IndexOf(s[1..], c);
      assert s[..k] == [s[0]] + s[1..][..k - 1];
      k
  }

  lemma {:induction false} IndexOfUnique(s: string, c: char, k: nat)
    requires k < |s| && s[k] == c && c !in s[..k]
    ensures c in s && IndexOf(s, c) == k
  {
    if k > 0 {
      assert s[..k][0] == s[0];
      assert s[..k] == [s[0]] + s[1..][..k - 1];
      IndexOfUnique(s[1..], c, k - 1);
    }
  }

  function Join(parts: seq<string>, sep: string): string
  {
    if |parts| == 0 then ""
    else if |parts| == 1 then parts[0]
    else parts[0] + sep + Join(parts[1..], sep)
  }

  ghost predicate Free(parts: seq<string>, c: char)
  {
    forall i :: 0 <= i < |parts| ==> c !in parts[i]
  }

  lemma {:induction false} SplitIsFree(s: string, c: char)
    ensures Free(Split(s, c), c)
  {
    if s != "" {
      SplitIsFree(s[1..], c);
    }
  }

  /** Splitting distributes over a separator. */
  lemma {:induction false} SplitConcat(a: string, b: string, c: char)
    ensures Split(a + [c] + b, c) == Split(a, c) + Split(b, c)
  {
    if a == "" {
      assert (a + [c] + b)[1..] == b;
    } else {
      assert (a + [c] + b)[1..] == a[1..] + [c] + b;
      SplitConcat(a[1..], b, c);
    }
  }

  lemma {:induction false} SplitWhole(s: string, c: char)
    requires c !in s
    ensures Split(s, c) == [s]
  {
    if s != "" {
      SplitWhole(s[1..], c);
      assert [s[0]] + s[1..] == s;
    }
  }

  /** Joining what was split gives the text back. */
  lemma {:induction false} JoinSplit(s: string, c: char)
    ensures Join(Split(s, c), [c]) == s
  {
    if s != "" {
      JoinSplit(s[1..], c);
      var rest := Split(s[1..], c);
      if s[0] == c {
        assert ([""] + rest)[1..] == rest;
      } else {
        var all := [[s[0]] + rest[0]] + rest[1..];
        assert all[1..] == rest[1..];
        assert Split(s, c) == all;
        if |rest| == 1 {
          assert Join(all, [c]) == [s[0]] + rest[0];
        } else {
          assert Join(all, [c]) == ([s[0]] + rest[0]) + [c] + Join(rest[1..], [c]);
          assert Join(rest, [c]) == rest[0] + [c] + Join(rest[1..], [c]);
          assert Join(all, [c]) == [s[0]] + Join(rest, [c]);
        }
      }
    }
  }

  /** Splitting what was joined gives the pieces back, as long as no piece holds the separator. */
  lemma {:induction false} SplitJoin(parts: seq<string>, c: char)
    requires |parts| >= 1 && Free(parts, c)
    ensures Split(Join(parts, [c]), c) == parts
  {
    SplitWhole(parts[0], c);
    if |parts| > 1 {
      SplitJoin(parts[1..], c);
      SplitConcat(parts[0], Join(parts[1..], [c]), c);
    }
  }

  lemma {:induction false} JoinConcat(xs: seq<string>, ys: seq<string>, sep: string)
    requires |xs| >= 1 && |ys| >= 1
    ensures Join(xs + ys, sep) == Join(xs, sep) + sep + Join(ys, sep)
  {
    assert (xs + ys)[1..] == xs[1..] + ys;
    if |xs| > 1 {
      JoinConcat(xs[1..], ys, sep);
      assert xs[0] + sep + (Join(xs[1..], sep) + sep + Join(ys, sep))
          == (xs[0] + sep + Join(xs[1..], sep)) + sep + Join(ys, sep);
    }
  }

  lemma JoinSnoc(xs: seq<string>, x: string, sep: string)
    ensures Join(xs + [x], sep) == if xs == [] then x else Join(xs, sep) + sep + x
  {
    if xs == [] {
      assert xs + [x] == [x];
    } else {
      JoinConcat(xs, [x], sep);
    }
  }

  /** A bounded split that used all its pieces and left no separator behind is the full split. */
  lemma {:induction false} SplitNIsSplit(s: string, c: char, n: nat)
    requires n >= 1
    ensures |SplitN(s, c, n)| == n && c !in SplitN(s, c, n)[n - 1] ==> SplitN(s, c, n) == Split(s, c)
    ensures |Split(s, c)| == n ==> SplitN(s, c, n) == Split(s, c)
  {
    hide Split, Join, IndexOf;
    if c !in s {
      SplitWhole(s, c);
    } else if n > 1 {
      SplitFirst(s, c);
      var tail := s[IndexOf(s, c) + 1..];
      SplitNIsSplit(tail, c, n - 1);
    } else {
      SplitFirst(s, c);
    }
  }

  lemma SplitFirst(s: string, c: char)
    requires c in s
    ensures var k := IndexOf(s, c); Split(s, c) == [s[..k]] + Split(s[k + 1..], c)
  {
    hide Split;
    var k := IndexOf(s, c);
    assert s == s[..k] + [c] + s[k + 1..];
    SplitConcat(s[..k], s[k + 1..], c);
    SplitWhole(s[..k], c);
  }

  // ----- Characters -----

  predicate IsDigit(c: char) { '0' <= c <= '9' }

  /** ASCII lower case. */
  function LowerChar(c: char): char
  {
    if 'A' <= c <= 'Z' then c - 'A' + 'a' else c
  }

  function Lower(s: string): string
  {
    if s == "" then "" else [LowerChar(s[0])] + Lower(s[1..])
  }
}
