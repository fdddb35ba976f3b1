/** Tokens of three parts between dots. */
module CompactTokens {
  import opened Base64Url
  import opened Strings

  lemma SafeHasNoDot(s: string)
    requires AllUrlSafe(s)
    ensures '.' !in s
  {
    assert !UrlSafe('.');
    forall i | 0 <= i < |s| ensures s[i] != '.' { assert UrlSafe(s[i]); }
  }

  lemma SplitSigned(prefix: string, payload: string, signature: string)
    requires '.' !in prefix && '.' !in signature
    ensures Split(prefix + ['.'] + payload + ['.'] + signature, '.') == [prefix] + Split(payload, '.') + [signature]
  {
    hide Split;
    SplitConcat(prefix + ['.'] + payload, signature, '.');
    SplitConcat(prefix, payload, '.');
    SplitWhole(prefix, '.');
    SplitWhole(signature, '.');
  }

  lemma {:induction false} SplitCount(s: string, c: char)
    ensures |Split(s, c)| == 1 <==> c !in s
    ensures c !in s ==> Split(s, c) == [s]
  {
    hide IndexOf;
    if c in s {
      var k := IndexOf(s, c);
      assert s == s[..k] + [c] + s[k + 1..];
      SplitConcat(s[..k], s[k + 1..], c);
    } else {
      SplitWhole(s, c);
    }
  }

  lemma JoinThree(a: string, b: string, c: string)
    ensures Join([a, b, c], ['.']) == a + ['.'] + b + ['.'] + c
  {
    assert [a, b, c][1..] == [b, c] && [b, c][1..] == [c];
    assert Join([c], ['.']) == c;
    assert Join([b, c], ['.']) == b + ['.'] + c;
    assert Join([a, b, c], ['.']) == a + ['.'] + Join([b, c], ['.']);
    assert a + ['.'] + (b + ['.'] + c) == a + ['.'] + b + ['.'] + c;
  }
}
