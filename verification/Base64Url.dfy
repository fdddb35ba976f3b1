/** Bytes, and unpadded base64url as section 5 of RFC 4648 defines it; decoding accepts canonical text only. */
module Base64Url {
  import opened Strings

  type Byte = x: int | 0 <= x < 256

  type Bytes = seq<Byte>

  type Sextet = x: int | 0 <= x < 64

  predicate UrlSafe(c: char)
  {
    'a' <= c <= 'z' || 'A' <= c <= 'Z' || '0' <= c <= '9' || c == '-' || c == '_'
  }

  ghost predicate AllUrlSafe(s: string)
  {
    forall i :: 0 <= i < |s| ==> UrlSafe(s[i])
  }

  function Letter(n: Sextet): (c: char)
    ensures UrlSafe(c)
  {
    if n < 26 then 'A' + n as char
    else if n < 52 then 'a' + (n - 26) as char
    else if n < 62 then '0' + (n - 52) as char
    else if n == 62 then '-' else '_'
  }

  function Value(c: char): Option<Sextet>
  {
    if 'A' <= c <= 'Z' then Some(c as int - 'A' as int)
    else if 'a' <= c <= 'z' then Some(c as int - 'a' as int + 26)
    else if '0' <= c <= '9' then Some(c as int - '0' as int + 52)
    else if c == '-' then Some(62)
    else if c == '_' then Some(63)
    else None
  }

  /** Letters and sextets correspond one to one. */
  lemma LetterValue(n: Sextet, c: char)
    ensures Value(c) == Some(n) <==> Letter(n) == c
  {
  }

  /** Three bytes become four letters; one or two left over become two or three. */
  function EncodeBase64(x: Bytes): string
  {
    if x == [] then ""
    else if |x| == 1 then [Letter(x[0] / 4), Letter(x[0] % 4 * 16)]
    else if |x| == 2 then [Letter(x[0] / 4), Letter(x[0] % 4 * 16 + x[1] / 16), Letter(x[1] % 16 * 4)]
    else
      [Letter(x[0] / 4), Letter(x[0] % 4 * 16 + x[1] / 16), Letter(x[1] % 16 * 4 + x[2] / 64), Letter(x[2] % 64)]
      + EncodeBase64(x[3..])
  }

  function Values(t: string): (r: Option<seq<Sextet>>)
    ensures r.Some? ==> |r.value| == |t|
  {
    if t == "" then Some([])
    else
      var first, rest := Value(t[0]), Values(t[1..]);
      if first.None? || rest.None? then None else Some([first.value] + rest.value)
  }

  function First(a: Sextet, b: Sextet): Byte { a as int * 4 + b / 16 }
  function Second(b: Sextet, c: Sextet): Byte { b as int % 16 * 16 + c / 4 }
  function Third(c: Sextet, d: Sextet): Byte { c as int % 4 * 64 + d }

  /** The bytes four, three or two sextets stand for; bits left over must be zero. */
  function FromSextets(v: seq<Sextet>): Option<Bytes>
  {
    if v == [] then Some([])
    else if |v| == 1 then None
    else
      var first := First(v[0], v[1]);
      if |v| == 2 then (if v[1] % 16 == 0 then Some([first]) else None)
      else
        var second := Second(v[1], v[2]);
        if |v| == 3 then (if v[2] % 4 == 0 then Some([first, second]) else None)
        else
          var third := Third(v[2], v[3]);
          var rest := FromSextets(v[4..]);
          if rest.None? then None else Some([first, second, third] + rest.value)
  }

  function DecodeBase64(t: string): Option<Bytes>
  {
    var v := Values(t);
    if v.None? then None else FromSextets(v.value)
  }

  // ----- Encoding by sextets -----

  function ToSextets(x: Bytes): seq<Sextet>
  {
    if x == [] then []
    else if |x| == 1 then [x[0] / 4, x[0] % 4 * 16]
    else if |x| == 2 then [x[0] / 4, x[0] % 4 * 16 + x[1] / 16, x[1] % 16 * 4]
    else [x[0] / 4, x[0] % 4 * 16 + x[1] / 16, x[1] % 16 * 4 + x[2] / 64, x[2] % 64] + ToSextets(x[3..])
  }

  function Letters(v: seq<Sextet>): string
  {
    seq(|v|, i requires 0 <= i < |v| => Letter(v[i]))
  }

  lemma {:induction false} EncodeByLetters(x: Bytes)
    ensures EncodeBase64(x) == Letters(ToSextets(x))
  {
    hide Letter;
    if |x| >= 3 {
      EncodeByLetters(x[3..]);
      var head := [x[0] / 4, x[0] % 4 * 16 + x[1] / 16, x[1] % 16 * 4 + x[2] / 64, x[2] % 64];
      assert Letters(head + ToSextets(x[3..])) == Letters(head) + Letters(ToSextets(x[3..]));
    }
  }

  lemma {:induction false} ValuesAre(t: string, v: seq<Sextet>)
    ensures Values(t) == Some(v) <==> Letters(v) == t
  {
    hide Letter, Value;
    if |t| == |v| && t != "" {
      ValuesAre(t[1..], v[1..]);
      LetterValue(v[0], t[0]);
      assert v == [v[0]] + v[1..] && t == [t[0]] + t[1..];
      assert Letters(v) == [Letter(v[0])] + Letters(v[1..]);
      if Letter(v[0]) == t[0] && Letters(v[1..]) == t[1..] {
        assert Values(t) == Some([v[0]] + v[1..]);
      } else {
        assert Letters(v)[0] == Letter(v[0]) && Letters(v)[1..] == Letters(v[1..]);
        assert Values(t).Some? ==> Values(t).value[0] == Value(t[0]).value && Values(t).value[1..] == Values(t[1..]).value;
      }
    } else {
      assert |Letters(v)| == |v|;
      assert t == "" && v == [] ==> Letters(v) == t && Values(t) == Some(v);
    }
  }

  lemma ByteBits(x: Byte, y: Byte, z: Byte, a: int, b: int, c: int, d: int)
    requires a == x as int / 4 && b == x as int % 4 * 16 + y / 16 && c == y as int % 16 * 4 + z / 64 && d == z as int % 64
    ensures 0 <= a < 64 && 0 <= b < 64 && 0 <= c < 64 && 0 <= d < 64
    ensures a * 4 + b / 16 == x && b % 16 * 16 + c / 4 == y && c % 4 * 64 + d == z
  {
  }

  lemma ThreeBack(a: Sextet, b: Sextet, c: Sextet, d: Sextet, rest: seq<Sextet>)
    requires FromSextets(rest).Some?
    ensures FromSextets([a, b, c, d] + rest)
      == Some([First(a, b), Second(b, c), Third(c, d)] + FromSextets(rest).value)
  {
    hide First, Second, Third;
    var v := [a, b, c, d] + rest;
    assert v[4..] == rest;
    assert v[0] == a && v[1] == b && v[2] == c && v[3] == d;
  }

  lemma OneByteBack(x: Byte)
    ensures FromSextets(ToSextets([x])) == Some([x])
  {
    var v := ToSextets([x]);
    ByteBits(x, 0, 0, v[0], v[1], 0, 0);
  }

  lemma TwoBytesBack(x: Byte, y: Byte)
    ensures FromSextets(ToSextets([x, y])) == Some([x, y])
  {
    var v := ToSextets([x, y]);
    ByteBits(x, y, 0, v[0], v[1], v[2], 0);
  }

  lemma ThreeBytes(x: Byte, y: Byte, z: Byte, rest: Bytes) returns (a: Sextet, b: Sextet, c: Sextet, d: Sextet)
    ensures ToSextets([x, y, z] + rest) == [a, b, c, d] + ToSextets(rest)
    ensures First(a, b) == x && Second(b, c) == y && Third(c, d) == z
  {
    a, b, c, d := x / 4, x % 4 * 16 + y / 16, y % 16 * 4 + z / 64, z % 64;
    ByteBits(x, y, z, a, b, c, d);
    assert ([x, y, z] + rest)[3..] == rest;
  }

  lemma {:induction false} SextetsBack(x: Bytes)
    ensures FromSextets(ToSextets(x)) == Some(x)
  {
    hide FromSextets, ToSextets, First, Second, Third;
    if x == [] {
      NothingBack();
    } else if |x| == 1 {
      OneByteBack(x[0]);
      assert x == [x[0]];
    } else if |x| == 2 {
      TwoBytesBack(x[0], x[1]);
      assert x == [x[0], x[1]];
    } else {
      SextetsBack(x[3..]);
      assert x == [x[0], x[1], x[2]] + x[3..];
      var a, b, c, d := ThreeBytes(x[0], x[1], x[2], x[3..]);
      ThreeBack(a, b, c, d, ToSextets(x[3..]));
    }
  }

  lemma NothingBack()
    ensures FromSextets(ToSextets([])) == Some([])
  {
  }

  lemma Bits(a: Sextet, b: Sextet, c: Sextet, d: Sextet, x: int, y: int, z: int)
    requires x == a as int * 4 + b / 16 && y == b as int % 16 * 16 + c / 4 && z == c as int % 4 * 64 + d
    ensures x / 4 == a && x % 4 * 16 + y / 16 == b && y % 16 * 4 + z / 64 == c && z % 64 == d
  {
  }

  lemma FourBack(a: Sextet, b: Sextet, c: Sextet, d: Sextet, rest: Bytes)
    ensures var x: Bytes := [First(a, b), Second(b, c), Third(c, d)] + rest;
      ToSextets(x) == [a, b, c, d] + ToSextets(rest)
  {
    var x: Bytes := [First(a, b), Second(b, c), Third(c, d)] + rest;
    Bits(a, b, c, d, x[0], x[1], x[2]);
    assert x[3..] == rest;
  }

  lemma OneBack(a: Sextet, b: Sextet)
    requires b % 16 == 0
    ensures ToSextets([First(a, b)]) == [a, b]
  {
    Bits(a, b, 0, 0, First(a, b), 0, 0);
  }

  lemma TwoBack(a: Sextet, b: Sextet, c: Sextet)
    requires c % 4 == 0
    ensures ToSextets([First(a, b), Second(b, c)]) == [a, b, c]
  {
    Bits(a, b, c, 0, First(a, b), Second(b, c), 0);
  }

  lemma {:induction false} BytesBack(v: seq<Sextet>)
    requires FromSextets(v).Some?
    ensures ToSextets(FromSextets(v).value) == v
  {
    hide First, Second, Third;
    if |v| == 2 {
      OneBack(v[0], v[1]);
      assert v == [v[0], v[1]];
    } else if |v| == 3 {
      TwoBack(v[0], v[1], v[2]);
      assert v == [v[0], v[1], v[2]];
    } else if |v| >= 4 {
      hide ToSextets;
      BytesBack(v[4..]);
      FourBack(v[0], v[1], v[2], v[3], FromSextets(v[4..]).value);
      assert v == [v[0], v[1], v[2], v[3]] + v[4..];
    }
  }

  // ----- The laws -----

  /** Decoding inverts encoding and accepts nothing else. */
  lemma DecodeIff(t: string, x: Bytes)
    ensures DecodeBase64(t) == Some(x) <==> EncodeBase64(x) == t
  {
    hide FromSextets, ToSextets, Values, Letters, EncodeBase64;
    EncodeByLetters(x);
    if DecodeBase64(t) == Some(x) {
      ValuesAre(t, Values(t).value);
      BytesBack(Values(t).value);
    }
    if EncodeBase64(x) == t {
      ValuesAre(t, ToSextets(x));
      SextetsBack(x);
    }
  }

  lemma {:induction false} EncodedShape(x: Bytes)
    ensures AllUrlSafe(EncodeBase64(x)) && |EncodeBase64(x)| == (4 * |x| + 2) / 3
  {
    hide Letter;
    if |x| >= 3 {
      EncodedShape(x[3..]);
    }
  }

  /** Text that can stand in a compact token, and comes back. */
  lemma EncodedReads(x: Bytes)
    ensures AllUrlSafe(EncodeBase64(x)) && (x != [] ==> EncodeBase64(x) != "")
    ensures DecodeBase64(EncodeBase64(x)) == Some(x)
  {
    hide EncodeBase64, DecodeBase64;
    EncodedShape(x);
    DecodeIff(EncodeBase64(x), x);
  }

  // ----- The encoding by its numbers, as RFC 4648 states it -----

  /** The alphabet of section 5: A to Z, a to z, 0 to 9, a minus sign and an underline. */
  lemma LetterIs(n: Sextet)
    ensures Letter(0) == 'A' && Letter(25) == 'Z' && Letter(26) == 'a' && Letter(51) == 'z'
    ensures Letter(52) == '0' && Letter(61) == '9' && Letter(62) == '-' && Letter(63) == '_'
    ensures n != 25 && n != 51 && n < 61 ==> Letter(n + 1) as int == Letter(n) as int + 1
  {
  }

  /** Three bytes are one number of 24 bits, written with four letters. */
  lemma GroupOfThree(a: Byte, b: Byte, c: Byte) returns (w: Sextet, x: Sextet, y: Sextet, z: Sextet)
    ensures EncodeBase64([a, b, c]) == [Letter(w), Letter(x), Letter(y), Letter(z)]
    ensures w as int * 262144 + x as int * 4096 + y as int * 64 + z as int == a as int * 65536 + b as int * 256 + c as int
  {
    hide Letter;
    w, x, y, z := a / 4, a % 4 * 16 + b / 16, b % 16 * 4 + c / 64, c % 64;
    assert [a, b, c][3..] == [];
    assert EncodeBase64([]) == "";
  }

  /** Two last bytes are padded with zero bits and written with three letters. */
  lemma GroupOfTwo(a: Byte, b: Byte) returns (x: Sextet, y: Sextet, z: Sextet)
    ensures EncodeBase64([a, b]) == [Letter(x), Letter(y), Letter(z)]
    ensures x as int * 4096 + y as int * 64 + z as int == (a as int * 256 + b as int) * 4
  {
    hide Letter;
    x, y, z := a / 4, a % 4 * 16 + b / 16, b % 16 * 4;
  }

  /** A last byte likewise with two. */
  lemma GroupOfOne(a: Byte) returns (x: Sextet, y: Sextet)
    ensures EncodeBase64([a]) == [Letter(x), Letter(y)] && x as int * 64 + y as int == a as int * 16
  {
    hide Letter;
    x, y := a / 4, a % 4 * 16;
  }

  function Quad(a: Byte, b: Byte, c: Byte): string
  {
    [Letter(a / 4), Letter(a % 4 * 16 + b / 16), Letter(b % 16 * 4 + c / 64), Letter(c % 64)]
  }

  lemma EncodeThree(x: Bytes)
    requires |x| >= 3
    ensures EncodeBase64(x) == Quad(x[0], x[1], x[2]) + EncodeBase64(x[3..])
  {
    hide Letter;
  }

  lemma FirstGroup(x: Bytes)
    requires |x| >= 3
    ensures EncodeBase64(x) == EncodeBase64(x[..3]) + EncodeBase64(x[3..])
  {
    hide EncodeBase64, Quad;
    var first := x[..3];
    EncodeThree(x);
    EncodeThree(first);
    assert first[3..] == [];
    NothingEncoded();
    assert Quad(x[0], x[1], x[2]) + "" == Quad(x[0], x[1], x[2]);
  }

  lemma NothingEncoded()
    ensures EncodeBase64([]) == ""
  {
  }

  /** Groups of three are written one after the other. */
  lemma {:induction false} EncodeConcat(x: Bytes, y: Bytes)
    requires |x| % 3 == 0
    ensures EncodeBase64(x + y) == EncodeBase64(x) + EncodeBase64(y)
    decreases |x|
  {
    hide EncodeBase64;
    if x == [] {
      assert x + y == y;
      NothingEncoded();
    } else {
      FirstGroup(x);
      FirstGroup(x + y);
      assert (x + y)[3..] == x[3..] + y && (x + y)[..3] == x[..3];
      EncodeConcat(x[3..], y);
      assert EncodeBase64(x[..3]) + (EncodeBase64(x[3..]) + EncodeBase64(y))
        == EncodeBase64(x[..3]) + EncodeBase64(x[3..]) + EncodeBase64(y);
    }
  }
}
