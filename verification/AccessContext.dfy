/**
 The access context handed to workloads: its lifetime, its signed compact form and the check of that
 form.  JSON and the MAC are any functions with the stated laws.
 */
module AccessContext {
  import opened Base64Url
  import opened Strings
  import opened CompactTokens
  import opened MemoryCache

  const VERSION: nat := 3
  const SIGNED_PREFIX := "agctx1"
  const CLOCK_SKEW: nat := 30

  datatype Input = Input(principalId: string, action: string, resourceUrn: string,
                         allow: seq<string>, deny: seq<string>, revision: nat)

  datatype Context = Context(version: nat, input: Input, issued: nat, expires: nat)

  datatype Crypto = Crypto(json: Context -> Bytes, unjson: Bytes -> Option<Context>,
                           mac: string -> Bytes)

  ghost predicate Laws(k: Crypto)
  {
    && (forall c :: k.json(c) != [] && k.unjson(k.json(c)) == Some(c))
    && (forall s :: k.mac(s) != [])
  }

  function New(input: Input, issued: nat, ttl: nat): Context
  {
    Context(VERSION, input, issued, SaturatingAdd(issued, ttl / NANOS_PER_SECOND))
  }

  function Encode(k: Crypto, c: Context): string { EncodeBase64(k.json(c)) }

  predicate Current(c: Context, now: nat)
  {
    && c.version == VERSION && c.expires > c.issued
    && c.issued <= SaturatingAdd(now, CLOCK_SKEW) && c.expires > now
  }

  function Decode(k: Crypto, encoded: string, now: nat): Result<Context>
  {
    var bytes := DecodeBase64(encoded);
    if bytes.None? then Err
    else
      var c := k.unjson(bytes.value);
      if c.Some? && Current(c.value, now) then Ok(c.value) else Err
  }

  /** When a fresh context is accepted: a lifetime of at least one whole second, not issued too far ahead, not over. */
  lemma CurrentIff(input: Input, issued: nat, ttl: nat, now: nat)
    requires issued <= U64_MAX && now <= U64_MAX
    ensures Current(New(input, issued, ttl), now) <==>
      && ttl >= NANOS_PER_SECOND && issued < U64_MAX
      && issued <= now + CLOCK_SKEW && now < U64_MAX && now < issued + ttl / NANOS_PER_SECOND
  {
    assert ttl >= NANOS_PER_SECOND <==> ttl / NANOS_PER_SECOND >= 1;
  }

  /** Decoding undoes encoding exactly while the context lives. */
  lemma DecodeEncode(k: Crypto, c: Context, now: nat)
    requires Laws(k)
    ensures Decode(k, Encode(k, c), now) == if Current(c, now) then Ok(c) else Err
  {
    hide Current, EncodeBase64, DecodeBase64;
    EncodedReads(k.json(c));
  }

  // ----- The signed form -----

  function SignEncoded(k: Crypto, encoded: string): string
  {
    var signingInput := SIGNED_PREFIX + ['.'] + encoded;
    signingInput + ['.'] + EncodeBase64(k.mac(signingInput))
  }

  function Verify(k: Crypto, signed: string): Result<string>
  {
    var parts := Split(signed, '.');
    if |parts| != 3 || parts[0] != SIGNED_PREFIX || parts[1] == "" || parts[2] == "" then Err
    else
      var signature := DecodeBase64(parts[2]);
      if signature.None? || signature.value != k.mac(SIGNED_PREFIX + ['.'] + parts[1]) then Err
      else Ok(parts[1])
  }

  lemma SignatureParts(k: Crypto, encoded: string)
    requires Laws(k)
    ensures var signature := EncodeBase64(k.mac(SIGNED_PREFIX + ['.'] + encoded));
      && signature != "" && DecodeBase64(signature) == Some(k.mac(SIGNED_PREFIX + ['.'] + encoded))
      && Split(SignEncoded(k, encoded), '.') == [SIGNED_PREFIX] + Split(encoded, '.') + [signature]
  {
    hide Split, EncodeBase64, DecodeBase64;
    var input := SIGNED_PREFIX + ['.'] + encoded;
    var signature := EncodeBase64(k.mac(input));
    EncodedReads(k.mac(input));
    SafeHasNoDot(signature);
    SplitSigned(SIGNED_PREFIX, encoded, signature);
  }

  /** Signing then verifying returns the payload exactly when it is non-empty and holds no dot. */
  lemma VerifySigned(k: Crypto, encoded: string)
    requires Laws(k)
    ensures Verify(k, SignEncoded(k, encoded)) == if encoded != "" && '.' !in encoded then Ok(encoded) else Err
  {
    hide Split, Laws, SignEncoded, EncodeBase64, DecodeBase64;
    SignatureParts(k, encoded);
    SplitCount(encoded, '.');
  }

  /** Nothing but a signed payload verifies. */
  lemma VerifiedWasSigned(k: Crypto, signed: string)
    requires Verify(k, signed).Ok?
    ensures signed == SignEncoded(k, Verify(k, signed).value)
  {
    hide Split, EncodeBase64, DecodeBase64;
    var parts := Split(signed, '.');
    JoinSplit(signed, '.');
    assert parts == [parts[0], parts[1], parts[2]];
    JoinThree(parts[0], parts[1], parts[2]);
    DecodeIff(parts[2], k.mac(SIGNED_PREFIX + ['.'] + parts[1]));
  }

  /** The direct header carries its context to whoever holds the key. */
  lemma DirectRoundTrip(k: Crypto, c: Context, now: nat)
    requires Laws(k) && Current(c, now)
    ensures var signed := SignEncoded(k, Encode(k, c));
      && signed != "" && Verify(k, signed) == Ok(Encode(k, c)) && Decode(k, Encode(k, c), now) == Ok(c)
  {
    hide Verify, Decode, Encode, Current, Laws, SignEncoded;
    EncodedIsPlain(k, c);
    VerifySigned(k, Encode(k, c));
    DecodeEncode(k, c, now);
    SignedNonempty(k, Encode(k, c));
  }

  lemma EncodedIsPlain(k: Crypto, c: Context)
    requires Laws(k)
    ensures Encode(k, c) != "" && '.' !in Encode(k, c)
  {
    hide EncodeBase64, DecodeBase64;
    EncodedReads(k.json(c));
    SafeHasNoDot(Encode(k, c));
  }

  lemma SignedNonempty(k: Crypto, encoded: string)
    ensures SignEncoded(k, encoded) != ""
  {
    hide EncodeBase64;
    assert |SIGNED_PREFIX + ['.'] + encoded| >= 1;
  }

  /** What verification accepts, byte for byte. */
  lemma VerifyIff(k: Crypto, signed: string, payload: string)
    requires forall t :: k.mac(t) != []
    ensures Verify(k, signed) == Ok(payload) <==>
      && payload != "" && '.' !in payload
      && signed == "agctx1." + payload + "." + EncodeBase64(k.mac("agctx1." + payload))
  {
    hide Split, Verify, EncodeBase64, DecodeBase64;
    if payload != "" && '.' !in payload && signed == "agctx1." + payload + "." + EncodeBase64(k.mac("agctx1." + payload)) {
      SignedSpelled(k, payload);
      SignedParts(k, payload);
      AcceptedParts(k, signed, payload);
    }
    if Verify(k, signed) == Ok(payload) {
      VerifiedWasSigned(k, signed);
      SignedSpelled(k, payload);
      PayloadPlain(k, signed);
    }
  }

  lemma SignedSpelled(k: Crypto, payload: string)
    ensures SignEncoded(k, payload) == "agctx1." + payload + "." + EncodeBase64(k.mac("agctx1." + payload))
  {
    hide EncodeBase64;
    assert SIGNED_PREFIX + ['.'] == "agctx1.";
  }

  lemma PayloadPlain(k: Crypto, signed: string)
    requires Verify(k, signed).Ok?
    ensures Verify(k, signed).value != "" && '.' !in Verify(k, signed).value
  {
    SplitIsFree(signed, '.');
    hide Split, DecodeBase64;
  }

  lemma SignedParts(k: Crypto, payload: string)
    requires '.' !in payload && (forall t :: k.mac(t) != [])
    ensures var signature := EncodeBase64(k.mac(SIGNED_PREFIX + ['.'] + payload));
      && signature != "" && DecodeBase64(signature) == Some(k.mac(SIGNED_PREFIX + ['.'] + payload))
      && Split(SignEncoded(k, payload), '.') == [SIGNED_PREFIX, payload, signature]
  {
    hide Split, EncodeBase64, DecodeBase64;
    var input := SIGNED_PREFIX + ['.'] + payload;
    EncodedReads(k.mac(input));
    SafeHasNoDot(EncodeBase64(k.mac(input)));
    SplitSigned(SIGNED_PREFIX, payload, EncodeBase64(k.mac(input)));
    SplitWhole(payload, '.');
  }

  lemma AcceptedParts(k: Crypto, signed: string, payload: string)
    requires payload != "" && signed == SignEncoded(k, payload)
    requires var signature := EncodeBase64(k.mac(SIGNED_PREFIX + ['.'] + payload));
      && signature != "" && DecodeBase64(signature) == Some(k.mac(SIGNED_PREFIX + ['.'] + payload))
      && Split(signed, '.') == [SIGNED_PREFIX, payload, signature]
    ensures Verify(k, signed) == Ok(payload)
  {
    hide Split, EncodeBase64, DecodeBase64, SignEncoded;
  }

  /** What decoding accepts: canonical base64url of the JSON of a context of version 3, begun at most 30 seconds ahead, and not over. */
  lemma DecodesExactly(k: Crypto, encoded: string, now: nat, c: Context)
    requires now + 30 <= U64_MAX
    ensures Decode(k, encoded, now) == Ok(c) <==>
      && (exists b :: EncodeBase64(b) == encoded && k.unjson(b) == Some(c))
      && c.version == 3 && c.issued < c.expires && c.issued <= now + 30 && now < c.expires
  {
    hide EncodeBase64, DecodeBase64;
    if b :| EncodeBase64(b) == encoded && k.unjson(b) == Some(c) {
      DecodeIff(encoded, b);
    }
    if DecodeBase64(encoded).Some? {
      DecodeIff(encoded, DecodeBase64(encoded).value);
    }
  }

  /** A fresh context carries its decision and lives for the whole seconds of its lifetime. */
  lemma NewCarries(input: Input, issued: nat, ttl: nat)
    requires issued + ttl / 1_000_000_000 <= U64_MAX
    ensures var c := New(input, issued, ttl);
      c.version == 3 && c.input == input && c.issued == issued && c.expires == issued + ttl / 1_000_000_000
  {
  }
}
