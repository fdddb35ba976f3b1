/**
 What reading an identity token accepts, written out claim by claim: the exact form of a verified
 token, the exact claims of an authenticated one, and the exact claims an issued one carries.
 */
module TokenReading {
  import opened Base64Url
  import opened Collections
  import opened CompactTokens
  import opened ConfigPath
  import opened Strings
  import opened Tokens
  import MemoryCache

  // ----- The signed form -----

  /** A token verifies to a payload exactly when it spells header, payload and some verifying signature. */
  lemma VerifyJwtIff(e: Env, token: string, b: Bytes)
    ensures VerifyJwt(e, token) == Ok(b) <==>
      b != [] && exists s :: s != [] && SpellsSigned(e, token, b, s)
  {
    hide VerifyJwt, SpellsSigned;
    if VerifyJwt(e, token) == Ok(b) {
      var s := VerifiedIsSpelled(e, token, b);
    }
    if s :| b != [] && s != [] && SpellsSigned(e, token, b, s) {
      SpelledVerifies(e, token, b, s);
    }
  }

  ghost predicate SpellsSigned(e: Env, token: string, b: Bytes, s: Bytes)
  {
    var input := "eyJhbGciOiJSUzI1NiIsInR5cCI6IkpXVCJ9." + EncodeBase64(b);
    token == input + "." + EncodeBase64(s) && e.verifies(input, s)
  }

  lemma VerifiedIsSpelled(e: Env, token: string, b: Bytes) returns (s: Bytes)
    requires VerifyJwt(e, token) == Ok(b)
    ensures b != [] && s != [] && SpellsSigned(e, token, b, s)
  {
    hide Split, EncodeBase64, DecodeBase64;
    var parts := Split(token, '.');
    s := DecodeBase64(parts[2]).value;
    DecodeIff(parts[1], b);
    DecodeIff(parts[2], s);
    EmptyText();
    JoinSplit(token, '.');
    assert parts == [parts[0], parts[1], parts[2]];
    JoinThree(parts[0], parts[1], parts[2]);
    HeaderSpelled();
  }

  lemma EmptyText()
    ensures EncodeBase64([]) == ""
  {
  }

  lemma HeaderSpelled()
    ensures JWT_HEADER + ['.'] == "eyJhbGciOiJSUzI1NiIsInR5cCI6IkpXVCJ9."
  {
  }

  lemma SpelledVerifies(e: Env, token: string, b: Bytes, s: Bytes)
    requires b != [] && s != [] && SpellsSigned(e, token, b, s)
    ensures VerifyJwt(e, token) == Ok(b)
  {
    hide Split, EncodeBase64, DecodeBase64;
    HeaderSpelled();
    EncodedReads(b);
    EncodedReads(s);
    hide AllUrlSafe;
    SafeHasNoDot(EncodeBase64(b));
    SafeHasNoDot(EncodeBase64(s));
    HeaderHasNoDot();
    SplitSigned(JWT_HEADER, EncodeBase64(b), EncodeBase64(s));
    SplitWhole(EncodeBase64(b), '.');
  }

  // ----- Names and values -----

  lemma BoundaryNames(name: string)
    ensures Boundary(name) <==> name in {
      "iss", "sub", "aud", "iat", "exp", "nbf", "jti", "provider", "access_token", "refresh_token", "authorization_code",
      "principal_id", "principal_kind", "authguard_group_ids", "acr", "amr", "authguardOrigin"}
    ensures Reserved(name) <==> name in {"username", "email", "display_name"} || Boundary(name)
  {
  }

  /** How each JSON value is written as a claim; arrays, objects and null are not. */
  lemma ScalarTexts(v: Json)
    ensures v.Str? ==> Scalar(v) == Some(v.chars)
    ensures v.Bool? ==> Scalar(v) == Some(if v.value then "true" else "false")
    ensures v.Int? ==> Scalar(v).Some? && NumberOf(Scalar(v).value) == v.number
    ensures v.Number? ==> Scalar(v) == Some(v.text)
    ensures v.Null? || v.Arr? || v.Obj? ==> Scalar(v).None?
  {
    hide Decimal;
    if v.Int? {
      DecimalValue(v.number);
      DigitsAgree(Decimal(v.number));
    }
  }

  /** The number a decimal text stands for. */
  function NumberOf(s: string): int
  {
    if s == "" then 0 else NumberOf(s[..|s| - 1]) * 10 + (s[|s| - 1] as int - '0' as int)
  }

  lemma {:induction false} DigitsAgree(s: string)
    requires forall i :: 0 <= i < |s| ==> IsDigit(s[i])
    ensures NumberOf(s) == DigitsValue(s)
  {
    if s != "" {
      DigitsAgree(s[..|s| - 1]);
    }
  }

  lemma {:induction false} TotalBytesConcat(a: seq<string>, b: seq<string>)
    ensures TotalBytes(a + b) == TotalBytes(a) + TotalBytes(b) && TotalBytes([]) == 0
    ensures |a| == 1 ==> TotalBytes(a) == |a[0]|
  {
    if a == [] {
      assert a + b == b;
    } else {
      assert (a + b)[1..] == a[1..] + b;
      TotalBytesConcat(a[1..], b);
    }
  }

  // ----- Reading the principal -----

  /** The group names a claim holds: one text, or an array of texts. */
  ghost predicate Holds(v: Json, groups: seq<string>)
  {
    || (v.Str? && groups == [v.chars])
    || (v.Arr? && |v.items| == |groups| && forall i :: 0 <= i < |groups| ==> v.items[i] == Str(groups[i]))
  }

  lemma HoldsIff(v: Json, groups: seq<string>)
    ensures Holds(v, groups) <==> GroupValues(v) == Some(groups)
  {
    if v.Arr? && AllStr(v.items) {
      assert GroupValues(v) == Some(Texts(v.items));
      if Holds(v, groups) {
        assert Texts(v.items) == groups;
      }
    }
  }

  /** `kept` lists the given names once each, in order, and they were few, short and canonical. */
  ghost predicate Listed(e: Env, given: seq<string>, kept: seq<string>)
  {
    && |given| <= 128 && TotalBytes(given) <= 16384 && (forall i :: 0 <= i < |given| ==> e.canonical(given[i]))
    && Ascending(e.lt, kept) && forall g :: g in kept <==> g in given
  }

  lemma ListedIff(e: Env, given: seq<string>, kept: seq<string>)
    requires StrictOrder(e.lt)
    ensures Listed(e, given, kept) <==> GroupsOk(e, given) && kept == SortDedup(e.lt, given)
  {
    hide TotalBytes, SortDedup, StrictOrder;
    SortDedupMeans(e.lt, given);
    if Listed(e, given, kept) {
      AscendingUnique(e.lt, kept, SortDedup(e.lt, given));
    }
  }

  ghost predicate GroupsRead(e: Env, o: Object, groups: seq<string>)
  {
    if "authguard_group_ids" !in o || o["authguard_group_ids"].Null? then groups == []
    else exists given :: Holds(o["authguard_group_ids"], given) && Listed(e, given, groups)
  }

  lemma GroupsReadIff(e: Env, o: Object, groups: seq<string>)
    requires StrictOrder(e.lt)
    ensures GroupsRead(e, o, groups) <==> ReadGroups(e, Get(o, "authguard_group_ids")) == Ok(groups)
  {
    hide Holds, Listed, GroupsOk, SortDedup, StrictOrder, GroupValues;
    if "authguard_group_ids" in o && !o["authguard_group_ids"].Null? {
      var v := o["authguard_group_ids"];
      if given :| Holds(v, given) && Listed(e, given, groups) {
        HoldsIff(v, given);
        ListedIff(e, given, groups);
      }
      if GroupValues(v).Some? {
        HoldsIff(v, GroupValues(v).value);
        ListedIff(e, GroupValues(v).value, groups);
      }
    }
  }

  ghost predicate MethodsRead(o: Object, amr: seq<string>)
  {
    if "amr" !in o || o["amr"].Null? then amr == []
    else
      var v := o["amr"];
      v.Arr? && |v.items| == |amr| && forall i :: 0 <= i < |amr| ==> v.items[i] == Str(amr[i])
  }

  lemma MethodsReadIff(o: Object, amr: seq<string>)
    ensures MethodsRead(o, amr) <==> ReadStrings(Get(o, "amr")) == Ok(amr)
  {
    if "amr" in o && o["amr"].Arr? {
      var items := o["amr"].items;
      if AllStr(items) && MethodsRead(o, amr) {
        assert Texts(items) == amr;
      }
    }
  }

  /** Beyond the boundary every scalar claim passes, as text, if together they fit; `mfa` says whether that method was used. */
  ghost predicate TrustedRead(o: Object, trusted: map<string, string>, amr: seq<string>)
  {
    exists m: map<string, string> ::
      && (forall n :: n in m <==> n in o && !Boundary(n) && Scalar(o[n]).Some?)
      && (forall n :: n in m ==> Scalar(o[n]) == Some(m[n]))
      && Size(m) <= 65536
      && trusted == m["mfa" := if "mfa" in amr then "true" else "false"]
  }

  lemma TrustedReadIff(o: Object, trusted: map<string, string>, amr: seq<string>)
    ensures TrustedRead(o, trusted, amr) <==> Size(Scalars(o)) <= MAX_CLAIM_BYTES && trusted == Scalars(o)["mfa" := Mfa(amr)]
  {
    hide Size, Boundary, Scalar;
    if m: map<string, string> :|
      && (forall n :: n in m <==> n in o && !Boundary(n) && Scalar(o[n]).Some?)
      && (forall n :: n in m ==> Scalar(o[n]) == Some(m[n]))
      && Size(m) <= 65536
      && trusted == m["mfa" := if "mfa" in amr then "true" else "false"]
    {
      assert m == Scalars(o);
    }
    if Size(Scalars(o)) <= MAX_CLAIM_BYTES && trusted == Scalars(o)["mfa" := Mfa(amr)] {
      var m := Scalars(o);
      assert forall n :: n in m <==> n in o && !Boundary(n) && Scalar(o[n]).Some?;
    }
  }

  /** The principal that claims stand for. */
  ghost predicate StandsFor(e: Env, o: Object, p: Principal)
  {
    && "principal_id" in o && o["principal_id"] == Str(p.id) && e.canonical(p.id)
    && "principal_kind" in o && o["principal_kind"].Str?
    && (o["principal_kind"].chars == "USER" <==> p.kind.User?)
    && (o["principal_kind"].chars == "WORKLOAD" <==> p.kind.Workload?)
    && (o["principal_kind"].chars == "GROUP" <==> p.kind.Group?)
    && GroupsRead(e, o, p.groups) && TrustedRead(o, p.trusted, p.amr) && MethodsRead(o, p.amr)
    && (p.acr.Some? <==> "acr" in o && o["acr"].Str?) && (p.acr.Some? ==> o["acr"] == Str(p.acr.value))
  }

  lemma StandsForIff(e: Env, o: Object, p: Principal)
    requires StrictOrder(e.lt)
    ensures StandsFor(e, o, p) <==> FromClaims(e, o) == Ok(p)
  {
    hide GroupsRead, TrustedRead, MethodsRead, ReadGroups, ReadStrings, StrictOrder, Scalars, Size, Mfa;
    GroupsReadIff(e, o, p.groups);
    MethodsReadIff(o, p.amr);
    TrustedReadIff(o, p.trusted, p.amr);
    KindRead(AsStr(Get(o, "principal_kind")), p.kind);
    hide ParseKind;
  }

  lemma KindRead(text: Option<string>, k: Kind)
    ensures text.Some? && ParseKind(text.value) == Some(k) <==>
      && text.Some?
      && (text.value == "USER" <==> k.User?) && (text.value == "WORKLOAD" <==> k.Workload?) && (text.value == "GROUP" <==> k.Group?)
  {
  }

  // ----- Authentication -----

  /** Claims addressed to this audience by this issuer, about one non-empty subject, and not expired. */
  ghost predicate Addressed(c: Issuer, o: Object, now: nat)
  {
    && "iss" in o && o["iss"] == Str(c.issuer)
    && "aud" in o && (o["aud"] == Str(c.audience) || (o["aud"].Arr? && Str(c.audience) in o["aud"].items))
    && "principal_id" in o && o["principal_id"].Str? && o["principal_id"].chars != ""
    && "sub" in o && o["sub"] == o["principal_id"]
    && "exp" in o && o["exp"].Int? && o["exp"].number > now
  }

  lemma AddressedIff(c: Issuer, o: Object, now: nat)
    ensures Addressed(c, o, now) <==> Accepts(c, o, now)
  {
  }

  /**
   Authentication answers a principal exactly for a token whose signature verifies, whose claims are
   addressed and current, and stand for that principal.  So it is refused exactly when none of this holds.
   */
  lemma AuthenticateIff(e: Env, c: Issuer, token: string, now: nat, p: Principal)
    requires StrictOrder(e.lt)
    ensures Authenticate(e, c, token, now) == Ok(p) <==>
      exists b, s, o ::
        && b != [] && s != [] && SpellsSigned(e, token, b, s) && e.read(b) == Some(o)
        && Addressed(c, o, now) && StandsFor(e, o, p)
  {
    hide VerifyJwt, SpellsSigned, Addressed, StandsFor, FromClaims, Accepts, StrictOrder;
    if Authenticate(e, c, token, now) == Ok(p) {
      var b := VerifyJwt(e, token).value;
      var s := VerifiedIsSpelled(e, token, b);
      AddressedIff(c, e.read(b).value, now);
      StandsForIff(e, e.read(b).value, p);
    }
    if b, s, o :|
      && b != [] && s != [] && SpellsSigned(e, token, b, s) && e.read(b) == Some(o)
      && Addressed(c, o, now) && StandsFor(e, o, p)
    {
      SpelledVerifies(e, token, b, s);
      AddressedIff(c, o, now);
      StandsForIff(e, o, p);
    }
  }

  // ----- Issuing -----

  /** The claims of an issued token, name by name; trusted claims never replace a standard one. */
  lemma IssuedClaims(c: Issuer, p: Principal, authTime: nat, now: nat)
    requires NoBoundary(p.trusted)
    ensures var o := Claims(c, p, authTime, now);
      && Get(o, "iss") == Some(Str(c.issuer)) && Get(o, "aud") == Some(Str(c.audience))
      && Get(o, "sub") == Some(Str(p.id)) && Get(o, "principal_id") == Some(Str(p.id))
      && Get(o, "principal_kind") == Some(Str(match p.kind case User => "USER" case Workload => "WORKLOAD" case Group => "GROUP"))
      && Get(o, "auth_time") == Some(Int(authTime)) && Get(o, "iat") == Some(Int(now))
      && Get(o, "exp") == Some(Int(if now + c.ttl <= MemoryCache.U64_MAX then now + c.ttl else MemoryCache.U64_MAX))
      && GroupsHeld(o, "authguard_group_ids", p.groups) && GroupsHeld(o, "amr", p.amr)
      && Get(o, "acr") == (if p.acr.Some? then Some(Str(p.acr.value)) else None)
      && forall n :: n in p.trusted && n != "auth_time" ==> Get(o, n) == Some(Str(p.trusted[n]))
  {
    hide Claims, NoBoundary, Boundary, Strs;
    IdentityClaims(c, p, authTime, now);
    ProtocolClaims(c, p, authTime, now);
    AssuranceClaim(c, p, authTime, now);
    IssueTime(c, p, authTime, now);
    AuthTimeIsFree();
    StandardOnly(c, p, authTime, now, "auth_time");
    HeldStrs(p.groups);
    HeldStrs(p.amr);
    TrustedIssued(c, p, authTime, now);
  }

  lemma TrustedIssued(c: Issuer, p: Principal, authTime: nat, now: nat)
    requires NoBoundary(p.trusted)
    ensures forall n :: n in p.trusted && n != "auth_time" ==> Get(Claims(c, p, authTime, now), n) == Some(Str(p.trusted[n]))
  {
    hide Claims, Boundary;
    forall n | n in p.trusted && n != "auth_time" ensures Get(Claims(c, p, authTime, now), n) == Some(Str(p.trusted[n])) {
      StandardOnly(c, p, authTime, now, n);
    }
  }

  lemma IssueTime(c: Issuer, p: Principal, authTime: nat, now: nat)
    ensures Get(Claims(c, p, authTime, now), "iat") == Some(Int(now))
  {
    hide Strs, KindText, Boundary;
    NamesDiffer();
  }

  ghost predicate GroupsHeld(o: Object, name: string, texts: seq<string>)
  {
    name in o && o[name].Arr? && |o[name].items| == |texts| && forall i :: 0 <= i < |texts| ==> o[name].items[i] == Str(texts[i])
  }

  lemma HeldStrs(texts: seq<string>)
    ensures |Strs(texts)| == |texts| && forall i :: 0 <= i < |texts| ==> Strs(texts)[i] == Str(texts[i])
  {
  }

  // ----- Projection -----

  /** The groups of an authentication: its given names listed, or none when they are too many, too long or malformed. */
  lemma GroupsProjected(e: Env, v: Option<Json>)
    requires StrictOrder(e.lt)
    ensures var kept := ProjectGroups(e, v);
      || (v.Some? && exists given :: Holds(v.value, given) && Listed(e, given, kept))
      || (kept == [] && (v.None? || forall given, any :: Holds(v.value, given) ==> !Listed(e, given, any)))
  {
    hide Holds, Listed, GroupsOk, SortDedup, StrictOrder, GroupValues;
    if v.Some? {
      if GroupValues(v.value).Some? {
        HoldsIff(v.value, GroupValues(v.value).value);
        ListedIff(e, GroupValues(v.value).value, ProjectGroups(e, v));
      }
      forall given, any | Holds(v.value, given) && Listed(e, given, any)
        ensures GroupValues(v.value) == Some(given) && GroupsOk(e, given)
      {
        HoldsIff(v.value, given);
        ListedIff(e, given, any);
      }
    }
  }

  /** The claims kept from the first i ones. */
  ghost function KeptFrom(claims: seq<(string, Json)>, context: map<string, string>, i: nat): map<string, string>
    requires i <= |claims|
  {
    map n | n in context && exists j :: 0 <= j < i && claims[j].0 == n :: context[n]
  }

  /** Claims are kept first come, first served: exactly those free to pass that fit beside the ones kept before them. */
  lemma ProjectedIff(e: Env, claims: seq<(string, Json)>, i: nat)
    requires DistinctNames(claims) && i < |claims|
    ensures var context, c := Projected(e, claims).0, claims[i];
      c.0 in context <==>
        && !Reserved(c.0) && Scalar(c.1).Some? && e.canonical(c.0)
        && Size(KeptFrom(claims, context, i)) + |c.0| + |Scalar(c.1).value| <= 65536
  {
    hide Size, Reserved, Scalar, Projected;
    PrefixKept(e, claims, i);
    PrefixKept(e, claims, i + 1);
    PrefixDistinct(claims, i);
    ProjectedKept(e, claims[..i]);
    DecidesOne(e, claims, i);
    assert claims[i].0 in KeptFrom(claims, Projected(e, claims).0, i + 1) <==> claims[i].0 in Projected(e, claims).0;
  }

  lemma PrefixDistinct(claims: seq<(string, Json)>, i: nat)
    requires DistinctNames(claims) && i <= |claims|
    ensures DistinctNames(claims[..i])
  {
  }

  lemma DecidesOne(e: Env, claims: seq<(string, Json)>, i: nat)
    requires DistinctNames(claims) && i < |claims|
    requires Kept(e, claims[..i], Projected(e, claims[..i]).0)
    ensures var c := claims[i];
      c.0 in Projected(e, claims[..i + 1]).0 <==>
        Projectable(e, c) && Projected(e, claims[..i]).1 + |c.0| + |Scalar(c.1).value| <= 65536
  {
    hide Size, Reserved, Scalar;
    assert claims[..i + 1][..i] == claims[..i];
    NotYet(e, claims, i, Projected(e, claims[..i]).0);
    hide Kept;
  }

  /** What a prefix keeps is what the whole keeps from it. */
  lemma {:induction false} PrefixKept(e: Env, claims: seq<(string, Json)>, i: nat)
    requires DistinctNames(claims) && i <= |claims|
    ensures Projected(e, claims[..i]).0 == KeptFrom(claims, Projected(e, claims).0, i)
    decreases |claims|
  {
    hide Size, Reserved, Scalar, Projectable;
    var whole := Projected(e, claims).0;
    if i == |claims| {
      assert claims[..i] == claims;
      ProjectedKept(e, claims);
      NamesAreClaims(e, claims, whole);
    } else {
      var before, c := claims[..|claims| - 1], claims[|claims| - 1];
      assert before[..i] == claims[..i];
      PrefixDistinct(claims, |claims| - 1);
      PrefixKept(e, before, i);
      LastLeaves(claims, Projected(e, before).0, whole, i);
    }
  }

  /** The last claim does not change what is kept from the ones before it. */
  lemma LastLeaves(claims: seq<(string, Json)>, context: map<string, string>, whole: map<string, string>, i: nat)
    requires DistinctNames(claims) && i < |claims|
    requires forall n :: n != claims[|claims| - 1].0 ==> (n in whole <==> n in context) && (n in context ==> whole[n] == context[n])
    ensures KeptFrom(claims[..|claims| - 1], context, i) == KeptFrom(claims, whole, i)
  {
    var before := claims[..|claims| - 1];
    assert forall j :: 0 <= j < i ==> before[j] == claims[j] && claims[j].0 != claims[|claims| - 1].0;
  }

  lemma NamesAreClaims(e: Env, claims: seq<(string, Json)>, context: map<string, string>)
    requires Kept(e, claims, context)
    ensures KeptFrom(claims, context, |claims|) == context
  {
    hide Size, Reserved, Scalar;
  }

  /** Methods are listed at their first mention, in the order of first mentions. */
  lemma {:induction false} FirstMentions(methods: seq<string>) returns (at: seq<nat>)
    ensures |at| == |Distinct(methods)| && (forall i, j :: 0 <= i < j < |at| ==> at[i] < at[j])
    ensures forall i :: 0 <= i < |at| ==>
      at[i] < |methods| && methods[at[i]] == Distinct(methods)[i] && methods[at[i]] !in methods[..at[i]]
  {
    at := [];
    if methods != [] {
      var before, last := methods[..|methods| - 1], methods[|methods| - 1];
      at := FirstMentions(before);
      forall i | 0 <= i < |at| ensures methods[..at[i]] == before[..at[i]] && methods[at[i]] == before[at[i]] {}
      if last !in Distinct(before) {
        at := at + [|before|];
      }
    }
  }
}
