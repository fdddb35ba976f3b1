/**
 Delivery of an allowed decision to the workload: directly in a signed header, or as an opaque token
 whose context waits in the cache; the header changes the gateway makes; and the workload's filter.
 Header names are compared without regard to case.
 */
module Delivery {
  import opened Base64Url
  import opened Strings
  import opened CompactTokens
  import opened MemoryCache
  import opened AccessContext

  const CONTEXT_HEADER := "x-authguard-context"
  const TOKEN_HEADER := "x-authguard-scope-token"
  const AUTHORIZATION := "authorization"
  const LEGACY := ["x-authguard-subject-id", "x-authguard-action", "x-authguard-resource-urn"]
  const UNTRUSTED := ["x-authguard-id-token", "x-authguard-issuer", "x-authguard-external-id",
                      "x-authguard-groups", "x-authguard-claim-tenant-id"]
  const TOKEN_PREFIX := "ags_"
  const TOKEN_BYTES: nat := 32

  function Fold(name: string): string { Lower(name) }

  // ----- Choosing a delivery -----

  datatype AccessDelivery = Direct(encoded: string) | Token(token: string)

  datatype Settings = Settings(directUrnLimit: nat, maxHeaderBytes: nat, tokenTtl: nat)

  function NewScopeToken(random: Bytes): string { TOKEN_PREFIX + EncodeBase64(random) }

  predicate ValidScopeToken(token: string)
  {
    && |token| == |TOKEN_PREFIX| + 43 && TOKEN_PREFIX <= token
    && forall i :: |TOKEN_PREFIX| <= i < |token| ==> UrlSafe(token[i])
  }

  /** Every generated token is well formed. */
  lemma NewTokensAreValid(random: Bytes)
    requires |random| == TOKEN_BYTES
    ensures ValidScopeToken(NewScopeToken(random))
  {
    hide EncodeBase64;
    EncodedShape(random);
  }

  /** Different random bytes make different tokens. */
  lemma NewTokensDiffer(a: Bytes, b: Bytes)
    ensures NewScopeToken(a) == NewScopeToken(b) <==> a == b
  {
    hide EncodeBase64, DecodeBase64;
    assert NewScopeToken(a)[|TOKEN_PREFIX|..] == EncodeBase64(a) && NewScopeToken(b)[|TOKEN_PREFIX|..] == EncodeBase64(b);
    EncodedReads(a);
    EncodedReads(b);
  }

  method PrepareDelivery(cache: MemoryAuthorizationCache, k: Crypto, settings: Settings, context: Context, random: Bytes,
                         issued: nat, now: nat, later: nat)
    returns (delivery: AccessDelivery)
    modifies cache`entries, cache`next
    ensures var signed := SignEncoded(k, Encode(k, context));
      if |context.input.allow| + |context.input.deny| <= settings.directUrnLimit && |signed| <= settings.maxHeaderBytes
      then delivery == Direct(signed) && cache.Abs() == old(cache.Abs())
      else
        && delivery == Token(NewScopeToken(random))
        && Step(cache.Conf(), old(cache.Abs()),
                Store(delivery.token, Encode(k, New(context.input, issued, settings.tokenTtl)), settings.tokenTtl, now, later),
                cache.Abs())
  {
    hide SignEncoded, Encode, New, NewScopeToken;
    var directEncoded := SignEncoded(k, Encode(k, context));
    var urnCount := |context.input.allow| + |context.input.deny|;
    if urnCount <= settings.directUrnLimit && |directEncoded| <= settings.maxHeaderBytes {
      return Direct(directEncoded);
    }
    var encoded := Encode(k, New(context.input, issued, settings.tokenTtl));
    var token := NewScopeToken(random);
    cache.StoreScope(token, encoded, settings.tokenTtl, now, later);
    return Token(token);
  }

  // ----- Header changes -----

  datatype Response = Response(put: seq<(string, string)>, removed: seq<string>)

  function Chosen(d: AccessDelivery): string { if d.Direct? then CONTEXT_HEADER else TOKEN_HEADER }
  function Alternate(d: AccessDelivery): string { if d.Direct? then TOKEN_HEADER else CONTEXT_HEADER }
  function Carried(d: AccessDelivery): string { if d.Direct? then d.encoded else d.token }

  function Bearer(token: string): string { "Bearer " + token }

  /** The identity header is stripped unless it is the slot about to receive the re-signed token. */
  function AllowedResponse(identityHeader: string, delivery: AccessDelivery, resigned: Option<string>): Response
  {
    Response(
      [(Chosen(delivery), Carried(delivery))] + (if resigned.Some? then [(AUTHORIZATION, Bearer(resigned.value))] else []),
      (if resigned.None? then [AUTHORIZATION] else []) + LEGACY + UNTRUSTED
      + (if resigned.None? || Fold(identityHeader) != Fold(AUTHORIZATION) then [identityHeader] else [])
      + [Alternate(delivery)])
  }

  method AllowedHttpResponse(identityHeader: string, delivery: AccessDelivery, resigned: Option<string>) returns (r: Response)
    ensures r == AllowedResponse(identityHeader, delivery, resigned)
  {
    hide Fold;
    var put: seq<(string, string)>, removed: seq<string> := [], [];
    if resigned.None? {
      removed := removed + [AUTHORIZATION];
    }
    ghost var first := removed;
    for i := 0 to |LEGACY|
      invariant removed == first + LEGACY[..i]
    {
      removed := removed + [LEGACY[i]];
    }
    assert LEGACY[..|LEGACY|] == LEGACY;
    for i := 0 to |UNTRUSTED|
      invariant removed == first + LEGACY + UNTRUSTED[..i]
    {
      removed := removed + [UNTRUSTED[i]];
    }
    assert UNTRUSTED[..|UNTRUSTED|] == UNTRUSTED;
    if resigned.None? || Fold(identityHeader) != Fold(AUTHORIZATION) {
      removed := removed + [identityHeader];
    }
    match delivery {
      case Direct(encoded) =>
        removed := removed + [TOKEN_HEADER];
        put := put + [(CONTEXT_HEADER, encoded)];
      case Token(token) =>
        removed := removed + [CONTEXT_HEADER];
        put := put + [(TOKEN_HEADER, token)];
    }
    if resigned.Some? {
      put := put + [(AUTHORIZATION, Bearer(resigned.value))];
    }
    return Response(put, removed);
  }

  ghost predicate LowerCase(s: string)
  {
    forall i :: 0 <= i < |s| ==> !('A' <= s[i] <= 'Z')
  }

  lemma {:induction false} Folded(s: string)
    requires LowerCase(s)
    ensures Fold(s) == s
  {
    if s != "" {
      Folded(s[1..]);
      assert s == [s[0]] + s[1..];
    }
  }

  lemma ChoiceFolded()
    ensures Fold(CONTEXT_HEADER) == CONTEXT_HEADER && Fold(TOKEN_HEADER) == TOKEN_HEADER && Fold(AUTHORIZATION) == AUTHORIZATION
  {
    hide Fold;
    Folded(CONTEXT_HEADER);
    Folded(TOKEN_HEADER);
    Folded(AUTHORIZATION);
  }

  lemma LegacyFolded(i: nat)
    requires i < |LEGACY|
    ensures Fold(LEGACY[i]) == LEGACY[i]
  {
    hide Fold;
    Folded(LEGACY[i]);
  }

  lemma UntrustedFolded(i: nat)
    requires i < |UNTRUSTED|
    ensures Fold(UNTRUSTED[i]) == UNTRUSTED[i]
  {
    hide Fold;
    Folded(UNTRUSTED[i]);
  }

  ghost function Names(names: seq<string>): set<string>
  {
    set i | 0 <= i < |names| :: Fold(names[i])
  }

  lemma NamesConcat(a: seq<string>, b: seq<string>)
    ensures Names(a + b) == Names(a) + Names(b)
  {
    hide Fold;
    var s := a + b;
    forall x | x in Names(s) ensures x in Names(a) + Names(b) {
      var i :| 0 <= i < |s| && Fold(s[i]) == x;
      assert i < |a| ==> s[i] == a[i];
      assert i >= |a| ==> s[i] == b[i - |a|];
    }
    forall x | x in Names(a) + Names(b) ensures x in Names(s) {
      if x in Names(a) {
        var i :| 0 <= i < |a| && Fold(a[i]) == x;
        assert s[i] == a[i];
      } else {
        var i :| 0 <= i < |b| && Fold(b[i]) == x;
        assert s[|a| + i] == b[i];
      }
    }
  }

  lemma NamesOne(x: string)
    ensures Names([x]) == {Fold(x)} && Names([]) == {}
  {
    hide Fold;
    assert [x][0] == x;
  }

  /** Names that are stripped in every case. */
  ghost function AlwaysRemoved(): set<string>
  {
    (set i | 0 <= i < |LEGACY| :: LEGACY[i]) + (set i | 0 <= i < |UNTRUSTED| :: UNTRUSTED[i])
  }

  lemma AlwaysRemovedNames()
    ensures Names(LEGACY) + Names(UNTRUSTED) == AlwaysRemoved()
  {
    hide Fold;
    forall i | 0 <= i < |LEGACY| ensures Fold(LEGACY[i]) == LEGACY[i] { LegacyFolded(i); }
    forall i | 0 <= i < |UNTRUSTED| ensures Fold(UNTRUSTED[i]) == UNTRUSTED[i] { UntrustedFolded(i); }
    assert Names(LEGACY) == set i | 0 <= i < |LEGACY| :: LEGACY[i];
    assert Names(UNTRUSTED) == set i | 0 <= i < |UNTRUSTED| :: UNTRUSTED[i];
  }

  lemma DeliveryNamesKept()
    ensures CONTEXT_HEADER !in AlwaysRemoved() && TOKEN_HEADER !in AlwaysRemoved() && AUTHORIZATION !in AlwaysRemoved()
    ensures CONTEXT_HEADER != TOKEN_HEADER && CONTEXT_HEADER != AUTHORIZATION && TOKEN_HEADER != AUTHORIZATION
  {
  }

  ghost function RemovedNames(identityHeader: string, d: AccessDelivery, resigned: Option<string>): set<string>
  {
    (if resigned.None? then {AUTHORIZATION} else {}) + AlwaysRemoved()
    + (if resigned.None? || Fold(identityHeader) != AUTHORIZATION then {Fold(identityHeader)} else {})
    + {Alternate(d)}
  }

  lemma RemovedAre(identityHeader: string, d: AccessDelivery, resigned: Option<string>)
    ensures Names(AllowedResponse(identityHeader, d, resigned).removed) == RemovedNames(identityHeader, d, resigned)
  {
    hide Fold, Names, AlwaysRemoved;
    ChoiceFolded();
    AlwaysRemovedNames();
    var first := if resigned.None? then [AUTHORIZATION] else [];
    var identity := if resigned.None? || Fold(identityHeader) != Fold(AUTHORIZATION) then [identityHeader] else [];
    NamesOne(AUTHORIZATION);
    NamesOne(identityHeader);
    NamesOne(Alternate(d));
    NamesConcat(first, LEGACY);
    NamesConcat(first + LEGACY, UNTRUSTED);
    NamesConcat(first + LEGACY + UNTRUSTED, identity);
    NamesConcat(first + LEGACY + UNTRUSTED + identity, [Alternate(d)]);
  }

  /** No header is both put and removed. */
  ghost predicate Disjoint(r: Response)
  {
    forall i :: 0 <= i < |r.put| ==> Fold(r.put[i].0) !in Names(r.removed)
  }

  /** The two lists of a response are disjoint exactly when the identity header is not the header being delivered. */
  lemma DisjointIff(identityHeader: string, d: AccessDelivery, resigned: Option<string>)
    ensures Disjoint(AllowedResponse(identityHeader, d, resigned)) <==> Fold(identityHeader) != Chosen(d)
  {
    hide Fold, Names, AlwaysRemoved;
    ChoiceFolded();
    DeliveryNamesKept();
    RemovedAre(identityHeader, d, resigned);
    var r := AllowedResponse(identityHeader, d, resigned);
    assert r.put[0] == (Chosen(d), Carried(d));
    if Fold(identityHeader) != Chosen(d) {
      forall i | 0 <= i < |r.put| ensures Fold(r.put[i].0) !in Names(r.removed) {
        assert i == 1 ==> r.put[i] == (AUTHORIZATION, Bearer(resigned.value));
      }
    }
  }

  // ----- What the workload receives -----

  type Headers = map<string, string>

  function Without(h: Headers, names: set<string>): Headers
  {
    map n | n in h && n !in names :: h[n]
  }

  function With(h: Headers, put: seq<(string, string)>): Headers
    decreases |put|
  {
    if put == [] then h else With(h[Fold(put[0].0) := put[0].1], put[1..])
  }

  ghost function RemoveThenPut(h: Headers, r: Response): Headers { With(Without(h, Names(r.removed)), r.put) }
  ghost function PutThenRemove(h: Headers, r: Response): Headers { Without(With(h, r.put), Names(r.removed)) }

  lemma {:induction false} PutsCommute(h: Headers, put: seq<(string, string)>, names: set<string>)
    requires forall i :: 0 <= i < |put| ==> Fold(put[i].0) !in names
    ensures With(Without(h, names), put) == Without(With(h, put), names)
    decreases |put|
  {
    hide Fold;
    if put != [] {
      var n, v := Fold(put[0].0), put[0].1;
      assert Without(h, names)[n := v] == Without(h[n := v], names);
      PutsCommute(h[n := v], put[1..], names);
    }
  }

  lemma {:induction false} PutsStay(h: Headers, put: seq<(string, string)>, n: string)
    requires n in h || exists i :: 0 <= i < |put| && Fold(put[i].0) == n
    ensures n in With(h, put)
    decreases |put|
  {
    hide Fold;
    if put != [] {
      if n !in h[Fold(put[0].0) := put[0].1] {
        var i :| 0 <= i < |put| && Fold(put[i].0) == n;
        assert put[1..][i - 1] == put[i];
      }
      PutsStay(h[Fold(put[0].0) := put[0].1], put[1..], n);
    }
  }

  /** A gateway may apply the two lists in either order exactly when they are disjoint. */
  lemma OrderIrrelevantIff(r: Response)
    ensures (forall h :: RemoveThenPut(h, r) == PutThenRemove(h, r)) <==> Disjoint(r)
  {
    hide Fold, Names, With;
    if Disjoint(r) {
      forall h ensures RemoveThenPut(h, r) == PutThenRemove(h, r) {
        PutsCommute(h, r.put, Names(r.removed));
      }
    } else {
      var i :| 0 <= i < |r.put| && Fold(r.put[i].0) in Names(r.removed);
      var n := Fold(r.put[i].0);
      PutsStay(Without(map[], Names(r.removed)), r.put, n);
      assert n in RemoveThenPut(map[], r) && n !in PutThenRemove(map[], r);
    }
  }

  lemma WithOneOrTwo(h: Headers, put: seq<(string, string)>)
    ensures |put| == 1 ==> With(h, put) == h[Fold(put[0].0) := put[0].1]
    ensures |put| == 2 ==> With(h, put) == h[Fold(put[0].0) := put[0].1][Fold(put[1].0) := put[1].1]
  {
    hide Fold;
    if |put| == 1 {
      assert put[1..] == [];
    } else if |put| == 2 {
      var one := h[Fold(put[0].0) := put[0].1];
      assert put[1..][1..] == [] && put[1..][0] == put[1];
      assert With(one, put[1..]) == With(one[Fold(put[1].0) := put[1].1], []);
    }
  }

  /**
   Whatever the client sent, exactly one delivery header reaches the workload, with the trusted value;
   spoofable headers are gone and the credential slot holds the re-signed token or nothing.
   */
  lemma OneDeliveryHeader(h: Headers, identityHeader: string, d: AccessDelivery, resigned: Option<string>)
    ensures var out := RemoveThenPut(h, AllowedResponse(identityHeader, d, resigned));
      && Chosen(d) in out && out[Chosen(d)] == Carried(d) && Alternate(d) !in out
      && (forall n :: n in AlwaysRemoved() ==> n !in out)
      && (AUTHORIZATION in out <==> resigned.Some?)
      && (resigned.Some? ==> out[AUTHORIZATION] == "Bearer " + resigned.value)
      && (Fold(identityHeader) != Chosen(d) && Fold(identityHeader) != AUTHORIZATION ==> Fold(identityHeader) !in out)
      && (forall n :: n in {CONTEXT_HEADER, TOKEN_HEADER, AUTHORIZATION, Fold(identityHeader)} || n in AlwaysRemoved()
            || ((n in out <==> n in h) && (n in h ==> out[n] == h[n])))
  {
    hide Fold, Names, AlwaysRemoved, With;
    ChoiceFolded();
    DeliveryNamesKept();
    RemovedAre(identityHeader, d, resigned);
    var r := AllowedResponse(identityHeader, d, resigned);
    WithOneOrTwo(Without(h, Names(r.removed)), r.put);
    assert r.put[0] == (Chosen(d), Carried(d));
    assert resigned.Some? ==> r.put[1] == (AUTHORIZATION, Bearer(resigned.value));
  }

  /** The headers a client could forge, by name. */
  lemma SpoofableNames()
    ensures AlwaysRemoved() == {"x-authguard-subject-id", "x-authguard-action", "x-authguard-resource-urn",
      "x-authguard-id-token", "x-authguard-issuer", "x-authguard-external-id", "x-authguard-groups",
      "x-authguard-claim-tenant-id"}
  {
    assert LEGACY[0] == "x-authguard-subject-id" && LEGACY[1] == "x-authguard-action" && LEGACY[2] == "x-authguard-resource-urn";
    assert UNTRUSTED[0] == "x-authguard-id-token" && UNTRUSTED[1] == "x-authguard-issuer" && UNTRUSTED[2] == "x-authguard-external-id";
    assert UNTRUSTED[3] == "x-authguard-groups" && UNTRUSTED[4] == "x-authguard-claim-tenant-id";
  }

  // ----- The workload's filter -----

  datatype RequestAccess = RequestAccess(principalId: string, action: string, resourceUrn: string,
                                         allow: seq<string>, deny: seq<string>)

  function AccessOf(input: Input): RequestAccess
  {
    RequestAccess(input.principalId, input.action, input.resourceUrn, input.allow, input.deny)
  }

  datatype Resolver = HeaderResolver | ScopeResolver

  function Header(h: Headers, name: string): Option<string>
  {
    if name in h && h[name] != "" then Some(h[name]) else None
  }

  /** What the workload sees at one moment: the key material, the clock and the scope service. */
  datatype Moment = Moment(crypto: Crypto, now: nat, fetch: string -> Option<string>)

  function ResolveWith(m: Moment, resolver: Resolver, h: Headers): Result<Option<RequestAccess>>
  {
    var header := Header(h, if resolver.HeaderResolver? then CONTEXT_HEADER else TOKEN_HEADER);
    if header.None? then Ok(None)
    else
      var encoded := if resolver.HeaderResolver? then Verify(m.crypto, header.value)
                     else (var e := m.fetch(header.value); if e.Some? then Ok(e.value) else Err);
      if encoded.Err? then Err
      else
        var c := Decode(m.crypto, encoded.value, m.now);
        if c.Err? then Err else Ok(Some(AccessOf(c.value.input)))
  }

  function Chain(m: Moment, resolvers: seq<Resolver>, h: Headers): Result<Option<RequestAccess>>
  {
    if resolvers == [] then Ok(None)
    else
      var first := ResolveWith(m, resolvers[0], h);
      if first == Ok(None) then Chain(m, resolvers[1..], h) else first
  }

  function Enter(m: Moment, resolvers: seq<Resolver>, h: Headers): Result<Option<RequestAccess>>
  {
    var direct, token := Header(h, CONTEXT_HEADER), Header(h, TOKEN_HEADER);
    if direct.Some? && token.Some? then Err
    else
      var r := Chain(m, resolvers, h);
      if r == Ok(None) && token.Some? then Err else r
  }

  lemma {:induction false} ChainFinds(m: Moment, resolvers: seq<Resolver>, h: Headers, mine: Resolver, other: Resolver)
    requires mine in resolvers && mine != other
    requires ResolveWith(m, other, h) == Ok(None) && ResolveWith(m, mine, h) != Ok(None)
    ensures Chain(m, resolvers, h) == ResolveWith(m, mine, h)
  {
    hide ResolveWith;
    assert resolvers[0] == mine || resolvers[0] == other;
    if resolvers[0] == other {
      assert mine in resolvers[1..];
      ChainFinds(m, resolvers[1..], h, mine, other);
    }
  }

  /** The filter recovered exactly this decision. */
  ghost predicate Recovered(r: Result<Option<RequestAccess>>, input: Input)
  {
    && r.Ok? && r.value.Some?
    && var x := r.value.value;
       && x.principalId == input.principalId && x.action == input.action && x.resourceUrn == input.resourceUrn
       && x.allow == input.allow && x.deny == input.deny
  }

  /** Direct delivery, seen from the filter. */
  lemma EnterDirect(m: Moment, resolvers: seq<Resolver>, h: Headers, c: Context)
    requires Laws(m.crypto) && Current(c, m.now) && HeaderResolver in resolvers
    requires CONTEXT_HEADER in h && h[CONTEXT_HEADER] == SignEncoded(m.crypto, Encode(m.crypto, c)) && TOKEN_HEADER !in h
    ensures Recovered(Enter(m, resolvers, h), c.input)
  {
    hide Laws, Current, SignEncoded, Encode, Verify, Decode, Chain;
    DirectRoundTrip(m.crypto, c, m.now);
    ChainFinds(m, resolvers, h, HeaderResolver, ScopeResolver);
  }

  /** Token delivery, seen from the filter. */
  lemma EnterToken(m: Moment, resolvers: seq<Resolver>, h: Headers, token: string, c: Context)
    requires Laws(m.crypto) && Current(c, m.now) && ScopeResolver in resolvers
    requires TOKEN_HEADER in h && h[TOKEN_HEADER] == token && token != "" && CONTEXT_HEADER !in h
    requires m.fetch(token) == Some(Encode(m.crypto, c))
    ensures Recovered(Enter(m, resolvers, h), c.input)
  {
    hide Laws, Current, Encode, Verify, Decode, Chain;
    DecodeEncode(m.crypto, c, m.now);
    ChainFinds(m, resolvers, h, ScopeResolver, HeaderResolver);
  }

  /** What the filter does when a header is missing or doubled, or nobody is configured to read it. */
  lemma EnterCases(m: Moment, resolvers: seq<Resolver>, h: Headers)
    ensures var direct := CONTEXT_HEADER in h && h[CONTEXT_HEADER] != "";
      var token := TOKEN_HEADER in h && h[TOKEN_HEADER] != "";
      var r := Enter(m, resolvers, h);
      && (direct && token ==> r == Err)
      && (!direct && !token ==> r == Ok(None))
      && (token && !direct && ScopeResolver !in resolvers ==> r == Err)
      && (direct && !token && HeaderResolver !in resolvers ==> r == Ok(None))
  {
    var direct, token := Header(h, CONTEXT_HEADER), Header(h, TOKEN_HEADER);
    if direct.None? && token.None? {
      ChainSilent(m, resolvers, h);
    } else if direct.None? && ScopeResolver !in resolvers {
      ChainSilent(m, resolvers, h);
    } else if token.None? && HeaderResolver !in resolvers {
      ChainSilent(m, resolvers, h);
    }
  }

  lemma {:induction false} ChainSilent(m: Moment, resolvers: seq<Resolver>, h: Headers)
    requires forall r :: r in resolvers ==> ResolveWith(m, r, h) == Ok(None)
    ensures Chain(m, resolvers, h) == Ok(None)
  {
    hide ResolveWith;
    if resolvers != [] {
      assert resolvers[0] in resolvers;
      ChainSilent(m, resolvers[1..], h);
    }
  }

  /** The context an access was read from: unexpired, of the right version, and carrying exactly that access. */
  ghost predicate Backed(m: Moment, encoded: string, x: RequestAccess)
  {
    exists b, c ::
      && EncodeBase64(b) == encoded && m.crypto.unjson(b) == Some(c)
      && c.version == 3 && c.expires > m.now && c.expires > c.issued
      && x.principalId == c.input.principalId && x.action == c.input.action && x.resourceUrn == c.input.resourceUrn
      && x.allow == c.input.allow && x.deny == c.input.deny
  }

  /** The filter grants access only on a payload signed with the key or answered by the scope service, while current. */
  lemma {:induction false} EnterOnlyTrusted(m: Moment, resolvers: seq<Resolver>, h: Headers)
    ensures var r := Enter(m, resolvers, h);
      r.Ok? && r.value.Some? ==>
        || (CONTEXT_HEADER in h && exists p :: h[CONTEXT_HEADER] == SignEncoded(m.crypto, p) && Backed(m, p, r.value.value))
        || (TOKEN_HEADER in h && exists e :: m.fetch(h[TOKEN_HEADER]) == Some(e) && Backed(m, e, r.value.value))
  {
    hide Chain, Backed, SignEncoded;
    var r := Chain(m, resolvers, h);
    if r.Ok? && r.value.Some? {
      var reader := ChainAnswers(m, resolvers, h);
      ResolverTrusts(m, reader, h);
    }
  }

  lemma {:induction false} ChainAnswers(m: Moment, resolvers: seq<Resolver>, h: Headers) returns (reader: Resolver)
    requires Chain(m, resolvers, h).Ok? && Chain(m, resolvers, h).value.Some?
    ensures ResolveWith(m, reader, h) == Chain(m, resolvers, h)
  {
    hide ResolveWith;
    reader := resolvers[0];
    if ResolveWith(m, reader, h) == Ok(None) {
      reader := ChainAnswers(m, resolvers[1..], h);
    }
  }

  lemma ResolverTrusts(m: Moment, resolver: Resolver, h: Headers)
    requires ResolveWith(m, resolver, h).Ok? && ResolveWith(m, resolver, h).value.Some?
    ensures var x := ResolveWith(m, resolver, h).value.value;
      || (CONTEXT_HEADER in h && exists p :: h[CONTEXT_HEADER] == SignEncoded(m.crypto, p) && Backed(m, p, x))
      || (TOKEN_HEADER in h && exists e :: m.fetch(h[TOKEN_HEADER]) == Some(e) && Backed(m, e, x))
  {
    hide Verify, SignEncoded, EncodeBase64, DecodeBase64;
    if resolver.HeaderResolver? {
      var p := Verify(m.crypto, h[CONTEXT_HEADER]).value;
      VerifiedWasSigned(m.crypto, h[CONTEXT_HEADER]);
      DecodeIff(p, DecodeBase64(p).value);
      assert Backed(m, p, ResolveWith(m, resolver, h).value.value);
    } else {
      var e := m.fetch(h[TOKEN_HEADER]).value;
      DecodeIff(e, DecodeBase64(e).value);
      assert Backed(m, e, ResolveWith(m, resolver, h).value.value);
    }
  }

  /** The scope service: a well-formed token whose cached context still lives. */
  function ResolveScope(k: Crypto, s: Scopes, token: string, now: nat): Option<string>
  {
    if !ValidScopeToken(token) then None
    else
      var loaded := LoadResult(s, token, now);
      if loaded.None? || Decode(k, loaded.value, now).Err? then None else loaded
  }

  lemma ResolvesCached(k: Crypto, s: Scopes, token: string, c: Context, now: nat)
    requires Laws(k) && Current(c, now) && ValidScopeToken(token) && LoadResult(s, token, now) == Some(Encode(k, c))
    ensures ResolveScope(k, s, token, now) == Some(Encode(k, c))
  {
    hide Laws, Current, Encode, Decode, ValidScopeToken, LoadResult;
    DecodeEncode(k, c, now);
  }

  /** It answers nothing else: a token of the right form, and a context that is current. */
  lemma ResolvesOnlyCurrent(k: Crypto, s: Scopes, token: string, now: nat)
    requires ResolveScope(k, s, token, now).Some?
    ensures var encoded := ResolveScope(k, s, token, now).value;
      && |token| == 47 && token[..4] == "ags_" && (forall i :: 4 <= i < 47 ==> UrlSafe(token[i]))
      && LoadResult(s, token, now) == Some(encoded)
      && exists b, c :: EncodeBase64(b) == encoded && k.unjson(b) == Some(c) && c.version == 3 && c.expires > now
  {
    hide EncodeBase64, DecodeBase64, LoadResult;
    var encoded := ResolveScope(k, s, token, now).value;
    DecodeIff(encoded, DecodeBase64(encoded).value);
  }

  /** What was stored is found until the cache drops it for age. */
  lemma StoredIsFound(conf: Config, s: Scopes, token: string, encoded: string, ttl: nat, now: nat, later: nat, s': Scopes, t: nat)
    requires Step(conf, s, Store(token, encoded, ttl, now, later), s') && t < ExpiresAt(ttl, conf.defaultTtl, later)
    ensures LoadResult(s', token, t) == Some(encoded)
  {
    hide Evicts, ExpiresAt;
  }

  /** With a time-to-live the cache does not shorten, a context that still lives is still cached. */
  lemma CurrentIsCached(input: Input, issued: nat, ttl: nat, defaultTtl: nat, later: nat, t: nat)
    requires ttl <= defaultTtl && issued <= later && Current(New(input, issued, ttl), t)
    ensures t < ExpiresAt(ttl, defaultTtl, later)
  {
  }

  /** Right after `prepare_delivery` stored a token, and as long as its context is current, the token is cached. */
  lemma FreshTokenIsCached(k: Crypto, input: Input, issued: nat, ttl: nat, conf: Config, s: Scopes, token: string,
                           now: nat, later: nat, s': Scopes, t: nat)
    requires Step(conf, s, Store(token, Encode(k, New(input, issued, ttl)), ttl, now, later), s')
    requires ttl <= conf.defaultTtl && issued <= later && Current(New(input, issued, ttl), t)
    ensures LoadResult(s', token, t) == Some(Encode(k, New(input, issued, ttl)))
  {
    hide *;
    CurrentIsCached(input, issued, ttl, conf.defaultTtl, later, t);
    StoredIsFound(conf, s, token, Encode(k, New(input, issued, ttl)), ttl, now, later, s', t);
  }

  /**
   Delivery equivalence: for one decision and any inbound headers, the filter recovers the same
   principal, action, resource and grants from the direct header and from a cached token, whichever
   of its two header lists the gateway applies first.
   */
  lemma DeliveryEquivalent(k: Crypto, input: Input, issued: nat, directTtl: nat, tokenTtl: nat, random: Bytes,
                           inbound: Headers, identityHeader: string, resigned: Option<string>,
                           scopes: Scopes, resolvers: seq<Resolver>, t: nat, fetch: string -> Option<string>)
    requires Laws(k) && |random| == TOKEN_BYTES
    requires HeaderResolver in resolvers && ScopeResolver in resolvers
    requires Fold(identityHeader) != CONTEXT_HEADER && Fold(identityHeader) != TOKEN_HEADER
    requires Current(New(input, issued, directTtl), t) && Current(New(input, issued, tokenTtl), t)
    requires LoadResult(scopes, NewScopeToken(random), t) == Some(Encode(k, New(input, issued, tokenTtl)))
    requires fetch(NewScopeToken(random)) == ResolveScope(k, scopes, NewScopeToken(random), t)
    ensures var direct := AllowedResponse(identityHeader, Direct(SignEncoded(k, Encode(k, New(input, issued, directTtl)))), resigned);
      var token := AllowedResponse(identityHeader, Token(NewScopeToken(random)), resigned);
      var m := Moment(k, t, fetch);
      && Recovered(Enter(m, resolvers, PutThenRemove(inbound, direct)), input)
      && Recovered(Enter(m, resolvers, PutThenRemove(inbound, token)), input)
      && Recovered(Enter(m, resolvers, RemoveThenPut(inbound, direct)), input)
      && Recovered(Enter(m, resolvers, RemoveThenPut(inbound, token)), input)
  {
    hide *;
    var c, d := New(input, issued, directTtl), New(input, issued, tokenTtl);
    SameInput(input, issued, directTtl);
    SameInput(input, issued, tokenTtl);
    var direct, token := Direct(SignEncoded(k, Encode(k, c))), Token(NewScopeToken(random));
    var m := Moment(k, t, fetch);
    Received(inbound, identityHeader, direct, resigned);
    Received(inbound, identityHeader, token, resigned);
    EnterDirect(m, resolvers, PutThenRemove(inbound, AllowedResponse(identityHeader, direct, resigned)), c);
    NewTokensAreValid(random);
    ValidIsNonempty(token.token);
    ResolvesCached(k, scopes, token.token, d, t);
    EnterToken(m, resolvers, PutThenRemove(inbound, AllowedResponse(identityHeader, token, resigned)), token.token, d);
  }

  /**
   The same over whole runs of the cache: event i stored the token for this decision, and at any later
   point j of the run, among any other stores and loads, the filter recovers the same access by either
   delivery while the contexts are current, if fewer than `capacity` other tokens were touched since.
   */
  lemma DeliveryEquivalentOverRun(k: Crypto, input: Input, issued: nat, directTtl: nat, tokenTtl: nat, random: Bytes,
                                  inbound: Headers, identityHeader: string, resigned: Option<string>,
                                  r: Run, i: nat, j: nat, resolvers: seq<Resolver>, t: nat, fetch: string -> Option<string>)
    requires Laws(k) && |random| == TOKEN_BYTES
    requires HeaderResolver in resolvers && ScopeResolver in resolvers
    requires Fold(identityHeader) != CONTEXT_HEADER && Fold(identityHeader) != TOKEN_HEADER
    requires Current(New(input, issued, directTtl), t) && Current(New(input, issued, tokenTtl), t)
    requires IsRun(r) && i < j <= |r.events| <= U64_MAX && r.events[i].Store?
    requires r.events[i].token == NewScopeToken(random) && r.events[i].context == Encode(k, New(input, issued, tokenTtl))
    requires r.events[i].ttl == tokenTtl <= r.config.defaultTtl && issued <= r.events[i].later
    requires NotStoredAgain(r, i, j, NewScopeToken(random)) && |Others(r, i + 1, j, NewScopeToken(random))| < r.config.capacity
    requires forall n :: i < n < j ==> r.events[n].now <= t
    requires fetch(NewScopeToken(random)) == ResolveScope(k, r.states[j], NewScopeToken(random), t)
    ensures var direct := AllowedResponse(identityHeader, Direct(SignEncoded(k, Encode(k, New(input, issued, directTtl)))), resigned);
      var token := AllowedResponse(identityHeader, Token(NewScopeToken(random)), resigned);
      var m := Moment(k, t, fetch);
      && Recovered(Enter(m, resolvers, RemoveThenPut(inbound, direct)), input)
      && Recovered(Enter(m, resolvers, RemoveThenPut(inbound, token)), input)
  {
    var scopes := r.states[j];
    hide *;
    CurrentIsCached(input, issued, tokenTtl, r.config.defaultTtl, r.events[i].later, t);
    StoredAnswers(r, i, j, NewScopeToken(random), t);
    DeliveryEquivalent(k, input, issued, directTtl, tokenTtl, random, inbound, identityHeader, resigned,
                       scopes, resolvers, t, fetch);
  }

  lemma SameInput(input: Input, issued: nat, ttl: nat)
    ensures New(input, issued, ttl).input == input
  {
  }

  lemma ValidIsNonempty(token: string)
    requires ValidScopeToken(token)
    ensures token != ""
  {
  }

  /** What reaches the workload, whichever list the gateway applies first. */
  lemma Received(h: Headers, identityHeader: string, d: AccessDelivery, resigned: Option<string>)
    requires Fold(identityHeader) != CONTEXT_HEADER && Fold(identityHeader) != TOKEN_HEADER
    ensures RemoveThenPut(h, AllowedResponse(identityHeader, d, resigned)) == PutThenRemove(h, AllowedResponse(identityHeader, d, resigned))
    ensures var out := PutThenRemove(h, AllowedResponse(identityHeader, d, resigned));
      && (d.Direct? ==> CONTEXT_HEADER in out && out[CONTEXT_HEADER] == d.encoded && TOKEN_HEADER !in out)
      && (d.Token? ==> TOKEN_HEADER in out && out[TOKEN_HEADER] == d.token && CONTEXT_HEADER !in out)
  {
    hide Fold, Names, AlwaysRemoved, With, AllowedResponse, RemoveThenPut, PutThenRemove, Disjoint;
    var r := AllowedResponse(identityHeader, d, resigned);
    DisjointIff(identityHeader, d, resigned);
    OrderIrrelevantIff(r);
    OneDeliveryHeader(h, identityHeader, d, resigned);
  }
}
