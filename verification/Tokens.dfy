/**
 The canonical identity token: projecting an authentication's claims into the principal context,
 issuing the signed token, and reading it back.  A character stands for one byte.  JSON
 and RSA are any functions with the stated laws; string order is any strict total order.
 */
module Tokens {
  import opened Collections
  import opened Base64Url
  import opened Strings
  import opened CompactTokens
  import opened ConfigPath
  import MemoryCache

  const MAX_GROUPS: nat := 128
  const MAX_GROUP_BYTES: nat := 16 * 1024
  const MAX_CLAIM_BYTES: nat := 64 * 1024
  const JWT_HEADER := "eyJhbGciOiJSUzI1NiIsInR5cCI6IkpXVCJ9"

  /** Claims that never pass as trusted context. */
  predicate Boundary(name: string)
  {
    || name == "iss" || name == "sub" || name == "aud" || name == "iat" || name == "exp" || name == "nbf" || name == "jti"
    || name == "provider" || name == "access_token" || name == "refresh_token" || name == "authorization_code"
    || name == "principal_id" || name == "principal_kind" || name == "authguard_group_ids"
    || name == "acr" || name == "amr" || name == "authguardOrigin"
  }

  predicate Reserved(name: string)
  {
    name == "username" || name == "email" || name == "display_name" || Boundary(name)
  }

  datatype Json = Null | Bool(value: bool) | Int(number: nat) | Number(text: string) | Str(chars: string) | Arr(items: seq<Json>) | Obj

  type Object = map<string, Json>

  function Scalar(v: Json): Option<string>
  {
    match v
    case Str(s) => Some(s)
    case Bool(b) => Some(if b then "true" else "false")
    case Int(n) => Some(Decimal(n))
    case Number(text) => Some(text)
    case _ => None
  }

  function AsStr(v: Option<Json>): Option<string>
  {
    if v.Some? && v.value.Str? then Some(v.value.chars) else None
  }

  function Get(o: Object, name: string): Option<Json>
  {
    if name in o then Some(o[name]) else None
  }

  predicate AllStr(items: seq<Json>) { forall i :: 0 <= i < |items| ==> items[i].Str? }

  function Texts(items: seq<Json>): seq<string>
    requires AllStr(items)
  {
    seq(|items|, i requires 0 <= i < |items| => items[i].chars)
  }

  function Strs(texts: seq<string>): seq<Json>
  {
    seq(|texts|, i requires 0 <= i < |texts| => Str(texts[i]))
  }

  lemma TextsOfStrs(texts: seq<string>)
    ensures AllStr(Strs(texts)) && Texts(Strs(texts)) == texts
  {
  }

  /** `canonical` is the validity test of identifiers; it refuses the empty string. */
  datatype Env = Env(lt: Less<string>, canonical: string -> bool,
                     write: Object -> Bytes, read: Bytes -> Option<Object>,
                     sign: string -> Bytes, verifies: (string, Bytes) -> bool)

  ghost predicate Laws(e: Env)
  {
    && StrictOrder(e.lt) && !e.canonical("")
    && (forall o :: e.write(o) != [] && e.read(e.write(o)) == Some(o))
    && (forall s :: e.sign(s) != [] && e.verifies(s, e.sign(s)))
  }

  // ----- Sizes -----

  /** Bytes of names and values together, in whatever order they are added up. */
  ghost function Size(m: map<string, string>): nat
  {
    if m == map[] then 0
    else
      var k :| k in m;
      |k| + |m[k]| + Size(m - {k})
  }

  lemma {:induction false} SizeWithout(m: map<string, string>, k: string)
    requires k in m
    ensures Size(m) == |k| + |m[k]| + Size(m - {k})
    decreases |m|
  {
    var c :| c in m && Size(m) == |c| + |m[c]| + Size(m - {c});
    if c != k {
      SizeWithout(m - {c}, k);
      SizeWithout(m - {k}, c);
      assert m - {c} - {k} == m - {k} - {c};
    }
  }

  lemma SizeWith(m: map<string, string>, k: string, v: string)
    requires k !in m
    ensures Size(m[k := v]) == Size(m) + |k| + |v|
  {
    hide Size;
    SizeWithout(m[k := v], k);
    assert m[k := v] - {k} == m;
  }

  function TotalBytes(ss: seq<string>): nat
  {
    if ss == [] then 0 else |ss[0]| + TotalBytes(ss[1..])
  }

  // ----- Groups -----

  /** Adds to an ascending list unless present. */
  function Insert(lt: Less<string>, x: string, s: seq<string>): seq<string>
  {
    if s == [] then [x]
    else if s[0] == x then s
    else if lt(x, s[0]) then [x] + s
    else [s[0]] + Insert(lt, x, s[1..])
  }

  /** `sort` followed by `dedup`. */
  function SortDedup(lt: Less<string>, s: seq<string>): seq<string>
  {
    if s == [] then [] else Insert(lt, s[0], SortDedup(lt, s[1..]))
  }

  lemma {:induction false} InsertMembers(lt: Less<string>, x: string, s: seq<string>)
    ensures forall k :: k in Insert(lt, x, s) <==> k == x || k in s
    ensures |Insert(lt, x, s)| <= |s| + 1 && TotalBytes(Insert(lt, x, s)) <= TotalBytes(s) + |x|
  {
    var r := Insert(lt, x, s);
    if s != [] && s[0] != x && !lt(x, s[0]) {
      InsertMembers(lt, x, s[1..]);
      assert r[1..] == Insert(lt, x, s[1..]);
      assert s == [s[0]] + s[1..] && r == [r[0]] + r[1..];
    } else if s != [] && s[0] != x {
      assert r[1..] == s;
    } else if s == [] {
      assert r[1..] == [];
    }
  }

  lemma {:induction false} InsertAscends(lt: Less<string>, x: string, s: seq<string>)
    requires StrictOrder(lt) && Ascending(lt, s)
    ensures Ascending(lt, Insert(lt, x, s))
  {
    if s != [] && s[0] != x && !lt(x, s[0]) {
      InsertMembers(lt, x, s[1..]);
      InsertAscends(lt, x, s[1..]);
      var rest := Insert(lt, x, s[1..]);
      forall j | 0 <= j < |rest| ensures lt(s[0], rest[j]) {
        assert rest[j] in rest;
        assert rest[j] == x || rest[j] in s[1..];
      }
    } else if s != [] && s[0] != x {
      forall j | 0 <= j < |s| ensures lt(x, s[j]) {
        assert j == 0 || lt(s[0], s[j]);
      }
    }
  }

  lemma {:induction false} SortDedupMeans(lt: Less<string>, s: seq<string>)
    requires StrictOrder(lt)
    ensures Ascending(lt, SortDedup(lt, s)) && forall k :: k in SortDedup(lt, s) <==> k in s
    ensures |SortDedup(lt, s)| <= |s| && TotalBytes(SortDedup(lt, s)) <= TotalBytes(s)
  {
    hide Insert, StrictOrder;
    if s != [] {
      SortDedupMeans(lt, s[1..]);
      InsertMembers(lt, s[0], SortDedup(lt, s[1..]));
      InsertAscends(lt, s[0], SortDedup(lt, s[1..]));
      assert s == [s[0]] + s[1..];
    }
  }

  predicate GroupsOk(e: Env, groups: seq<string>)
  {
    |groups| <= MAX_GROUPS && TotalBytes(groups) <= MAX_GROUP_BYTES && forall i :: 0 <= i < |groups| ==> e.canonical(groups[i])
  }

  function GroupValues(v: Json): Option<seq<string>>
  {
    match v
    case Str(s) => Some([s])
    case Arr(items) => if AllStr(items) then Some(Texts(items)) else None
    case _ => None
  }

  function ProjectGroups(e: Env, v: Option<Json>): seq<string>
  {
    var groups := if v.Some? then GroupValues(v.value) else None;
    if groups.Some? && GroupsOk(e, groups.value) then SortDedup(e.lt, groups.value) else []
  }

  function ReadGroups(e: Env, v: Option<Json>): Result<seq<string>>
  {
    if v.None? || v.value.Null? then Ok([])
    else
      var groups := GroupValues(v.value);
      if groups.None? || !GroupsOk(e, groups.value) then Err else Ok(SortDedup(e.lt, groups.value))
  }

  /** Groups that were projected come back unchanged. */
  lemma GroupsReadBack(e: Env, v: Option<Json>)
    requires StrictOrder(e.lt)
    ensures ReadGroups(e, Some(Arr(Strs(ProjectGroups(e, v))))) == Ok(ProjectGroups(e, v))
  {
    hide SortDedup, TotalBytes, StrictOrder;
    var given := if v.Some? then GroupValues(v.value) else None;
    var groups := ProjectGroups(e, v);
    TextsOfStrs(groups);
    if given.Some? && GroupsOk(e, given.value) {
      SortDedupMeans(e.lt, given.value);
      forall i | 0 <= i < |groups| ensures e.canonical(groups[i]) {
        assert groups[i] in groups;
      }
    } else {
      NoBytes();
      SortDedupNil(e.lt);
    }
    assert GroupsOk(e, groups);
    SortDedupMeans(e.lt, groups);
    if given.Some? && GroupsOk(e, given.value) {
      AscendingUnique(e.lt, SortDedup(e.lt, groups), groups);
    }
  }

  lemma NoBytes()
    ensures TotalBytes([]) == 0
  {
  }

  lemma SortDedupNil(lt: Less<string>)
    ensures SortDedup(lt, []) == []
  {
  }

  // ----- Projection -----

  predicate Projectable(e: Env, claim: (string, Json))
  {
    !Reserved(claim.0) && Scalar(claim.1).Some? && e.canonical(claim.0)
  }

  ghost predicate DistinctNames(claims: seq<(string, Json)>)
  {
    forall i, j :: 0 <= i < j < |claims| ==> claims[i].0 != claims[j].0
  }

  /** The claims kept so far, in name order; one that does not fit is passed over and later ones may still fit. */
  ghost predicate Kept(e: Env, claims: seq<(string, Json)>, context: map<string, string>)
  {
    && Size(context) <= MAX_CLAIM_BYTES
    && (forall n :: n in context ==> !Reserved(n) && exists i :: 0 <= i < |claims| && claims[i].0 == n && Scalar(claims[i].1) == Some(context[n]))
    && (forall i :: 0 <= i < |claims| && Projectable(e, claims[i]) && claims[i].0 !in context ==>
          |claims[i].0| + |Scalar(claims[i].1).value| + Size(context) > MAX_CLAIM_BYTES)
  }

  lemma KeepOne(e: Env, claims: seq<(string, Json)>, context: map<string, string>, c: (string, Json), kept: bool)
    requires Kept(e, claims, context) && c.0 !in context
    requires kept ==> Projectable(e, c) && |c.0| + |Scalar(c.1).value| + Size(context) <= MAX_CLAIM_BYTES
    requires !kept ==> Projectable(e, c) ==> |c.0| + |Scalar(c.1).value| + Size(context) > MAX_CLAIM_BYTES
    ensures Kept(e, claims + [c], if kept then context[c.0 := Scalar(c.1).value] else context)
  {
    hide Size, Reserved;
    var longer := claims + [c];
    assert longer[|claims|] == c;
    assert forall i :: 0 <= i < |claims| ==> longer[i] == claims[i];
    if kept {
      SizeWith(context, c.0, Scalar(c.1).value);
    }
    var after := if kept then context[c.0 := Scalar(c.1).value] else context;
    forall n | n in after ensures !Reserved(n) && exists i :: 0 <= i < |longer| && longer[i].0 == n && Scalar(longer[i].1) == Some(after[n]) {
      if n in context && (n != c.0 || !kept) {
        var i :| 0 <= i < |claims| && claims[i].0 == n && Scalar(claims[i].1) == Some(context[n]);
        assert longer[i].0 == n;
      }
    }
  }

  /** One pass in name order with a running total. */
  function Projected(e: Env, claims: seq<(string, Json)>): (map<string, string>, nat)
  {
    if claims == [] then (map[], 0)
    else
      var (context, used) := Projected(e, claims[..|claims| - 1]);
      var (name, value) := claims[|claims| - 1];
      if Projectable(e, (name, value)) && used + |name| + |Scalar(value).value| <= MAX_CLAIM_BYTES
      then (context[name := Scalar(value).value], used + |name| + |Scalar(value).value|)
      else (context, used)
  }

  lemma {:induction false} ProjectedKept(e: Env, claims: seq<(string, Json)>)
    requires DistinctNames(claims)
    ensures Kept(e, claims, Projected(e, claims).0) && Projected(e, claims).1 == Size(Projected(e, claims).0)
  {
    if claims != [] {
      hide Kept, Size, Projectable;
      var before, c := claims[..|claims| - 1], claims[|claims| - 1];
      assert claims == before + [c];
      ProjectedKept(e, before);
      var (context, used) := Projected(e, before);
      NotYet(e, claims, |claims| - 1, context);
      var kept := Projectable(e, c) && used + |c.0| + |Scalar(c.1).value| <= MAX_CLAIM_BYTES;
      ProjectableIsScalar(e, c);
      KeepOne(e, before, context, c, kept);
      if kept {
        SizeWith(context, c.0, Scalar(c.1).value);
      }
    } else {
      NothingKept(e);
    }
  }

  lemma ProjectableIsScalar(e: Env, c: (string, Json))
    ensures Projectable(e, c) ==> Scalar(c.1).Some?
  {
  }

  lemma NothingKept(e: Env)
    ensures Kept(e, [], map[]) && Size(map[]) == 0
  {
  }

  method ProjectContext(e: Env, claims: seq<(string, Json)>) returns (context: map<string, string>)
    ensures context == Projected(e, claims).0
  {
    hide Reserved, Scalar;
    context := map[];
    var used := 0;
    for i := 0 to |claims|
      invariant (context, used) == Projected(e, claims[..i])
    {
      assert claims[..i + 1][..i] == claims[..i];
      var (name, value) := claims[i];
      if Reserved(name) {
        continue;
      }
      var scalar := Scalar(value);
      if scalar.None? {
        continue;
      }
      var size := |name| + |scalar.value|;
      if !e.canonical(name) || used + size > MAX_CLAIM_BYTES {
        continue;
      }
      used := used + size;
      context := context[name := scalar.value];
    }
    assert claims[..|claims|] == claims;
  }

  lemma NotYet(e: Env, claims: seq<(string, Json)>, i: nat, context: map<string, string>)
    requires DistinctNames(claims) && i < |claims| && Kept(e, claims[..i], context)
    ensures claims[i].0 !in context
  {
    hide Size, Reserved, Scalar;
  }

  /** Authentication methods, each once, in the order first given. */
  function Distinct(methods: seq<string>): (r: seq<string>)
    ensures forall m :: m in r <==> m in methods
    ensures forall i, j :: 0 <= i < j < |r| ==> r[i] != r[j]
  {
    if methods == [] then []
    else
      var before, last := Distinct(methods[..|methods| - 1]), methods[|methods| - 1];
      assert methods == methods[..|methods| - 1] + [last];
      if last in before then before else before + [last]
  }

  method DistinctMethods(methods: seq<string>) returns (amr: seq<string>)
    ensures amr == Distinct(methods)
    ensures "mfa" in amr <==> "mfa" in methods
  {
    amr := [];
    for i := 0 to |methods|
      invariant amr == Distinct(methods[..i])
    {
      assert methods[..i + 1][..i] == methods[..i];
      if methods[i] !in amr {
        amr := amr + [methods[i]];
      }
    }
    assert methods[..|methods|] == methods;
  }

  // ----- Issuing -----

  datatype Kind = User | Workload | Group

  function KindText(k: Kind): string { match k case User => "USER" case Workload => "WORKLOAD" case Group => "GROUP" }

  function ParseKind(s: string): Option<Kind>
  {
    if s == "USER" then Some(User) else if s == "WORKLOAD" then Some(Workload) else if s == "GROUP" then Some(Group) else None
  }

  datatype Principal = Principal(id: string, kind: Kind, groups: seq<string>, trusted: map<string, string>,
                                 acr: Option<string>, amr: seq<string>)

  datatype Issuer = Issuer(issuer: string, audience: string, ttl: nat)

  function TrustedClaims(m: map<string, string>): Object { map n | n in m :: Str(m[n]) }

  function StandardClaims(c: Issuer, p: Principal, authTime: nat, now: nat): Object
  {
    map["iss" := Str(c.issuer), "aud" := Str(c.audience), "sub" := Str(p.id), "principal_id" := Str(p.id),
        "principal_kind" := Str(KindText(p.kind)), "authguard_group_ids" := Arr(Strs(p.groups)),
        "amr" := Arr(Strs(p.amr)), "auth_time" := Int(authTime), "iat" := Int(now),
        "exp" := Int(MemoryCache.SaturatingAdd(now, c.ttl))]
  }

  /** The token's claims: standard claims replace trusted ones of the same name. */
  function Claims(c: Issuer, p: Principal, authTime: nat, now: nat): Object
  {
    var claims := TrustedClaims(p.trusted) + StandardClaims(c, p, authTime, now);
    if p.acr.Some? then claims["acr" := Str(p.acr.value)] else claims
  }

  function SignJwt(e: Env, payload: Bytes): string
  {
    var input := JWT_HEADER + ['.'] + EncodeBase64(payload);
    input + ['.'] + EncodeBase64(e.sign(input))
  }

  function VerifyJwt(e: Env, token: string): Result<Bytes>
  {
    var parts := Split(token, '.');
    if |parts| != 3 || parts[0] != JWT_HEADER || parts[1] == "" || parts[2] == "" then Err
    else
      var signature, payload := DecodeBase64(parts[2]), DecodeBase64(parts[1]);
      if signature.None? || !e.verifies(JWT_HEADER + ['.'] + parts[1], signature.value) || payload.None? then Err
      else Ok(payload.value)
  }

  function Issue(e: Env, c: Issuer, p: Principal, authTime: nat, now: nat): string
  {
    SignJwt(e, e.write(Claims(c, p, authTime, now)))
  }

  // ----- Reading -----

  function Scalars(o: Object): map<string, string>
  {
    map n | n in o && !Boundary(n) && Scalar(o[n]).Some? :: Scalar(o[n]).value
  }

  method ReadScalars(o: Object) returns (m: map<string, string>, bytes: nat)
    ensures m == Scalars(o) && bytes == Size(m)
  {
    hide Size, Scalar, Boundary;
    m, bytes := map[], 0;
    NoSize();
    var rest := o.Keys;
    while rest != {}
      invariant rest <= o.Keys && bytes == Size(m)
      invariant m == map n | n in Scalars(o) && n !in rest :: Scalars(o)[n]
      decreases |rest|
    {
      var name :| name in rest;
      rest := rest - {name};
      var value := Scalar(o[name]);
      if !Boundary(name) && value.Some? {
        SizeWith(m, name, value.value);
        bytes := bytes + |name| + |value.value|;
        m := m[name := value.value];
      }
    }
  }

  lemma NoSize()
    ensures Size(map[]) == 0
  {
  }

  function ReadStrings(v: Option<Json>): Result<seq<string>>
  {
    if v.None? || v.value.Null? then Ok([])
    else if v.value.Arr? && AllStr(v.value.items) then Ok(Texts(v.value.items))
    else Err
  }

  function Mfa(amr: seq<string>): string { if "mfa" in amr then "true" else "false" }

  ghost function FromClaims(e: Env, o: Object): Result<Principal>
  {
    var id, kind := AsStr(Get(o, "principal_id")), AsStr(Get(o, "principal_kind"));
    if id.None? || !e.canonical(id.value) then Err
    else if kind.None? || ParseKind(kind.value).None? then Err
    else
      var groups, amr := ReadGroups(e, Get(o, "authguard_group_ids")), ReadStrings(Get(o, "amr"));
      if groups.Err? || Size(Scalars(o)) > MAX_CLAIM_BYTES || amr.Err? then Err
      else Ok(Principal(id.value, ParseKind(kind.value).value, groups.value, Scalars(o)["mfa" := Mfa(amr.value)],
                        AsStr(Get(o, "acr")), amr.value))
  }

  predicate AudienceMatches(v: Option<Json>, expected: string)
  {
    v.Some? && match v.value
               case Str(s) => s == expected
               case Arr(items) => Str(expected) in items
               case _ => false
  }

  predicate Accepts(c: Issuer, o: Object, now: nat)
  {
    var id, exp := AsStr(Get(o, "principal_id")), Get(o, "exp");
    && id.Some? && id.value != ""
    && AsStr(Get(o, "sub")) == id && AsStr(Get(o, "iss")) == Some(c.issuer)
    && AudienceMatches(Get(o, "aud"), c.audience)
    && exp.Some? && exp.value.Int? && exp.value.number > now
  }

  ghost function Authenticate(e: Env, c: Issuer, token: string, now: nat): Result<Principal>
  {
    var payload := VerifyJwt(e, token);
    if payload.Err? then Err
    else
      var o := e.read(payload.value);
      if o.None? || !Accepts(c, o.value, now) then Err else FromClaims(e, o.value)
  }

  // ----- Round trip -----

  lemma JwtRoundTrip(e: Env, payload: Bytes)
    requires Laws(e) && payload != []
    ensures VerifyJwt(e, SignJwt(e, payload)) == Ok(payload)
  {
    hide Split, EncodeBase64, DecodeBase64;
    var body := EncodeBase64(payload);
    var input := JWT_HEADER + ['.'] + body;
    var signature := EncodeBase64(e.sign(input));
    EncodedReads(payload);
    EncodedReads(e.sign(input));
    hide AllUrlSafe;
    SafeHasNoDot(body);
    SafeHasNoDot(signature);
    HeaderHasNoDot();
    SplitSigned(JWT_HEADER, body, signature);
    SplitWhole(body, '.');
  }

  lemma HeaderHasNoDot()
    ensures '.' !in JWT_HEADER
  {
  }

  /** The trusted claims a reader sees: the projected ones with the time of authentication. */
  function Seen(p: Principal, authTime: nat): map<string, string>
  {
    p.trusted["auth_time" := Decimal(authTime)]
  }

  lemma StandardNames()
    ensures Boundary("iss") && Boundary("aud") && Boundary("sub") && Boundary("principal_id") && Boundary("principal_kind")
    ensures Boundary("authguard_group_ids") && Boundary("amr") && Boundary("iat") && Boundary("exp") && Boundary("acr")
  {
  }

  lemma AuthTimeIsFree()
    ensures !Boundary("auth_time")
  {
  }

  /** Enough of each standard name to tell them apart. */
  lemma NamesDiffer()
    ensures "iss"[0] == 'i' && "iss"[1] == 's' && "iat"[0] == 'i' && "iat"[1] == 'a' && "exp"[0] == 'e' && "sub"[0] == 's'
    ensures "aud"[0] == 'a' && "aud"[1] == 'u' && "amr"[0] == 'a' && "amr"[1] == 'm' && "acr"[0] == 'a' && "acr"[1] == 'c'
  {
  }

  ghost predicate NoBoundary(m: map<string, string>)
  {
    forall n :: n in m ==> !Boundary(n)
  }

  lemma AcrIsExtra(c: Issuer, p: Principal, authTime: nat, now: nat)
    ensures "acr" !in StandardClaims(c, p, authTime, now)
  {
    hide Strs, KindText, Boundary;
    NamesDiffer();
  }

  lemma StandardAreBoundary(c: Issuer, p: Principal, authTime: nat, now: nat, n: string)
    requires !Boundary(n)
    ensures Get(StandardClaims(c, p, authTime, now), n) == if n == "auth_time" then Some(Int(authTime)) else None
  {
    hide Strs, KindText, Boundary;
    StandardNames();
  }

  /** Beyond the boundary the claims are the trusted ones and the time of authentication. */
  lemma StandardOnly(c: Issuer, p: Principal, authTime: nat, now: nat, n: string)
    requires !Boundary(n)
    ensures Get(Claims(c, p, authTime, now), n)
      == if n == "auth_time" then Some(Int(authTime)) else if n in p.trusted then Some(Str(p.trusted[n])) else None
  {
    hide StandardClaims, Boundary;
    StandardNames();
    StandardAreBoundary(c, p, authTime, now, n);
  }

  /** Exactly the trusted claims pass the boundary again. */
  lemma ScalarsOfClaims(c: Issuer, p: Principal, authTime: nat, now: nat)
    requires NoBoundary(p.trusted)
    ensures Scalars(Claims(c, p, authTime, now)) == Seen(p, authTime)
  {
    hide Decimal, Claims, Boundary;
    AuthTimeIsFree();
    var o, m := Claims(c, p, authTime, now), Seen(p, authTime);
    forall n | n in Scalars(o) ensures n in m && Scalars(o)[n] == m[n] {
      StandardOnly(c, p, authTime, now, n);
    }
    forall n | n in m ensures n in Scalars(o) {
      StandardOnly(c, p, authTime, now, n);
    }
  }

  lemma IdentityClaims(c: Issuer, p: Principal, authTime: nat, now: nat)
    ensures var o := Claims(c, p, authTime, now);
      && Get(o, "sub") == Some(Str(p.id)) && Get(o, "principal_id") == Some(Str(p.id))
      && Get(o, "principal_kind") == Some(Str(KindText(p.kind)))
      && Get(o, "authguard_group_ids") == Some(Arr(Strs(p.groups)))
  {
    hide Strs, KindText, Boundary;
    NamesDiffer();
  }

  lemma ProtocolClaims(c: Issuer, p: Principal, authTime: nat, now: nat)
    ensures var o := Claims(c, p, authTime, now);
      && Get(o, "iss") == Some(Str(c.issuer)) && Get(o, "aud") == Some(Str(c.audience))
      && Get(o, "amr") == Some(Arr(Strs(p.amr)))
      && Get(o, "exp") == Some(Int(MemoryCache.SaturatingAdd(now, c.ttl)))
  {
    hide Strs, KindText, Boundary;
    NamesDiffer();
  }

  lemma AssuranceClaim(c: Issuer, p: Principal, authTime: nat, now: nat)
    requires NoBoundary(p.trusted)
    ensures Get(Claims(c, p, authTime, now), "acr") == (if p.acr.Some? then Some(Str(p.acr.value)) else None)
  {
    hide StandardClaims, Boundary;
    StandardNames();
    AcrIsExtra(c, p, authTime, now);
  }

  lemma AcceptsClaims(c: Issuer, p: Principal, authTime: nat, now: nat, later: nat)
    requires p.id != ""
    ensures Accepts(c, Claims(c, p, authTime, now), later) <==> later < MemoryCache.SaturatingAdd(now, c.ttl)
  {
    hide Claims;
    IdentityClaims(c, p, authTime, now);
    ProtocolClaims(c, p, authTime, now);
  }

  lemma ClaimsReadBack(e: Env, c: Issuer, p: Principal, authTime: nat, now: nat)
    requires e.canonical(p.id) && NoBoundary(p.trusted)
    requires ReadGroups(e, Some(Arr(Strs(p.groups)))) == Ok(p.groups)
    ensures FromClaims(e, Claims(c, p, authTime, now))
      == if Size(Seen(p, authTime)) <= MAX_CLAIM_BYTES then Ok(p.(trusted := Seen(p, authTime)["mfa" := Mfa(p.amr)])) else Err
  {
    hide Claims, Scalars, Seen, Size, Strs, ReadGroups, KindText, ParseKind, NoBoundary;
    IdentityClaims(c, p, authTime, now);
    ProtocolClaims(c, p, authTime, now);
    AssuranceClaim(c, p, authTime, now);
    ScalarsOfClaims(c, p, authTime, now);
    KindReadsBack(p.kind);
    TextsOfStrs(p.amr);
  }

  lemma KindReadsBack(k: Kind)
    ensures ParseKind(KindText(k)) == Some(k)
  {
  }

  /**
   Issue then authenticate: before expiry the context read back is the issued one with `auth_time` and
   `mfa` set, exactly when the trusted claims with `auth_time` fit the reader's cap; otherwise it is refused.
   */
  lemma IssueAuthenticate(e: Env, c: Issuer, p: Principal, authTime: nat, now: nat, later: nat)
    requires Laws(e) && e.canonical(p.id) && NoBoundary(p.trusted)
    requires ReadGroups(e, Some(Arr(Strs(p.groups)))) == Ok(p.groups)
    ensures Authenticate(e, c, Issue(e, c, p, authTime, now), later)
      == if later < now + c.ttl && later < MemoryCache.U64_MAX && Size(p.trusted["auth_time" := Decimal(authTime)]) <= MAX_CLAIM_BYTES
         then Ok(p.(trusted := p.trusted["auth_time" := Decimal(authTime)]["mfa" := if "mfa" in p.amr then "true" else "false"]))
         else Err
  {
    var o := Claims(c, p, authTime, now);
    assert e.write(o) != [] && e.read(e.write(o)) == Some(o);
    assert p.id != "";
    hide Laws, Claims, SignJwt, VerifyJwt, FromClaims, Accepts, Decimal, Size, NoBoundary;
    JwtRoundTrip(e, e.write(o));
    AcceptsClaims(c, p, authTime, now, later);
    ClaimsReadBack(e, c, p, authTime, now);
  }

  /** The whole pipeline: what linking found, with the projected context, survives issuing and reading. */
  lemma PipelineRoundTrip(e: Env, c: Issuer, id: string, kind: Kind, claims: seq<(string, Json)>, groups: Option<Json>,
                          acr: Option<string>, amr: seq<string>, authTime: nat, now: nat, later: nat)
    requires Laws(e) && e.canonical(id) && DistinctNames(claims)
    ensures var trusted := Projected(e, claims).0;
      var p := Principal(id, kind, ProjectGroups(e, groups), trusted, acr, amr);
      && Authenticate(e, c, Issue(e, c, p, authTime, now), later)
         == (if later < now + c.ttl && later < MemoryCache.U64_MAX && Size(trusted["auth_time" := Decimal(authTime)]) <= MAX_CLAIM_BYTES
             then Ok(p.(trusted := trusted["auth_time" := Decimal(authTime)]["mfa" := if "mfa" in amr then "true" else "false"]))
             else Err)
      && ("auth_time" !in trusted && Size(trusted) + |"auth_time"| + |Decimal(authTime)| <= MAX_CLAIM_BYTES
          ==> Size(trusted["auth_time" := Decimal(authTime)]) <= MAX_CLAIM_BYTES)
  {
    hide Authenticate, Issue, ReadGroups, ProjectGroups, Size, Projected, Decimal, Boundary;
    var trusted := Projected(e, claims).0;
    var p := Principal(id, kind, ProjectGroups(e, groups), trusted, acr, amr);
    ProjectedKept(e, claims);
    assert StrictOrder(e.lt);
    GroupsReadBack(e, groups);
    IssueAuthenticate(e, c, p, authTime, now, later);
    if "auth_time" !in trusted {
      SizeWith(trusted, "auth_time", Decimal(authTime));
    }
  }

  function Fill(n: nat): string { seq(n, _ => 'x') }

  /** The cap is real: one claim that fills the projection leaves no room, and the issued token cannot be read. */
  lemma FullProjectionRefused(e: Env, c: Issuer, id: string, kind: Kind, authTime: nat, now: nat, later: nat)
    requires Laws(e) && e.canonical(id) && e.canonical("tenant")
    ensures var claim := ("tenant", Str(Fill(MAX_CLAIM_BYTES - |"tenant"|)));
      var p := Principal(id, kind, [], Projected(e, [claim]).0, None, []);
      && claim.0 in p.trusted && Authenticate(e, c, Issue(e, c, p, authTime, now), later) == Err
  {
    var claim := ("tenant", Str(Fill(MAX_CLAIM_BYTES - |"tenant"|)));
    var p := Principal(id, kind, [], Projected(e, [claim]).0, None, []);
    PipelineRoundTrip(e, c, id, kind, [claim], None, None, [], authTime, now, later);
    FullProjection(e, claim);
    hide Authenticate, Issue, Size, Projected, Decimal, Fill;
    NoSize();
    SizeWith(map[], claim.0, claim.1.chars);
    SizeWith(p.trusted, "auth_time", Decimal(authTime));
  }

  lemma FullProjection(e: Env, claim: (string, Json))
    requires claim.1.Str? && |claim.0| + |claim.1.chars| == MAX_CLAIM_BYTES && claim.0 == "tenant" && e.canonical("tenant")
    ensures Projected(e, [claim]).0 == map["tenant" := claim.1.chars]
  {
    assert [claim][..0] == [];
    TenantIsFree();
  }

  lemma TenantIsFree()
    ensures !Reserved("tenant")
  {
  }
}
