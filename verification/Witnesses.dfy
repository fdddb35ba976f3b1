/**
 The laws assumed of foreign functions can be met: for every record of such functions, a value that
 has the laws, and for the two longest chains of hypotheses an instance that meets all of them.
 */
module Witnesses {
  import opened Collections
  import opened Base64Url
  import opened Strings
  import AccessContext
  import Challenges
  import Delivery
  import KeysetWalk
  import MemoryCache
  import opened Tokens

  // ----- An order of strings -----

  predicate Lexical(a: string, b: string)
  {
    if b == "" then false
    else if a == "" then true
    else if a[0] != b[0] then a[0] < b[0]
    else Lexical(a[1..], b[1..])
  }

  lemma {:induction false} LexicalIrreflexive(a: string)
    ensures !Lexical(a, a)
  {
    if a != "" {
      LexicalIrreflexive(a[1..]);
    }
  }

  lemma {:induction false} LexicalTransitive(a: string, b: string, c: string)
    requires Lexical(a, b) && Lexical(b, c)
    ensures Lexical(a, c)
  {
    if a != "" && a[0] == b[0] && b[0] == c[0] {
      LexicalTransitive(a[1..], b[1..], c[1..]);
    }
  }

  lemma {:induction false} LexicalTotal(a: string, b: string)
    requires a != b
    ensures Lexical(a, b) || Lexical(b, a)
  {
    if a != "" && b != "" && a[0] == b[0] {
      assert a == [a[0]] + a[1..] && b == [b[0]] + b[1..];
      LexicalTotal(a[1..], b[1..]);
    }
  }

  /** Character order, shorter first, is a strict total order with "" least. */
  lemma StringOrderMet()
    ensures StrictOrder(Lexical) && KeysetWalk.StrictTotal(Lexical)
  {
    forall a ensures !Lexical(a, a) { LexicalIrreflexive(a); }
    forall a, b, c | Lexical(a, b) && Lexical(b, c) ensures Lexical(a, c) { LexicalTransitive(a, b, c); }
    forall a, b | a != b ensures Lexical(a, b) || Lexical(b, a) { LexicalTotal(a, b); }
  }

  /** ASCII lower-casing leaves the LIKE language alone. */
  lemma LowerCaseMet()
    ensures KeysetWalk.KeepsSpecials(LowerChar)
  {
  }

  // ----- Values as bytes -----

  /** A number in unary, closed by a zero. */
  function Ones(n: nat): Bytes
  {
    if n == 0 then [0] else [1] + Ones(n - 1)
  }

  lemma {:induction false} OnesPrefix(m: nat, n: nat, r: Bytes, s: Bytes)
    requires Ones(m) + r == Ones(n) + s
    ensures m == n && r == s
  {
    assert (Ones(m) + r)[0] == (Ones(n) + s)[0];
    if m > 0 && n > 0 {
      assert Ones(m - 1) + r == (Ones(m) + r)[1..];
      assert Ones(n - 1) + s == (Ones(n) + s)[1..];
      OnesPrefix(m - 1, n - 1, r, s);
    } else {
      assert r == (Ones(m) + r)[1..] && s == (Ones(n) + s)[1..];
    }
  }

  function Text(t: string): Bytes
  {
    if t == "" then Ones(0) else Ones(1) + (Ones(t[0] as nat) + Text(t[1..]))
  }

  lemma {:induction false} TextPrefix(a: string, b: string, r: Bytes, s: Bytes)
    requires Text(a) + r == Text(b) + s
    ensures a == b && r == s
  {
    hide Ones;
    var x := if a == "" then r else Ones(a[0] as nat) + Text(a[1..]) + r;
    var y := if b == "" then s else Ones(b[0] as nat) + Text(b[1..]) + s;
    assert Text(a) + r == Ones(if a == "" then 0 else 1) + x;
    assert Text(b) + s == Ones(if b == "" then 0 else 1) + y;
    OnesPrefix(if a == "" then 0 else 1, if b == "" then 0 else 1, x, y);
    if a != "" {
      assert x == Ones(a[0] as nat) + (Text(a[1..]) + r) && y == Ones(b[0] as nat) + (Text(b[1..]) + s);
      OnesPrefix(a[0] as nat, b[0] as nat, Text(a[1..]) + r, Text(b[1..]) + s);
      TextPrefix(a[1..], b[1..], r, s);
      assert a == [a[0]] + a[1..] && b == [b[0]] + b[1..];
    }
  }

  function Code(v: Json): Bytes
    decreases v, 0
  {
    match v
    case Null => Ones(0)
    case Bool(b) => Ones(1) + Ones(if b then 1 else 0)
    case Int(n) => Ones(2) + Ones(n)
    case Number(t) => Ones(3) + Text(t)
    case Str(t) => Ones(4) + Text(t)
    case Arr(items) => Ones(5) + Items(items)
    case Obj => Ones(6)
  }

  function Items(vs: seq<Json>): Bytes
    decreases vs, 0
  {
    if vs == [] then Ones(0) else Ones(1) + (Code(vs[0]) + Items(vs[1..]))
  }

  function Tag(v: Json): nat
  {
    match v case Null => 0 case Bool(_) => 1 case Int(_) => 2 case Number(_) => 3 case Str(_) => 4 case Arr(_) => 5 case Obj => 6
  }

  function Body(v: Json): Bytes
  {
    match v
    case Bool(b) => Ones(if b then 1 else 0)
    case Int(n) => Ones(n)
    case Number(t) => Text(t)
    case Str(t) => Text(t)
    case Arr(items) => Items(items)
    case _ => []
  }

  lemma CodeIs(v: Json, r: Bytes)
    ensures Code(v) + r == Ones(Tag(v)) + (Body(v) + r)
  {
    hide Ones, Text, Items;
  }

  /** No code is the beginning of another, so a code determines its value. */
  lemma {:induction false} CodePrefix(v: Json, w: Json, r: Bytes, s: Bytes)
    requires Code(v) + r == Code(w) + s
    ensures v == w && r == s
    decreases v, 0
  {
    hide Ones, Text, Items, Code;
    CodeIs(v, r);
    CodeIs(w, s);
    OnesPrefix(Tag(v), Tag(w), Body(v) + r, Body(w) + s);
    match v
    case Null => assert Body(v) + r == r && Body(w) + s == s;
    case Obj => assert Body(v) + r == r && Body(w) + s == s;
    case Bool(b) => OnesPrefix(if b then 1 else 0, if w.value then 1 else 0, r, s);
    case Int(n) => OnesPrefix(n, w.number, r, s);
    case Number(t) => TextPrefix(t, w.text, r, s);
    case Str(t) => TextPrefix(t, w.chars, r, s);
    case Arr(items) => ItemsPrefix(items, w.items, r, s);
  }

  lemma ItemsAre(vs: seq<Json>, r: Bytes)
    ensures Items(vs) + r == if vs == [] then Ones(0) + r else Ones(1) + (Code(vs[0]) + (Items(vs[1..]) + r))
  {
    hide Ones, Code;
  }

  lemma {:induction false} ItemsPrefix(vs: seq<Json>, ws: seq<Json>, r: Bytes, s: Bytes)
    requires Items(vs) + r == Items(ws) + s
    ensures vs == ws && r == s
    decreases vs, 0
  {
    hide Ones, Code, Items;
    ItemsAre(vs, r);
    ItemsAre(ws, s);
    var x := if vs == [] then r else Code(vs[0]) + (Items(vs[1..]) + r);
    var y := if ws == [] then s else Code(ws[0]) + (Items(ws[1..]) + s);
    OnesPrefix(if vs == [] then 0 else 1, if ws == [] then 0 else 1, x, y);
    if vs != [] {
      CodePrefix(vs[0], ws[0], Items(vs[1..]) + r, Items(ws[1..]) + s);
      ItemsPrefix(vs[1..], ws[1..], r, s);
      assert vs == [vs[0]] + vs[1..] && ws == [ws[0]] + ws[1..];
    }
  }

  lemma CodeInjective(v: Json, w: Json)
    requires Code(v) == Code(w)
    ensures v == w
  {
    hide Code;
    assert Code(v) + [] == Code(w) + [];
    CodePrefix(v, w, [], []);
  }

  lemma CodeNonempty(v: Json)
    ensures Code(v) != []
  {
    hide Text, Items;
  }

  // ----- Objects -----

  ghost predicate Lists(vs: seq<Json>, o: Object)
  {
    forall k, v :: Arr([Str(k), v]) in vs <==> k in o && o[k] == v
  }

  lemma {:induction false} ListingExists(o: Object) returns (vs: seq<Json>)
    ensures Lists(vs, o)
    decreases |o|
  {
    if o == map[] {
      vs := [];
    } else {
      var k :| k in o;
      var rest := ListingExists(o - {k});
      vs := [Arr([Str(k), o[k]])] + rest;
    }
  }

  ghost function Listing(o: Object): (vs: seq<Json>)
    ensures Lists(vs, o)
  {
    assert exists vs :: Lists(vs, o) by { var vs := ListingExists(o); }
    var vs :| Lists(vs, o);
    vs
  }

  ghost function WriteObject(o: Object): Bytes { Code(Arr(Listing(o))) }

  lemma WriteInjective(o: Object, p: Object)
    requires WriteObject(o) == WriteObject(p)
    ensures o == p
  {
    hide Code;
    CodeInjective(Arr(Listing(o)), Arr(Listing(p)));
    var vs := Listing(o);
    forall k | k in o ensures k in p && p[k] == o[k] { assert Arr([Str(k), o[k]]) in vs; }
    forall k | k in p ensures k in o { assert Arr([Str(k), p[k]]) in vs; }
  }

  ghost function ReadObject(b: Bytes): Option<Object>
  {
    if exists o :: WriteObject(o) == b then (var o :| WriteObject(o) == b; Some(o)) else None
  }

  lemma ObjectReadsBack(o: Object)
    ensures WriteObject(o) != [] && ReadObject(WriteObject(o)) == Some(o)
  {
    hide Code;
    CodeNonempty(Arr(Listing(o)));
    var p := ReadObject(WriteObject(o)).value;
    WriteInjective(o, p);
  }

  /** The laws of the identity token's environment can be met. */
  lemma TokenLawsMet() returns (e: Env)
    ensures Laws(e) && forall s :: s != "" ==> e.canonical(s)
  {
    e := Env(Lexical, s => s != "", WriteObject, ReadObject, s => [0], (s, b) => true);
    StringOrderMet();
    hide WriteObject, ReadObject;
    forall o ensures e.write(o) != [] && e.read(e.write(o)) == Some(o) { ObjectReadsBack(o); }
  }

  // ----- Access contexts -----

  function ContextJson(c: AccessContext.Context): Json
  {
    Arr([Int(c.version), Str(c.input.principalId), Str(c.input.action), Str(c.input.resourceUrn), Arr(Strs(c.input.allow)),
         Arr(Strs(c.input.deny)), Int(c.input.revision), Int(c.issued), Int(c.expires)])
  }

  function WriteContext(c: AccessContext.Context): Bytes { Code(ContextJson(c)) }

  ghost function ReadContext(b: Bytes): Option<AccessContext.Context>
  {
    if exists c :: WriteContext(c) == b then (var c :| WriteContext(c) == b; Some(c)) else None
  }

  lemma ContextJsonInjective(c: AccessContext.Context, d: AccessContext.Context)
    requires ContextJson(c) == ContextJson(d)
    ensures c == d
  {
    hide Strs;
    var v, w := ContextJson(c).items, ContextJson(d).items;
    assert forall i :: 0 <= i < 9 ==> v[i] == w[i];
    assert v[4] == w[4] && v[5] == w[5];
    TextsOfStrs(c.input.allow);
    TextsOfStrs(d.input.allow);
    TextsOfStrs(c.input.deny);
    TextsOfStrs(d.input.deny);
  }

  lemma ContextReadsBack(c: AccessContext.Context)
    ensures WriteContext(c) != [] && ReadContext(WriteContext(c)) == Some(c)
  {
    hide Code, ContextJson;
    CodeNonempty(ContextJson(c));
    var d := ReadContext(WriteContext(c)).value;
    CodeInjective(ContextJson(c), ContextJson(d));
    ContextJsonInjective(c, d);
  }

  /** The laws of the access context's foreign functions can be met. */
  lemma ContextLawsMet() returns (k: AccessContext.Crypto)
    ensures AccessContext.Laws(k)
  {
    k := AccessContext.Crypto(WriteContext, ReadContext, s => [0]);
    hide WriteContext, ReadContext;
    forall c ensures k.json(c) != [] && k.unjson(k.json(c)) == Some(c) { ContextReadsBack(c); }
  }

  // ----- Challenges -----

  function OptionJson(s: Option<string>): Json { if s.Some? then Str(s.value) else Null }

  function ChallengeJson(c: Challenges.Challenge): Json
  {
    Arr([Str(c.provider), Str(c.returnUri), Bool(c.redirect), OptionJson(c.nonce), OptionJson(c.verifier), OptionJson(c.link)])
  }

  function WriteChallenge(c: Challenges.Challenge): Bytes { Code(ChallengeJson(c)) }

  ghost function ReadChallenge(b: Bytes): Option<Challenges.Challenge>
  {
    if exists c :: WriteChallenge(c) == b then (var c :| WriteChallenge(c) == b; Some(c)) else None
  }

  lemma ChallengeReadsBack(c: Challenges.Challenge)
    ensures ReadChallenge(WriteChallenge(c)) == Some(c)
  {
    hide Code;
    var d := ReadChallenge(WriteChallenge(c)).value;
    CodeInjective(ChallengeJson(c), ChallengeJson(d));
    var v, w := ChallengeJson(c).items, ChallengeJson(d).items;
    assert v[0] == w[0] && v[1] == w[1] && v[2] == w[2] && v[3] == w[3] && v[4] == w[4] && v[5] == w[5];
  }

  /** The laws of the challenge store's environment can be met. */
  lemma ChallengeLawsMet() returns (env: Challenges.Env)
    ensures Challenges.Sound(env)
  {
    env := Challenges.Env(s => s, Challenges.Codec(WriteChallenge, ReadChallenge));
    hide WriteChallenge, ReadChallenge;
    forall c ensures env.codec.decode(env.codec.encode(c)) == Some(c) { ChallengeReadsBack(c); }
  }

  // ----- Delivery -----

  /** All hypotheses of the delivery theorem hold together: a one-second context in a cache that holds its token. */
  lemma DeliveryMet(input: AccessContext.Input) returns (k: AccessContext.Crypto, random: Bytes, scopes: MemoryCache.Scopes, fetch: string -> Option<string>)
    ensures AccessContext.Laws(k) && |random| == Delivery.TOKEN_BYTES
    ensures var c := AccessContext.New(input, 0, MemoryCache.NANOS_PER_SECOND);
      var token := Delivery.NewScopeToken(random);
      && AccessContext.Current(c, 0)
      && MemoryCache.LoadResult(scopes, token, 0) == Some(AccessContext.Encode(k, c))
      && fetch(token) == Delivery.ResolveScope(k, scopes, token, 0)
  {
    k := ContextLawsMet();
    hide AccessContext.Laws, AccessContext.Encode, Delivery.NewScopeToken, Delivery.ResolveScope;
    random := seq(Delivery.TOKEN_BYTES, _ => 0);
    var c := AccessContext.New(input, 0, MemoryCache.NANOS_PER_SECOND);
    var token := Delivery.NewScopeToken(random);
    scopes := MemoryCache.Scopes(map[token := MemoryCache.Entry(AccessContext.Encode(k, c), 1, 0)], 0);
    var answer := Delivery.ResolveScope(k, scopes, token, 0);
    fetch := t => answer;
  }

  /** The same for whole runs: a cache whose only event so far stored the token. */
  lemma DeliveryRunMet(input: AccessContext.Input) returns (k: AccessContext.Crypto, random: Bytes, r: MemoryCache.Run, fetch: string -> Option<string>)
    ensures AccessContext.Laws(k) && |random| == Delivery.TOKEN_BYTES
    ensures MemoryCache.IsRun(r) && |r.events| == 1 && r.events[0].Store?
    ensures var ttl := MemoryCache.NANOS_PER_SECOND;
      var c := AccessContext.New(input, 0, ttl);
      var token := Delivery.NewScopeToken(random);
      && AccessContext.Current(c, 0)
      && r.events[0] == MemoryCache.Store(token, AccessContext.Encode(k, c), ttl, 0, 0) && r.config.defaultTtl == ttl
      && MemoryCache.NotStoredAgain(r, 0, 1, token) && |MemoryCache.Others(r, 1, 1, token)| < r.config.capacity
      && fetch(token) == Delivery.ResolveScope(k, r.states[1], token, 0)
  {
    k := ContextLawsMet();
    hide AccessContext.Laws, AccessContext.Encode, Delivery.NewScopeToken, Delivery.ResolveScope;
    random := seq(Delivery.TOKEN_BYTES, _ => 0);
    var ttl := MemoryCache.NANOS_PER_SECOND;
    var c := AccessContext.New(input, 0, ttl);
    var token, encoded := Delivery.NewScopeToken(random), AccessContext.Encode(k, c);
    var conf := MemoryCache.Config(1, ttl);
    var before := MemoryCache.Scopes(map[], 0);
    var after := MemoryCache.Scopes(map[token := MemoryCache.Entry(encoded, 1, 1)], 1);
    r := MemoryCache.Run(conf, [before, after], [MemoryCache.Store(token, encoded, ttl, 0, 0)]);
    assert MemoryCache.Live(before.entries, 0) == map[];
    assert MemoryCache.Evicts(1, map[], token, map[]);
    assert MemoryCache.Step(conf, before, r.events[0], after);
    var answer := Delivery.ResolveScope(k, r.states[1], token, 0);
    fetch := t => answer;
  }
}
