/**
 One-time challenges: the OAuth authorize and callback steps over the shared store of one-time
 values, interleaved with every other ceremony that uses that store.  The digest is any injective
 function, the JSON codec any pair where decoding undoes encoding.
 */
module Challenges {
  import opened Base64Url
  import opened Strings
  import opened MemoryCache

  const NUL := '\0'
  const KEY_PREFIX := "authn-challenge:v1:"
  const OAUTH := "oauth"
  const OTHER_PURPOSES := ["wallet-siwx", "standalone-webauthn-registration", "standalone-webauthn-authentication", "standalone-totp-enrollment"]

  ghost predicate Injective(digest: string -> string)
  {
    forall a, b :: digest(a) == digest(b) ==> a == b
  }

  function ChallengeKey(digest: string -> string, purpose: string, id: string): string
  {
    KEY_PREFIX + digest(purpose + [NUL] + id)
  }

  lemma {:induction false} SeparatorDecides(p: string, i: string, q: string, j: string)
    requires NUL !in p && NUL !in q && p + [NUL] + i == q + [NUL] + j
    ensures p == q && i == j
  {
    hide IndexOf;
    var s, t := p + [NUL] + i, q + [NUL] + j;
    assert s[..|p|] == p && t[..|q|] == q;
    IndexOfUnique(s, NUL, |p|);
    IndexOfUnique(t, NUL, |q|);
    assert s[|p| + 1..] == i && t[|q| + 1..] == j;
  }

  /** Purposes free of the separator never share a key, whatever the challenge ids. */
  lemma KeysDistinct(digest: string -> string, p: string, i: string, q: string, j: string)
    requires Injective(digest) && NUL !in p && NUL !in q
    ensures ChallengeKey(digest, p, i) == ChallengeKey(digest, q, j) <==> p == q && i == j
  {
    var a, b := ChallengeKey(digest, p, i), ChallengeKey(digest, q, j);
    if a == b {
      assert a[|KEY_PREFIX|..] == digest(p + [NUL] + i);
      assert b[|KEY_PREFIX|..] == digest(q + [NUL] + j);
      SeparatorDecides(p, i, q, j);
    }
  }

  /** The other ceremonies of the service use purposes of their own. */
  lemma PurposesSeparate()
    ensures NUL !in OAUTH
    ensures forall i :: 0 <= i < |OTHER_PURPOSES| ==> OTHER_PURPOSES[i] != OAUTH && NUL !in OTHER_PURPOSES[i]
  {
  }

  /** A purpose holding the separator could collide: the restriction above is needed. */
  lemma SeparatorInPurposeCollides(digest: string -> string, a: string, b: string, c: string)
    ensures ChallengeKey(digest, a + [NUL] + b, c) == ChallengeKey(digest, a, b + [NUL] + c)
  {
    assert a + [NUL] + b + [NUL] + c == a + [NUL] + (b + [NUL] + c);
  }

  datatype Challenge = Challenge(provider: string, returnUri: string, redirect: bool,
                                 nonce: Option<string>, verifier: Option<string>, link: Option<string>)

  datatype Codec = Codec(encode: Challenge -> Bytes, decode: Bytes -> Option<Challenge>)

  ghost predicate Lawful(c: Codec)
  {
    forall x :: c.decode(c.encode(x)) == Some(x)
  }

  /** One authorization attempt: its random state value and what was recorded for it. */
  datatype Flow = Flow(state: string, challenge: Challenge)

  /**
   `begun`: authorizations that redirected the user.  `pending`: callbacks between consuming the
   challenge and the provider's answer.  `issued`: callbacks that issued an authentication.
   */
  datatype System = System(values: map<string, Stored<Bytes>>, begun: multiset<Flow>, pending: multiset<Flow>, issued: multiset<Flow>)

  datatype Event =
    | Authorize(flow: Flow, expires: nat, now: nat)
    | Callback(provider: string, state: string, now: nat)
    | Finish(flow: Flow, success: bool)
    | OtherPut(purpose: string, id: string, bytes: Bytes, expires: nat, now: nat)
    | OtherTake(purpose: string, id: string, now: nat)

  datatype Env = Env(digest: string -> string, codec: Codec)

  ghost predicate Sound(env: Env) { Injective(env.digest) && Lawful(env.codec) }

  function OauthKey(env: Env, state: string): string { ChallengeKey(env.digest, OAUTH, state) }

  /** The challenge a callback obtains: recorded, unexpired and for the same provider. */
  function Obtained(env: Env, taken: Option<Bytes>, provider: string): Option<Challenge>
  {
    if taken.None? then None
    else
      var c := env.codec.decode(taken.value);
      if c.Some? && c.value.provider == provider then c else None
  }

  ghost predicate Step(env: Env, s: System, e: Event, t: System)
  {
    match e
    case Authorize(flow, expires, now) =>
      var (values, stored) := Put(s.values, OauthKey(env, flow.state), env.codec.encode(flow.challenge), expires, now);
      t == s.(values := values, begun := if stored then s.begun + multiset{flow} else s.begun)
    case Callback(provider, state, now) =>
      var (values, taken) := Taken(s.values, OauthKey(env, state), now);
      var c := Obtained(env, taken, provider);
      t == s.(values := values, pending := if c.Some? then s.pending + multiset{Flow(state, c.value)} else s.pending)
    case Finish(flow, success) =>
      && flow in s.pending
      && t == s.(pending := s.pending - multiset{flow}, issued := if success then s.issued + multiset{flow} else s.issued)
    case OtherPut(purpose, id, bytes, expires, now) =>
      && purpose != OAUTH && NUL !in purpose
      && t == s.(values := Put(s.values, ChallengeKey(env.digest, purpose, id), bytes, expires, now).0)
    case OtherTake(purpose, id, now) =>
      && purpose != OAUTH && NUL !in purpose
      && t == s.(values := Taken(s.values, ChallengeKey(env.digest, purpose, id), now).0)
  }

  function Initial(): System { System(map[], multiset{}, multiset{}, multiset{}) }

  ghost predicate IsRun(env: Env, states: seq<System>, events: seq<Event>)
  {
    && |states| == |events| + 1 && states[0] == Initial()
    && forall i :: 0 <= i < |events| ==> Step(env, states[i], events[i], states[i + 1])
  }

  // ----- The invariant -----

  /** 1 while the flow's challenge sits in the store. */
  function Held(env: Env, values: map<string, Stored<Bytes>>, f: Flow): nat
  {
    var k := OauthKey(env, f.state);
    if k in values && env.codec.decode(values[k].value) == Some(f.challenge) then 1 else 0
  }

  /** Stored, pending and issued uses of a flow never exceed the authorizations that began it. */
  ghost predicate Conserved(env: Env, s: System)
  {
    forall f :: s.issued[f] + s.pending[f] + Held(env, s.values, f) <= s.begun[f]
  }

  lemma HeldAfterPut(env: Env, values: map<string, Stored<Bytes>>, key: string, bytes: Bytes, expires: nat, now: nat, f: Flow)
    ensures var (after, stored) := Put(values, key, bytes, expires, now);
      Held(env, after, f) <= if stored && key == OauthKey(env, f.state)
                             then (if env.codec.decode(bytes) == Some(f.challenge) then 1 else 0)
                             else Held(env, values, f)
  {
  }

  lemma HeldAfterTake(env: Env, values: map<string, Stored<Bytes>>, key: string, now: nat, f: Flow)
    ensures var (after, taken) := Taken(values, key, now);
      && Held(env, after, f) <= Held(env, values, f)
      && (key == OauthKey(env, f.state) ==> Held(env, after, f) == 0)
      && (key == OauthKey(env, f.state) && taken.Some? && env.codec.decode(taken.value) == Some(f.challenge) ==> Held(env, values, f) == 1)
  {
  }

  lemma StepConserves(env: Env, s: System, e: Event, t: System)
    requires Sound(env) && Conserved(env, s) && Step(env, s, e, t)
    ensures Conserved(env, t)
  {
    hide Put, Taken, Held, ChallengeKey, Injective, Lawful;
    forall f ensures t.issued[f] + t.pending[f] + Held(env, t.values, f) <= t.begun[f] {
      assert s.issued[f] + s.pending[f] + Held(env, s.values, f) <= s.begun[f];
      match e
      case Authorize(flow, expires, now) =>
        AuthorizeConserves(env, s, flow, expires, now, t, f);
      case Callback(provider, state, now) =>
        CallbackConserves(env, s, provider, state, now, t, f);
      case Finish(_, _) =>
      case OtherPut(purpose, id, bytes, expires, now) =>
        KeysDistinct(env.digest, purpose, id, OAUTH, f.state);
        HeldAfterPut(env, s.values, ChallengeKey(env.digest, purpose, id), bytes, expires, now, f);
      case OtherTake(purpose, id, now) =>
        HeldAfterTake(env, s.values, ChallengeKey(env.digest, purpose, id), now, f);
    }
  }

  lemma AuthorizeConserves(env: Env, s: System, flow: Flow, expires: nat, now: nat, t: System, f: Flow)
    requires Sound(env) && Step(env, s, Authorize(flow, expires, now), t)
    requires s.issued[f] + s.pending[f] + Held(env, s.values, f) <= s.begun[f]
    ensures t.issued[f] + t.pending[f] + Held(env, t.values, f) <= t.begun[f]
  {
    hide Put, Taken, Held, ChallengeKey;
    KeysDistinct(env.digest, OAUTH, flow.state, OAUTH, f.state);
    assert env.codec.decode(env.codec.encode(flow.challenge)) == Some(flow.challenge);
    HeldAfterPut(env, s.values, OauthKey(env, flow.state), env.codec.encode(flow.challenge), expires, now, f);
  }

  lemma CallbackConserves(env: Env, s: System, provider: string, state: string, now: nat, t: System, f: Flow)
    requires Sound(env) && Step(env, s, Callback(provider, state, now), t)
    requires s.issued[f] + s.pending[f] + Held(env, s.values, f) <= s.begun[f]
    ensures t.issued[f] + t.pending[f] + Held(env, t.values, f) <= t.begun[f]
  {
    hide Put, Taken, Held, ChallengeKey;
    KeysDistinct(env.digest, OAUTH, state, OAUTH, f.state);
    HeldAfterTake(env, s.values, OauthKey(env, state), now, f);
    var taken := Taken(s.values, OauthKey(env, state), now).1;
    var c := Obtained(env, taken, provider);
    if c.Some? {
      var g := Flow(state, c.value);
      assert t.pending[f] == s.pending[f] + if f == g then 1 else 0;
      assert f == g ==> taken.Some? && env.codec.decode(taken.value) == Some(f.challenge);
    }
  }

  lemma {:induction false} RunConserves(env: Env, states: seq<System>, events: seq<Event>, i: nat)
    requires Sound(env) && IsRun(env, states, events) && i < |states|
    ensures Conserved(env, states[i])
  {
    hide Step, Sound, Conserved;
    if i > 0 {
      RunConserves(env, states, events, i - 1);
      StepConserves(env, states[i - 1], events[i - 1], states[i]);
    } else {
      NothingHeld(env);
    }
  }

  lemma NothingHeld(env: Env)
    ensures Conserved(env, Initial())
  {
  }

  // ----- What follows -----

  /**
   Every issued authentication uses up one begun authorization with the same state, provider, nonce,
   verifier and link principal.
   */
  lemma IssuedWereBegun(env: Env, states: seq<System>, events: seq<Event>, i: nat)
    requires Sound(env) && IsRun(env, states, events) && i < |states|
    ensures states[i].issued <= states[i].begun
  {
    hide IsRun, Sound;
    RunConserves(env, states, events, i);
  }

  /** State values drawn at random do not repeat. */
  ghost predicate FreshStates(s: System)
  {
    forall f, g :: f in s.begun && g in s.begun && f.state == g.state ==> f == g && s.begun[f] == 1
  }

  /** Each state value yields at most one issued authentication, in every interleaving. */
  lemma AtMostOneIssue(env: Env, states: seq<System>, events: seq<Event>, i: nat, f: Flow, g: Flow)
    requires Sound(env) && IsRun(env, states, events) && i < |states| && FreshStates(states[i])
    requires f in states[i].issued && g in states[i].issued && f.state == g.state
    ensures f == g && states[i].issued[f] == 1
    ensures states[i].pending[f] == 0 && Held(env, states[i].values, f) == 0
  {
    hide IsRun, Sound;
    RunConserves(env, states, events, i);
    assert states[i].issued[f] + states[i].pending[f] + Held(env, states[i].values, f) <= states[i].begun[f];
    assert states[i].issued[g] + states[i].pending[g] + Held(env, states[i].values, g) <= states[i].begun[g];
  }

  /** A callback for another provider gets nothing and spends the challenge all the same. */
  lemma WrongProviderSpends(env: Env, s: System, e: Event, t: System, f: Flow)
    requires Step(env, s, e, t) && e.Callback? && e.state == f.state && e.provider != f.challenge.provider
    requires Held(env, s.values, f) == 1
    ensures t.pending == s.pending && Held(env, t.values, f) == 0
    ensures OauthKey(env, f.state) !in t.values
  {
    hide ChallengeKey;
  }

  /** Steps that leave a stored challenge where it is: nobody calls back with its state, and it does not expire. */
  ghost predicate Spares(e: Event, state: string, expires: nat)
  {
    match e
    case Callback(_, s, now) => s != state && now < expires
    case Finish(_, _) => true
    case _ => e.now < expires
  }

  ghost predicate Waits(env: Env, s: System, f: Flow, expires: nat)
  {
    var k := OauthKey(env, f.state);
    k in s.values && s.values[k] == Stored(env.codec.encode(f.challenge), expires)
  }

  lemma StepSpares(env: Env, s: System, e: Event, t: System, f: Flow, expires: nat)
    requires Sound(env) && Step(env, s, e, t) && Waits(env, s, f, expires) && Spares(e, f.state, expires)
    ensures Waits(env, t, f, expires)
  {
    hide Put, Taken, ChallengeKey, Lawful, Injective;
    var k := OauthKey(env, f.state);
    match e
    case Authorize(flow, expiry, now) =>
      PutSpares(s.values, k, OauthKey(env, flow.state), env.codec.encode(flow.challenge), expiry, now);
    case Callback(_, state, now) =>
      KeysDistinct(env.digest, OAUTH, state, OAUTH, f.state);
      TakeSpares(s.values, k, OauthKey(env, state), now);
    case Finish(_, _) =>
    case OtherPut(purpose, id, bytes, expiry, now) =>
      PutSpares(s.values, k, ChallengeKey(env.digest, purpose, id), bytes, expiry, now);
    case OtherTake(purpose, id, now) =>
      KeysDistinct(env.digest, purpose, id, OAUTH, f.state);
      TakeSpares(s.values, k, ChallengeKey(env.digest, purpose, id), now);
  }

  /** An unexpired value stays through any put, even one under its own key. */
  lemma PutSpares(values: map<string, Stored<Bytes>>, k: string, key: string, bytes: Bytes, expires: nat, now: nat)
    requires k in values && now < values[k].expires
    ensures var after := Put(values, key, bytes, expires, now).0; k in after && after[k] == values[k]
  {
  }

  lemma TakeSpares(values: map<string, Stored<Bytes>>, k: string, key: string, now: nat)
    requires k in values && now < values[k].expires && key != k
    ensures var after := Taken(values, key, now).0; k in after && after[k] == values[k]
  {
  }

  /** Until then the challenge is there, whatever the other ceremonies do. */
  lemma {:induction false} ChallengeWaits(env: Env, states: seq<System>, events: seq<Event>, f: Flow, expires: nat, first: nat, last: nat)
    requires Sound(env) && IsRun(env, states, events) && first <= last < |states|
    requires Waits(env, states[first], f, expires)
    requires forall i :: first <= i < last ==> Spares(events[i], f.state, expires)
    ensures Waits(env, states[last], f, expires)
    decreases last
  {
    hide Step, Sound, Waits, Spares;
    if first < last {
      ChallengeWaits(env, states, events, f, expires, first, last - 1);
      StepSpares(env, states[last - 1], events[last - 1], states[last], f, expires);
    }
  }

  /** And the first callback of the right provider obtains exactly what was recorded. */
  lemma CallbackObtains(env: Env, s: System, e: Event, t: System, f: Flow, expires: nat)
    requires Sound(env) && Step(env, s, e, t) && Waits(env, s, f, expires)
    requires e.Callback? && e.state == f.state && e.provider == f.challenge.provider && e.now < expires
    ensures t.pending == s.pending + multiset{f}
  {
    hide ChallengeKey, Injective;
    assert env.codec.decode(env.codec.encode(f.challenge)) == Some(f.challenge);
  }

  // ----- The code -----

  method PutJson(cache: MemoryAuthorizationCache, env: Env, purpose: string, id: string, payload: Challenge, ttl: nat, now: nat, later: nat)
    returns (stored: bool)
    modifies cache`values
    ensures (cache.values, stored)
      == Put(old(cache.values), ChallengeKey(env.digest, purpose, id), env.codec.encode(payload), ExpiresAt(ttl, cache.defaultTtl, later), now)
  {
    stored := cache.PutIfAbsent(ChallengeKey(env.digest, purpose, id), env.codec.encode(payload), ttl, now, later);
  }

  method ConsumeJson(cache: MemoryAuthorizationCache, env: Env, purpose: string, id: string, now: nat)
    returns (r: Result<Option<Challenge>>)
    modifies cache`values
    ensures cache.values == Taken(old(cache.values), ChallengeKey(env.digest, purpose, id), now).0
    ensures var taken := Taken(old(cache.values), ChallengeKey(env.digest, purpose, id), now).1;
      r == if taken.None? then Ok(None)
           else if env.codec.decode(taken.value).None? then Err
           else Ok(env.codec.decode(taken.value))
  {
    var taken := cache.Take(ChallengeKey(env.digest, purpose, id), now);
    if taken.None? {
      return Ok(None);
    }
    var payload := env.codec.decode(taken.value);
    return if payload.None? then Err else Ok(payload);
  }

  /** What a provider's adapter hands out when an authorization starts: a nonce and a PKCE verifier, if it uses them. */
  type Adapter = string -> Option<(Option<string>, Option<string>)>

  /** `return_uri` and `return_to` may both be given only when they agree; the second asks for a redirect after login. */
  function ReturnDestination(returnUri: string, returnTo: string): Result<(string, bool)>
  {
    if returnUri != "" && returnTo != "" && returnUri != returnTo then Err
    else if returnTo == "" then Ok((returnUri, false)) else Ok((returnTo, true))
  }

  /** The flow an authorization begins, unless the return address, the provider or its adapter refuses. */
  function NewFlow(provider: string, destination: Result<(string, bool)>, link: Option<string>, state: string,
                   validate: (string, bool) -> Option<string>, adapters: map<string, Adapter>): Option<Flow>
  {
    if destination.Err? then None
    else
      var address := validate(destination.value.0, destination.value.1);
      if address.None? || provider !in adapters then None
      else
        var secrets := adapters[provider](state);
        if secrets.None? then None
        else Some(Flow(state, Challenge(provider, address.value, destination.value.1, secrets.value.0, secrets.value.1, link)))
  }

  /**
   `authorize` and `link_authorize`: a refused request changes nothing; otherwise a redirect happens
   exactly when the challenge was stored.
   */
  method PrepareAuthorization(cache: MemoryAuthorizationCache, env: Env, ghost s: System,
                              provider: string, returnUri: string, returnTo: string, link: Option<string>, state: string,
                              validate: (string, bool) -> Option<string>, adapters: map<string, Adapter>,
                              ttl: nat, now: nat, later: nat)
    returns (redirected: bool, ghost t: System)
    requires s.values == cache.values
    modifies cache`values
    ensures t.values == cache.values
    ensures var flow := NewFlow(provider, ReturnDestination(returnUri, returnTo), link, state, validate, adapters);
      if flow.None? then !redirected && t == s
      else
        && Step(env, s, Authorize(flow.value, ExpiresAt(ttl, cache.defaultTtl, later), now), t)
        && t.begun == if redirected then s.begun + multiset{flow.value} else s.begun
  {
    hide Put, ChallengeKey;
    t := s;
    if returnUri != "" && returnTo != "" && returnUri != returnTo {
      return false, t;
    }
    var redirect := returnTo != "";
    var address := validate(if redirect then returnTo else returnUri, redirect);
    if address.None? || provider !in adapters {
      return false, t;
    }
    var secrets := adapters[provider](state);
    if secrets.None? {
      return false, t;
    }
    var flow := Flow(state, Challenge(provider, address.value, redirect, secrets.value.0, secrets.value.1, link));
    redirected := PutJson(cache, env, OAUTH, state, flow.challenge, ttl, now, later);
    t := s.(values := cache.values, begun := if redirected then s.begun + multiset{flow} else s.begun);
  }

  /** `callback` up to the call of the provider: the challenge is consumed before it is looked at. */
  method BeginCallback(cache: MemoryAuthorizationCache, env: Env, ghost s: System, provider: string, state: string, now: nat)
    returns (flow: Option<Challenge>, ghost t: System)
    requires s.values == cache.values
    modifies cache`values
    ensures t.values == cache.values
    ensures Step(env, s, Callback(provider, state, now), t)
    ensures t.pending == if flow.Some? then s.pending + multiset{Flow(state, flow.value)} else s.pending
    ensures flow == Obtained(env, Taken(s.values, OauthKey(env, state), now).1, provider)
  {
    hide Taken, ChallengeKey;
    var consumed := ConsumeJson(cache, env, OAUTH, state, now);
    flow := if consumed.Ok? && consumed.value.Some? && consumed.value.value.provider == provider then consumed.value else None;
    t := s.(values := cache.values, pending := if flow.Some? then s.pending + multiset{Flow(state, flow.value)} else s.pending);
  }

  /** The rest of a callback: the provider's answer for a code, nonce and verifier, and whether the identity is let in. */
  datatype Finisher<!I> = Finisher(exchange: (string, Option<string>, Option<string>) -> Option<I>, admit: (I, Option<string>) -> bool)

  predicate Succeeds<I>(f: Finisher<I>, providers: set<string>, code: string, flow: Challenge)
  {
    && flow.provider in providers
    && var identity := f.exchange(code, flow.nonce, flow.verifier);
       identity.Some? && f.admit(identity.value, flow.link)
  }

  /**
   A whole callback, when no other step comes between its two halves: it issues exactly when the state's
   recorded challenge is for this provider and the provider vouches for the code under the recorded nonce
   and verifier, for an identity that may log in or be linked to the recorded Principal.
   */
  method FullCallback<I>(cache: MemoryAuthorizationCache, env: Env, ghost s: System, provider: string, state: string, code: string,
                         providers: set<string>, f: Finisher<I>, now: nat)
    returns (issued: bool, ghost mid: System, ghost t: System)
    requires s.values == cache.values
    modifies cache`values
    ensures t.values == cache.values && Step(env, s, Callback(provider, state, now), mid)
    ensures var c := Obtained(env, Taken(s.values, OauthKey(env, state), now).1, provider);
      && issued == (c.Some? && Succeeds(f, providers, code, c.value))
      && (if c.None? then t == mid else Step(env, mid, Finish(Flow(state, c.value), issued), t))
  {
    hide Taken, ChallengeKey;
    var flow;
    flow, mid := BeginCallback(cache, env, s, provider, state, now);
    t := mid;
    if flow.None? {
      return false, mid, t;
    }
    issued := false;
    if provider in providers {
      var identity := f.exchange(code, flow.value.nonce, flow.value.verifier);
      if identity.Some? {
        issued := f.admit(identity.value, flow.value.link);
      }
    }
    var use := Flow(state, flow.value);
    t := mid.(pending := mid.pending - multiset{use}, issued := if issued then mid.issued + multiset{use} else mid.issued);
  }
}
