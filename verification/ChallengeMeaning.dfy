/** What an authorization records and what a callback obtains, read off the request, the stored bytes and the clock. */
module ChallengeMeaning {
  import opened Base64Url
  import CacheLifetimes
  import opened Challenges
  import MemoryCache
  import opened Strings

  /** Where the challenge of a state value is kept. */
  lemma KeySpelled(env: Env, state: string, purpose: string, id: string)
    ensures OauthKey(env, state) == "authn-challenge:v1:" + env.digest("oauth" + "\0" + state)
    ensures ChallengeKey(env.digest, purpose, id) == "authn-challenge:v1:" + env.digest(purpose + "\0" + id)
  {
    assert "\0" == [NUL];
  }

  /**
   What an authorization records: the provider and the link Principal it was asked for, the validated
   return address, whether that address asks for a redirect, and the two secrets of the provider's adapter.
   It records nothing when two addresses disagree, or the address, the provider or its adapter refuses.
   */
  lemma RecordedIff(provider: string, returnUri: string, returnTo: string, link: Option<string>, state: string,
                    validate: (string, bool) -> Option<string>, adapters: map<string, Adapter>, f: Flow)
    ensures NewFlow(provider, ReturnDestination(returnUri, returnTo), link, state, validate, adapters) == Some(f) <==>
      && (returnUri == "" || returnTo == "" || returnUri == returnTo)
      && f.state == state && f.challenge.provider == provider && f.challenge.link == link
      && f.challenge.redirect == (returnTo != "")
      && validate(if returnTo != "" then returnTo else returnUri, returnTo != "") == Some(f.challenge.returnUri)
      && provider in adapters && adapters[provider](state) == Some((f.challenge.nonce, f.challenge.verifier))
  {
  }

  /** The store holds, unexpired, the bytes of this challenge under this state. */
  ghost predicate Recorded(env: Env, values: CacheLifetimes.Values, state: string, now: nat, c: Challenge)
  {
    var key := OauthKey(env, state);
    key in values && values[key].expires > now && env.codec.decode(values[key].value) == Some(c)
  }

  /** A callback obtains exactly a recorded challenge of its own provider. */
  lemma ObtainsIff(env: Env, values: CacheLifetimes.Values, provider: string, state: string, now: nat, c: Challenge)
    ensures Obtained(env, MemoryCache.Taken(values, OauthKey(env, state), now).1, provider) == Some(c) <==>
      Recorded(env, values, state, now, c) && c.provider == provider
  {
    hide ChallengeKey;
  }

  /** An undisturbed callback issues exactly when its provider vouches for the code under the recorded secrets, for an identity let in. */
  lemma IssuesIff<I(!new)>(env: Env, values: CacheLifetimes.Values, provider: string, state: string, code: string, providers: set<string>,
                           f: Finisher<I>, now: nat)
    ensures var c := Obtained(env, MemoryCache.Taken(values, OauthKey(env, state), now).1, provider);
      (c.Some? && Succeeds(f, providers, code, c.value)) <==>
        exists d, i ::
          && Recorded(env, values, state, now, d) && d.provider == provider && provider in providers
          && f.exchange(code, d.nonce, d.verifier) == Some(i) && f.admit(i, d.link)
  {
    hide ChallengeKey, Recorded, MemoryCache.Taken, Obtained;
    var c := Obtained(env, MemoryCache.Taken(values, OauthKey(env, state), now).1, provider);
    if c.Some? {
      ObtainsIff(env, values, provider, state, now, c.value);
      if Succeeds(f, providers, code, c.value) {
        assert f.exchange(code, c.value.nonce, c.value.verifier) == Some(f.exchange(code, c.value.nonce, c.value.verifier).value);
      }
    }
    if d, i :|
      && Recorded(env, values, state, now, d) && d.provider == provider && provider in providers
      && f.exchange(code, d.nonce, d.verifier) == Some(i) && f.admit(i, d.link)
    {
      ObtainsIff(env, values, provider, state, now, d);
    }
  }

  /**
   A challenge stored at `later` for a lifetime, and spared since, is obtained by a callback if and only
   if the callback names its provider and comes within the lifetime; otherwise the callback gets nothing.
   */
  lemma ObtainedWithinLifetime(env: Env, s: System, provider: string, now: nat, t: System, f: Flow,
                               ttl: nat, defaultTtl: nat, later: nat)
    requires Sound(env) && Waits(env, s, f, MemoryCache.ExpiresAt(ttl, defaultTtl, later))
    requires Step(env, s, Callback(provider, f.state, now), t)
    ensures t.pending
      == if provider == f.challenge.provider && CacheLifetimes.Lives(ttl, defaultTtl, later, now) then s.pending + multiset{f} else s.pending
  {
    hide ChallengeKey, Injective, MemoryCache.ExpiresAt, CacheLifetimes.Lives;
    CacheLifetimes.LivesIff(ttl, defaultTtl, later, now);
    assert env.codec.decode(env.codec.encode(f.challenge)) == Some(f.challenge);
  }

  /** An authorization that redirects has stored its challenge, for its lifetime from `later`. */
  lemma AuthorizedWaits(env: Env, s: System, f: Flow, ttl: nat, defaultTtl: nat, now: nat, later: nat, t: System)
    requires Sound(env) && Step(env, s, Authorize(f, MemoryCache.ExpiresAt(ttl, defaultTtl, later), now), t) && t.begun != s.begun
    ensures Waits(env, t, f, MemoryCache.ExpiresAt(ttl, defaultTtl, later)) && t.begun == s.begun + multiset{f}
  {
    hide ChallengeKey, Injective, Lawful, MemoryCache.ExpiresAt;
  }
}
