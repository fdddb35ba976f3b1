/**
 How long the in-memory cache answers, in seconds: a scope token and a one-time value live from the
 second they were written for the whole seconds of the shorter of the given and the default lifetime,
 and at least one second.  Lifetimes are nanosecond counts, clock readings are seconds.
 */
module CacheLifetimes {
  import opened Base64Url
  import opened MemoryCache
  import opened Strings

  ghost predicate Lives(ttl: nat, defaultTtl: nat, written: nat, now: nat)
  {
    var seconds := (if ttl <= defaultTtl then ttl else defaultTtl) / 1_000_000_000;
    now < written + (if seconds >= 1 then seconds else 1) && now < 0xFFFF_FFFF_FFFF_FFFF
  }

  lemma LivesIff(ttl: nat, defaultTtl: nat, written: nat, now: nat)
    ensures Lives(ttl, defaultTtl, written, now) <==> now < ExpiresAt(ttl, defaultTtl, written)
  {
  }

  // ----- Scope tokens -----

  /** Event k stores the token, and no event between k and i stores it again. */
  ghost predicate LastStore(r: Run, k: nat, i: nat, t: string)
    requires i <= |r.events|
  {
    k < i && r.events[k].Store? && r.events[k].token == t && NotStoredAgain(r, k, i, t)
  }

  /** In every run, whatever the cache answers was stored last under that token and is still alive. */
  lemma AnswersWithinLifetime(r: Run, i: nat, t: string, now: nat)
    requires IsRun(r) && i <= |r.events| && LoadResult(r.states[i], t, now).Some?
    ensures exists k: nat ::
      && LastStore(r, k, i, t)
      && LoadResult(r.states[i], t, now) == Some(r.events[k].context)
      && Lives(r.events[k].ttl, r.config.defaultTtl, r.events[k].later, now)
  {
    hide Ideal, Step, NotStoredAgain, Lives, ExpiresAt;
    CacheWithinIdeal(r, i);
    var k := Source(r, i, t);
    var e := r.events[k];
    LivesIff(e.ttl, r.config.defaultTtl, e.later, now);
  }

  /** The store the timed map has its entry from. */
  lemma {:induction false} Source(r: Run, i: nat, t: string) returns (k: nat)
    requires i <= |r.events| && t in Ideal(r.config, r.events[..i])
    ensures LastStore(r, k, i, t)
    ensures Ideal(r.config, r.events[..i])[t] == (r.events[k].context, ExpiresAt(r.events[k].ttl, r.config.defaultTtl, r.events[k].later))
  {
    hide ExpiresAt;
    assert r.events[..i][..i - 1] == r.events[..i - 1];
    k := i - 1;
    if !(r.events[k].Store? && r.events[k].token == t) {
      k := Source(r, i - 1, t);
    }
  }

  /**
   Exact expiry: among any other stores and loads, while fewer than `capacity` other tokens are touched
   and nobody stores it again, a token answers at `now` if and only if its lifetime has not run out.
   */
  lemma AnswersIffAlive(r: Run, i: nat, j: nat, t: string, now: nat)
    requires IsRun(r) && i < j <= |r.events| <= U64_MAX
    requires r.events[i].Store? && r.events[i].token == t && NotStoredAgain(r, i, j, t)
    requires |Others(r, i + 1, j, t)| < r.config.capacity
    requires forall k :: i < k < j ==> r.events[k].now <= now
    ensures LoadResult(r.states[j], t, now)
      == if Lives(r.events[i].ttl, r.config.defaultTtl, r.events[i].later, now) then Some(r.events[i].context) else None
  {
    hide Step, Others, Lives, ExpiresAt, LoadResult;
    var e := r.events[i];
    LivesIff(e.ttl, r.config.defaultTtl, e.later, now);
    if LoadResult(r.states[j], t, now).Some? {
      AnswersWithinLifetime(r, j, t, now);
      var k: nat :| LastStore(r, k, j, t) && Lives(r.events[k].ttl, r.config.defaultTtl, r.events[k].later, now);
      assert k == i;
    }
    if now < ExpiresAt(e.ttl, r.config.defaultTtl, e.later) {
      StoredAnswers(r, i, j, t, now);
    }
  }

  // ----- One-time values -----

  datatype ValueEvent =
    | PutEvent(key: string, value: Bytes, ttl: nat, now: nat, later: nat)
    | TakeEvent(key: string, now: nat)

  type Values = map<string, Stored<Bytes>>

  function AfterValue(defaultTtl: nat, s: Values, e: ValueEvent): Values
  {
    match e
    case PutEvent(k, v, ttl, now, later) => Put(s, k, v, ExpiresAt(ttl, defaultTtl, later), now).0
    case TakeEvent(k, now) => Taken(s, k, now).0
  }

  /** The values after some calls, from an empty store. */
  function ValuesAfter(defaultTtl: nat, events: seq<ValueEvent>): Values
  {
    if events == [] then map[]
    else AfterValue(defaultTtl, ValuesAfter(defaultTtl, events[..|events| - 1]), events[|events| - 1])
  }

  /** Event k puts a value under the key, and no later event takes it. */
  ghost predicate Offered(events: seq<ValueEvent>, k: nat, i: nat, key: string)
    requires i <= |events|
  {
    && k < i && events[k].PutEvent? && events[k].key == key
    && forall n :: k < n < i ==> events[n] != TakeEvent(key, events[n].now)
  }

  /** In every run, a value is taken only once after it was put, and only while it lives. */
  lemma TakenWithinLifetime(defaultTtl: nat, events: seq<ValueEvent>, key: string, now: nat)
    requires Taken(ValuesAfter(defaultTtl, events), key, now).1.Some?
    ensures exists k: nat ::
      && Offered(events, k, |events|, key)
      && Taken(ValuesAfter(defaultTtl, events), key, now).1 == Some(events[k].value)
      && Lives(events[k].ttl, defaultTtl, events[k].later, now)
  {
    hide ValuesAfter, Lives, ExpiresAt;
    var k := Origin(defaultTtl, events, key);
    LivesIff(events[k].ttl, defaultTtl, events[k].later, now);
  }

  lemma {:induction false} Origin(defaultTtl: nat, events: seq<ValueEvent>, key: string) returns (k: nat)
    requires key in ValuesAfter(defaultTtl, events)
    ensures Offered(events, k, |events|, key)
    ensures ValuesAfter(defaultTtl, events)[key]
      == Stored(events[k].value, ExpiresAt(events[k].ttl, defaultTtl, events[k].later))
  {
    hide ExpiresAt;
    var before, e := events[..|events| - 1], events[|events| - 1];
    var s := ValuesAfter(defaultTtl, before);
    if e.PutEvent? && e.key == key && key !in Unexpired(s, e.now) {
      k := |before|;
    } else {
      k := Origin(defaultTtl, before, key);
      assert forall n :: 0 <= n < |before| ==> before[n] == events[n];
    }
  }

  /** No event from i on names the key. */
  ghost predicate Untouched(events: seq<ValueEvent>, i: nat, key: string)
  {
    forall n :: i <= n < |events| ==> events[n].key != key
  }

  /** The key is free when the i-th event puts it. */
  ghost predicate Accepted(defaultTtl: nat, events: seq<ValueEvent>, i: nat)
    requires i < |events|
  {
    && events[i].PutEvent?
    && Put(ValuesAfter(defaultTtl, events[..i]), events[i].key, events[i].value,
           ExpiresAt(events[i].ttl, defaultTtl, events[i].later), events[i].now).1
  }

  /** A put is accepted exactly when the key holds nothing that still lives. */
  lemma AcceptedIff(defaultTtl: nat, events: seq<ValueEvent>, i: nat)
    requires i < |events| && events[i].PutEvent?
    ensures var s := ValuesAfter(defaultTtl, events[..i]);
      Accepted(defaultTtl, events, i) <==> Taken(s, events[i].key, events[i].now).1.None?
  {
    hide ValuesAfter, ExpiresAt;
  }

  /** Exact expiry of a one-time value: an accepted value nobody asked for since is taken if and only if it still lives. */
  lemma TakenIffAlive(defaultTtl: nat, events: seq<ValueEvent>, i: nat, now: nat)
    requires i < |events| && Accepted(defaultTtl, events, i) && Untouched(events, i + 1, events[i].key)
    requires forall n :: i < n < |events| ==> events[n].now <= now
    ensures Taken(ValuesAfter(defaultTtl, events), events[i].key, now).1
      == if Lives(events[i].ttl, defaultTtl, events[i].later, now) then Some(events[i].value) else None
  {
    hide ValuesAfter, Untouched, Lives, ExpiresAt;
    LivesIff(events[i].ttl, defaultTtl, events[i].later, now);
    Waits(defaultTtl, events, i, now);
  }

  lemma {:induction false} Waits(defaultTtl: nat, events: seq<ValueEvent>, i: nat, now: nat)
    requires i < |events| && Accepted(defaultTtl, events, i) && Untouched(events, i + 1, events[i].key)
    requires forall n :: i < n < |events| ==> events[n].now <= now
    ensures var s, e := ValuesAfter(defaultTtl, events), events[i];
      var expires := ExpiresAt(e.ttl, defaultTtl, e.later);
      if expires > now then e.key in s && s[e.key] == Stored(e.value, expires)
      else e.key in s ==> s[e.key].expires <= now
  {
    hide ExpiresAt;
    var before := events[..|events| - 1];
    if i < |events| - 1 {
      assert before[..i] == events[..i];
      assert forall n :: 0 <= n < |before| ==> before[n] == events[n];
      assert Accepted(defaultTtl, before, i);
      Waits(defaultTtl, before, i, now);
      assert events[|events| - 1].key != events[i].key;
    } else {
      assert before == events[..i];
    }
  }

  /** Whatever a call does to its own key, of every other key exactly the values that still live are kept. */
  lemma OthersKept(defaultTtl: nat, s: Values, e: ValueEvent, key: string)
    requires key != e.key
    ensures var s' := AfterValue(defaultTtl, s, e);
      (key in s' <==> key in s && s[key].expires > e.now) && (key in s' ==> s'[key] == s[key])
  {
    hide ExpiresAt;
  }

  /** A taken key is empty. */
  lemma TakenIsGone(defaultTtl: nat, s: Values, key: string, now: nat)
    ensures key !in AfterValue(defaultTtl, s, TakeEvent(key, now))
  {
  }
}
