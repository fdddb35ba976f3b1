/**
 The in-memory authorization cache: a bounded table of scope contexts with a time-to-live and
 least-recently-used eviction, and beside it the store of one-time values.  Clock readings are
 parameters; where the original reads the clock twice in one call, there are two of them.
 */
module MemoryCache {
  import opened Collections
  import opened Base64Url
  import opened Strings

  const U64_MAX: nat := 0xFFFF_FFFF_FFFF_FFFF
  const NANOS_PER_SECOND: nat := 1_000_000_000

  function SaturatingAdd(a: nat, b: nat): nat
  {
    if a + b > U64_MAX then U64_MAX else a + b
  }

  function Min(a: nat, b: nat): nat { if a <= b then a else b }
  function Max(a: nat, b: nat): nat { if a >= b then a else b }

  /** Durations are nanosecond counts; an entry lives at least one second and at most the default. */
  function ExpiresAt(ttl: nat, defaultTtl: nat, now: nat): nat
  {
    SaturatingAdd(now, Max(Min(ttl, defaultTtl) / NANOS_PER_SECOND, 1))
  }

  datatype Config = Config(capacity: nat, defaultTtl: nat)

  datatype Entry = Entry(context: string, expires: nat, used: nat)

  datatype Scopes = Scopes(entries: map<string, Entry>, next: nat)

  function Live(entries: map<string, Entry>, now: nat): map<string, Entry>
  {
    map t | t in entries && entries[t].expires > now :: entries[t]
  }

  ghost predicate IsLeastRecent(live: map<string, Entry>, v: string)
  {
    v in live && forall t :: t in live ==> live[v].used <= live[t].used
  }

  /** `kept` is what a store of `token` leaves of the live entries before it inserts. */
  ghost predicate Evicts(capacity: nat, live: map<string, Entry>, token: string, kept: map<string, Entry>)
  {
    if token !in live && |live| >= capacity && live != map[] then
      exists v :: IsLeastRecent(live, v) && kept == live - {v}
    else kept == live
  }

  datatype Event =
    | Store(token: string, context: string, ttl: nat, now: nat, later: nat)
    | Load(token: string, now: nat)

  ghost predicate Step(c: Config, s: Scopes, e: Event, s': Scopes)
  {
    var live := Live(s.entries, e.now);
    && s'.next == SaturatingAdd(s.next, 1)
    && match e
       case Store(t, ctx, ttl, _, later) =>
         exists kept :: Evicts(c.capacity, live, t, kept)
                        && s'.entries == kept[t := Entry(ctx, ExpiresAt(ttl, c.defaultTtl, later), s'.next)]
       case Load(t, _) =>
         s'.entries == if t in live then live[t := live[t].(used := s'.next)] else live
  }

  function LoadResult(s: Scopes, token: string, now: nat): Option<string>
  {
    var live := Live(s.entries, now);
    if token in live then Some(live[token].context) else None
  }

  class MemoryAuthorizationCache {
    var entries: map<string, Entry>
    var next: nat
    var values: map<string, Stored<Bytes>>
    const capacity: nat
    const defaultTtl: nat

    constructor (capacity: nat, defaultTtl: nat)
      ensures Abs() == Scopes(map[], 0) && values == map[]
      ensures Conf() == Config(capacity, defaultTtl)
    {
      this.capacity, this.defaultTtl := capacity, defaultTtl;
      entries, next, values := map[], 0, map[];
    }

    ghost function Abs(): Scopes
      reads this
    {
      Scopes(entries, next)
    }

    ghost function Conf(): Config { Config(capacity, defaultTtl) }

    method StoreScope(token: string, context: string, ttl: nat, now: nat, later: nat)
      modifies this`entries, this`next
      ensures Step(Conf(), old(Abs()), Store(token, context, ttl, now, later), Abs())
    {
      entries := Live(entries, now);
      ghost var live := entries;
      if token !in entries && |entries| >= capacity {
        var leastRecentlyUsed := LeastRecentlyUsed(entries);
        if leastRecentlyUsed.Some? {
          entries := entries - {leastRecentlyUsed.value};
        }
      }
      assert Evicts(capacity, live, token, entries);
      next := SaturatingAdd(next, 1);
      entries := entries[token := Entry(context, ExpiresAt(ttl, defaultTtl, later), next)];
    }

    method LoadScope(token: string, now: nat) returns (r: Option<string>)
      modifies this`entries, this`next
      ensures r == LoadResult(old(Abs()), token, now)
      ensures Step(Conf(), old(Abs()), Load(token, now), Abs())
    {
      entries := Live(entries, now);
      next := SaturatingAdd(next, 1);
      r := None;
      if token in entries {
        entries := entries[token := entries[token].(used := next)];
        r := Some(entries[token].context);
      }
    }

    method PutIfAbsent(key: string, value: Bytes, ttl: nat, now: nat, later: nat) returns (stored: bool)
      modifies this`values
      ensures (values, stored) == Put(old(values), key, value, ExpiresAt(ttl, defaultTtl, later), now)
    {
      values := Unexpired(values, now);
      if key in values {
        return false;
      }
      values := values[key := Stored(value, ExpiresAt(ttl, defaultTtl, later))];
      return true;
    }

    method Take(key: string, now: nat) returns (r: Option<Bytes>)
      modifies this`values
      ensures (values, r) == Taken(old(values), key, now)
    {
      values := Unexpired(values, now);
      r := None;
      if key in values {
        r := Some(values[key].value);
        values := values - {key};
      }
    }
  }

  /** Scans the entries in no particular order for the smallest access number. */
  method LeastRecentlyUsed(entries: map<string, Entry>) returns (r: Option<string>)
    ensures r.None? <==> entries == map[]
    ensures r.Some? ==> IsLeastRecent(entries, r.value)
  {
    r := None;
    var rest := entries.Keys;
    while rest != {}
      invariant rest <= entries.Keys
      invariant r.None? <==> rest == entries.Keys
      invariant r.Some? ==> r.value in entries && forall t :: t in entries && t !in rest ==> entries[r.value].used <= entries[t].used
      decreases |rest|
    {
      var t :| t in rest;
      if r.None? || entries[t].used < entries[r.value].used {
        r := Some(t);
      }
      rest := rest - {t};
    }
  }

  // ----- One-time values -----

  datatype Stored<T> = Stored(value: T, expires: nat)

  function Unexpired<T>(values: map<string, Stored<T>>, now: nat): map<string, Stored<T>>
  {
    map k | k in values && values[k].expires > now :: values[k]
  }

  function Put<T>(values: map<string, Stored<T>>, key: string, value: T, expires: nat, now: nat): (map<string, Stored<T>>, bool)
  {
    var live := Unexpired(values, now);
    if key in live then (live, false) else (live[key := Stored(value, expires)], true)
  }

  function Taken<T>(values: map<string, Stored<T>>, key: string, now: nat): (map<string, Stored<T>>, Option<T>)
  {
    var live := Unexpired(values, now);
    if key in live then (live - {key}, Some(live[key].value)) else (live, None)
  }

  // ----- Runs -----

  datatype Run = Run(config: Config, states: seq<Scopes>, events: seq<Event>)

  ghost predicate IsRun(r: Run)
  {
    && |r.states| == |r.events| + 1
    && r.states[0] == Scopes(map[], 0)
    && forall i :: 0 <= i < |r.events| ==> Step(r.config, r.states[i], r.events[i], r.states[i + 1])
  }

  /** The token the i-th event stores, or finds when it loads. */
  function Touched(r: Run, i: nat): Option<string>
    requires i < |r.events| && i < |r.states|
  {
    match r.events[i]
    case Store(t, _, _, _, _) => Some(t)
    case Load(t, now) => if t in Live(r.states[i].entries, now) then Some(t) else None
  }

  /** Index of the last event before i that touched `t`, or -1. */
  function LastTouch(r: Run, i: nat, t: string): (k: int)
    requires i <= |r.events| && i <= |r.states|
    ensures -1 <= k < i
    ensures k >= 0 ==> Touched(r, k) == Some(t)
  {
    if i == 0 then -1
    else if Touched(r, i - 1) == Some(t) then i - 1
    else LastTouch(r, i - 1, t)
  }

  /** While the counter has not saturated, an entry's access number is the time of its last touch. */
  ghost predicate UsedIsLastTouch(r: Run, i: nat)
    requires i <= |r.events| && i < |r.states|
  {
    && r.states[i].next == i
    && forall t :: t in r.states[i].entries ==> r.states[i].entries[t].used == LastTouch(r, i, t) + 1 && LastTouch(r, i, t) >= 0
  }

  lemma StepUsed(c: Config, s: Scopes, e: Event, s': Scopes, t: string)
    requires Step(c, s, e, s') && t in s'.entries
    ensures if e.token == t && (e.Store? || t in Live(s.entries, e.now)) then s'.entries[t].used == s'.next
            else t in s.entries && s'.entries[t] == s.entries[t]
    ensures s'.next == SaturatingAdd(s.next, 1)
  {
    hide IsLeastRecent;
  }

  lemma TouchesDiffer(r: Run, i: nat, u: string, v: string)
    requires i <= |r.events| && i <= |r.states| && u != v && LastTouch(r, i, u) >= 0
    ensures LastTouch(r, i, u) != LastTouch(r, i, v)
  {
    hide LastTouch, Touched;
  }

  /** What the last event says of one entry. */
  lemma UsedAfter(r: Run, i: nat, t: string)
    requires IsRun(r) && i < |r.events| && UsedIsLastTouch(r, i) && t in r.states[i + 1].entries
    requires r.states[i + 1].next == i + 1
    ensures r.states[i + 1].entries[t].used == LastTouch(r, i + 1, t) + 1 && LastTouch(r, i + 1, t) >= 0
  {
    StepUsed(r.config, r.states[i], r.events[i], r.states[i + 1], t);
    hide Step;
  }

  lemma {:induction false} AccessNumbers(r: Run, i: nat)
    requires IsRun(r) && i <= |r.events| <= U64_MAX
    ensures UsedIsLastTouch(r, i)
  {
    if i > 0 {
      AccessNumbers(r, i - 1);
      hide LastTouch;
      assert Step(r.config, r.states[i - 1], r.events[i - 1], r.states[i]);
      assert r.states[i].next == i;
      hide Step;
      forall t | t in r.states[i].entries ensures r.states[i].entries[t].used == LastTouch(r, i, t) + 1 && LastTouch(r, i, t) >= 0 {
        UsedAfter(r, i - 1, t);
      }
    }
  }

  /** One step: an unexpired entry disappears only as the victim of a store of another token into a full table. */
  lemma StepEvicts(c: Config, s: Scopes, e: Event, s': Scopes, v: string)
    requires Step(c, s, e, s') && v in Live(s.entries, e.now) && v !in s'.entries
    ensures var live := Live(s.entries, e.now);
      e.Store? && e.token !in live && |live| >= c.capacity && IsLeastRecent(live, v)
  {
    var live := Live(s.entries, e.now);
    if e.Store? {
      var kept :| Evicts(c.capacity, live, e.token, kept)
        && s'.entries == kept[e.token := Entry(e.context, ExpiresAt(e.ttl, c.defaultTtl, e.later), s'.next)];
      assert v !in kept;
    }
  }

  /**
   Every eviction removes the least recently used entry: an unexpired entry disappears only under a
   store of another, absent token into a full table, and every other entry was touched later.
   */
  lemma EvictionIsLeastRecent(r: Run, i: nat, v: string)
    requires IsRun(r) && i < |r.events| <= U64_MAX
    requires v in Live(r.states[i].entries, r.events[i].now) && v !in r.states[i + 1].entries
    ensures var live := Live(r.states[i].entries, r.events[i].now);
      && r.events[i].Store? && r.events[i].token !in live && |live| >= r.config.capacity
      && forall u :: u in live && u != v ==> LastTouch(r, i, v) < LastTouch(r, i, u)
  {
    hide Step, LastTouch, Touched;
    AccessNumbers(r, i);
    StepEvicts(r.config, r.states[i], r.events[i], r.states[i + 1], v);
    var live := Live(r.states[i].entries, r.events[i].now);
    forall u | u in live && u != v ensures LastTouch(r, i, v) < LastTouch(r, i, u) {
      assert live[v].used <= live[u].used;
      TouchesDiffer(r, i, u, v);
    }
  }

  /** The tokens other than `t` that the events i, ..., j-1 touched. */
  function Others(r: Run, i: nat, j: nat, t: string): (s: set<string>)
    requires i <= j <= |r.events| && |r.events| <= |r.states|
    ensures t !in s
    ensures forall k, u :: i <= k < j && u != t && Touched(r, k) == Some(u) ==> u in s
  {
    if i == j then {}
    else
      var rest := Others(r, i, j - 1, t);
      match Touched(r, j - 1)
      case None => rest
      case Some(u) => if u == t then rest else rest + {u}
  }

  /** The unbounded timed map the cache stands for: the last context stored for each token, with its expiry. */
  function Ideal(c: Config, events: seq<Event>): map<string, (string, nat)>
  {
    if events == [] then map[]
    else
      var before := Ideal(c, events[..|events| - 1]);
      match events[|events| - 1]
      case Store(t, ctx, ttl, _, later) => before[t := (ctx, ExpiresAt(ttl, c.defaultTtl, later))]
      case Load(_, _) => before
  }

  /** Nothing in the cache differs from the timed map, so a load that answers answers the last stored context. */
  lemma {:induction false} CacheWithinIdeal(r: Run, i: nat)
    requires IsRun(r) && i <= |r.events|
    ensures var ideal := Ideal(r.config, r.events[..i]);
      forall t :: t in r.states[i].entries ==>
        t in ideal && ideal[t] == (r.states[i].entries[t].context, r.states[i].entries[t].expires)
  {
    if i > 0 {
      CacheWithinIdeal(r, i - 1);
      assert Step(r.config, r.states[i - 1], r.events[i - 1], r.states[i]);
      assert r.events[..i][..i - 1] == r.events[..i - 1];
    }
  }

  lemma LoadAnswersLastStore(r: Run, i: nat, token: string, now: nat)
    requires IsRun(r) && i <= |r.events|
    ensures var ideal := Ideal(r.config, r.events[..i]);
      LoadResult(r.states[i], token, now).Some? ==>
        token in ideal && ideal[token].0 == LoadResult(r.states[i], token, now).value && ideal[token].1 > now
  {
    CacheWithinIdeal(r, i);
  }

  /** `t` has not expired at any event strictly between i and j. */
  ghost predicate Unlapsed(r: Run, i: nat, j: nat, t: string)
    requires i <= j <= |r.events|
  {
    forall k :: i < k < j ==> t in Ideal(r.config, r.events[..k]) && Ideal(r.config, r.events[..k])[t].1 > r.events[k].now
  }

  /**
   Retention: a token touched at i is still there at j, holding its last stored context, if it has
   not expired meanwhile and fewer than `capacity` other tokens were touched since.
   */
  lemma Retained(r: Run, i: nat, j: nat, t: string)
    requires IsRun(r) && i < j <= |r.events| <= U64_MAX
    requires Touched(r, i) == Some(t) && Unlapsed(r, i, j, t)
    requires |Others(r, i + 1, j, t)| < r.config.capacity
    ensures t in r.states[j].entries
    ensures t in Ideal(r.config, r.events[..j]) && Ideal(r.config, r.events[..j])[t].0 == r.states[j].entries[t].context
  {
    hide Ideal, Step, Touched, Others;
    StaysIn(r, i, j, t);
    CacheWithinIdeal(r, j);
  }

  /** No event strictly between i and j stores the token again. */
  ghost predicate NotStoredAgain(r: Run, i: nat, j: nat, t: string)
    requires i <= j <= |r.events|
  {
    forall k :: i < k < j ==> !(r.events[k].Store? && r.events[k].token == t)
  }

  lemma {:induction false} IdealStays(r: Run, i: nat, j: nat, t: string)
    requires i < j <= |r.events| && r.events[i].Store? && r.events[i].token == t && NotStoredAgain(r, i, j, t)
    ensures var e := r.events[i]; var ideal := Ideal(r.config, r.events[..j]);
      t in ideal && ideal[t] == (e.context, ExpiresAt(e.ttl, r.config.defaultTtl, e.later))
    decreases j
  {
    hide ExpiresAt;
    assert r.events[..j][..j - 1] == r.events[..j - 1];
    if i < j - 1 {
      IdealStays(r, i, j - 1, t);
    }
  }

  /**
   A stored token answers its context at every later time before expiry, in every run, as long as
   fewer than `capacity` other tokens are touched meanwhile and nobody stores it again.
   */
  lemma StoredAnswers(r: Run, i: nat, j: nat, t: string, now: nat)
    requires IsRun(r) && i < j <= |r.events| <= U64_MAX
    requires r.events[i].Store? && r.events[i].token == t && NotStoredAgain(r, i, j, t)
    requires |Others(r, i + 1, j, t)| < r.config.capacity
    requires forall k :: i < k < j ==> r.events[k].now <= now
    requires now < ExpiresAt(r.events[i].ttl, r.config.defaultTtl, r.events[i].later)
    ensures LoadResult(r.states[j], t, now) == Some(r.events[i].context)
  {
    hide Ideal, Step, Others, ExpiresAt;
    forall k | i < k <= j
      ensures var e := r.events[i]; var ideal := Ideal(r.config, r.events[..k]);
        t in ideal && ideal[t] == (e.context, ExpiresAt(e.ttl, r.config.defaultTtl, e.later))
    {
      IdealStays(r, i, k, t);
    }
    Retained(r, i, j, t);
    CacheWithinIdeal(r, j);
  }

  lemma {:induction false} StaysIn(r: Run, i: nat, j: nat, t: string)
    requires IsRun(r) && i < j <= |r.events| <= U64_MAX
    requires Touched(r, i) == Some(t) && Unlapsed(r, i, j, t)
    requires |Others(r, i + 1, j, t)| < r.config.capacity
    ensures t in r.states[j].entries
    decreases j
  {
    hide Ideal, Step, Touched, Others, LastTouch;
    var k := j - 1;
    if k == i {
      StepTouches(r, i, t);
    } else {
      OthersGrow(r, i + 1, k, t);
      StaysIn(r, i, k, t);
      CacheWithinIdeal(r, k);
      assert t in Live(r.states[k].entries, r.events[k].now);
      if t !in r.states[k + 1].entries {
        EvictionIsLeastRecent(r, k, t);
        AllOthersTouched(r, i, k, t);
        assert false;
      }
    }
  }

  lemma StepTouches(r: Run, i: nat, t: string)
    requires IsRun(r) && i < |r.events| && Touched(r, i) == Some(t)
    ensures t in r.states[i + 1].entries
  {
    assert Step(r.config, r.states[i], r.events[i], r.states[i + 1]);
  }

  lemma OthersGrow(r: Run, i: nat, j: nat, t: string)
    requires i <= j < |r.events| <= |r.states|
    ensures Others(r, i, j, t) <= Others(r, i, j + 1, t)
    ensures |Others(r, i, j, t)| <= |Others(r, i, j + 1, t)|
  {
    SubsetSize(Others(r, i, j, t), Others(r, i, j + 1, t));
  }

  /** If `t`, touched at i, were the victim at k, the table would hold too many later tokens. */
  lemma AllOthersTouched(r: Run, i: nat, k: nat, t: string)
    requires IsRun(r) && i < k < |r.events| <= U64_MAX && Touched(r, i) == Some(t)
    requires r.events[k].Store? && r.events[k].token != t
    requires var live := Live(r.states[k].entries, r.events[k].now);
      && t in live && r.events[k].token !in live && |live| >= r.config.capacity
      && forall u :: u in live && u != t ==> LastTouch(r, k, t) < LastTouch(r, k, u)
    ensures |Others(r, i + 1, k + 1, t)| >= r.config.capacity
  {
    var live := Live(r.states[k].entries, r.events[k].now);
    var late := live.Keys - {t} + {r.events[k].token};
    LastTouchAtLeast(r, i, k, t);
    forall u | u in late ensures u in Others(r, i + 1, k + 1, t) {
      if u == r.events[k].token {
        assert Touched(r, k) == Some(u);
      } else {
        var n := LastTouch(r, k, u);
        assert i + 1 <= n < k + 1 && Touched(r, n) == Some(u);
      }
    }
    SubsetSize(late, Others(r, i + 1, k + 1, t));
    assert |live.Keys - {t}| == |live| - 1;
  }

  lemma {:induction false} LastTouchAtLeast(r: Run, i: nat, k: nat, t: string)
    requires i < k <= |r.events| <= |r.states| && Touched(r, i) == Some(t)
    ensures LastTouch(r, k, t) >= i
  {
    if k > i + 1 {
      LastTouchAtLeast(r, i, k - 1, t);
    }
  }

  lemma StoreSize(capacity: nat, live: map<string, Entry>, token: string, kept: map<string, Entry>)
    requires Evicts(capacity, live, token, kept) && |live.Keys| <= Max(capacity, 1)
    ensures |kept.Keys + {token}| <= Max(capacity, 1)
  {
    if token in live {
      assert kept.Keys + {token} == live.Keys;
    } else if |live| >= capacity && live != map[] {
      var v :| IsLeastRecent(live, v) && kept == live - {v};
      assert kept.Keys == live.Keys - {v};
    }
  }

  lemma StepSize(c: Config, s: Scopes, e: Event, s': Scopes)
    requires Step(c, s, e, s') && |s.entries.Keys| <= Max(c.capacity, 1)
    ensures |s'.entries.Keys| <= Max(c.capacity, 1)
  {
    hide Evicts;
    var live := Live(s.entries, e.now);
    assert live.Keys <= s.entries.Keys;
    SubsetSize(live.Keys, s.entries.Keys);
    if e.Load? {
      assert s'.entries.Keys == live.Keys;
    } else {
      var kept :| Evicts(c.capacity, live, e.token, kept)
        && s'.entries == kept[e.token := Entry(e.context, ExpiresAt(e.ttl, c.defaultTtl, e.later), s'.next)];
      StoreSize(c.capacity, live, e.token, kept);
      assert s'.entries.Keys == kept.Keys + {e.token};
    }
  }

  /** The table never outgrows its capacity; a capacity of zero still keeps the last stored entry. */
  lemma {:induction false} WithinCapacity(r: Run, i: nat)
    requires IsRun(r) && i <= |r.events|
    ensures |r.states[i].entries.Keys| <= Max(r.config.capacity, 1)
  {
    hide Step;
    if i > 0 {
      WithinCapacity(r, i - 1);
      StepSize(r.config, r.states[i - 1], r.events[i - 1], r.states[i]);
    }
  }

  // ----- Runs that fit: the cache is the timed map -----

  function StoredTokens(events: seq<Event>): set<string>
  {
    set i | 0 <= i < |events| && events[i].Store? :: events[i].token
  }

  ghost predicate ClockMonotone(events: seq<Event>)
  {
    forall i, j :: 0 <= i <= j < |events| ==> events[i].now <= events[j].now
  }

  /** A step that evicts nothing keeps every live entry. */
  lemma StepKeeps(c: Config, s: Scopes, e: Event, s': Scopes)
    requires Step(c, s, e, s')
    requires var live := Live(s.entries, e.now); e.Store? ==> e.token in live || |live| < c.capacity
    ensures var live := Live(s.entries, e.now); live.Keys <= s'.entries.Keys
    ensures s'.entries.Keys <= s.entries.Keys + (if e.Store? then {e.token} else {})
    ensures e.Store? ==> e.token in s'.entries
  {
  }

  lemma {:induction false} IdealIsStored(c: Config, events: seq<Event>)
    ensures Ideal(c, events).Keys <= StoredTokens(events)
  {
    if events != [] {
      var init := events[..|events| - 1];
      IdealIsStored(c, init);
      forall t | t in StoredTokens(init) ensures t in StoredTokens(events) {
        var i :| 0 <= i < |init| && init[i].Store? && init[i].token == t;
        assert events[i] == init[i];
      }
    }
  }

  lemma StoredPrefix(events: seq<Event>, i: nat)
    requires i <= |events|
    ensures StoredTokens(events[..i]) <= StoredTokens(events)
    ensures i < |events| && events[i].Store? ==> events[i].token in StoredTokens(events)
  {
    forall t | t in StoredTokens(events[..i]) ensures t in StoredTokens(events) {
      var k :| 0 <= k < i && events[..i][k].Store? && events[..i][k].token == t;
      assert events[k] == events[..i][k];
    }
  }

  /** As long as all tokens fit, a store finds its token or a free place. */
  lemma StoreFits(r: Run, i: nat)
    requires IsRun(r) && i < |r.events| && r.events[i].Store? && |StoredTokens(r.events)| <= r.config.capacity
    ensures var live := Live(r.states[i].entries, r.events[i].now);
      r.events[i].token in live || |live| < r.config.capacity
  {
    hide Step, Ideal, StoredTokens;
    CacheWithinIdeal(r, i);
    IdealIsStored(r.config, r.events[..i]);
    StoredPrefix(r.events, i);
    var live := Live(r.states[i].entries, r.events[i].now);
    if r.events[i].token !in live {
      SubsetSize(live.Keys + {r.events[i].token}, StoredTokens(r.events));
      assert |live.Keys + {r.events[i].token}| == |live.Keys| + 1;
    }
  }

  /** With no more distinct tokens than the capacity and a clock that never goes back, nothing unexpired is ever lost. */
  lemma {:induction false} SmallRunsLoseNothing(r: Run, i: nat)
    requires IsRun(r) && i <= |r.events| && ClockMonotone(r.events)
    requires |StoredTokens(r.events)| <= r.config.capacity
    ensures forall t :: t in Ideal(r.config, r.events[..i]) && (i > 0 ==> Ideal(r.config, r.events[..i])[t].1 > r.events[i - 1].now)
              ==> t in r.states[i].entries
  {
    hide Step, StoredTokens;
    if i > 0 {
      SmallRunsLoseNothing(r, i - 1);
      CacheWithinIdeal(r, i - 1);
      var e, s, s' := r.events[i - 1], r.states[i - 1], r.states[i];
      assert r.events[..i][..i - 1] == r.events[..i - 1];
      if e.Store? {
        StoreFits(r, i - 1);
      }
      StepKeeps(r.config, s, e, s');
      var before := Ideal(r.config, r.events[..i - 1]);
      forall t | t in before && before[t].1 > e.now ensures t in Live(s.entries, e.now) {
        assert i > 1 ==> r.events[i - 2].now <= e.now;
      }
    }
  }

  lemma SmallRunsAreExact(r: Run, i: nat, token: string, now: nat)
    requires IsRun(r) && i <= |r.events| && ClockMonotone(r.events)
    requires |StoredTokens(r.events)| <= r.config.capacity
    requires i > 0 ==> r.events[i - 1].now <= now
    ensures var ideal := Ideal(r.config, r.events[..i]);
      LoadResult(r.states[i], token, now) == if token in ideal && ideal[token].1 > now then Some(ideal[token].0) else None
  {
    hide Step, Ideal, StoredTokens;
    SmallRunsLoseNothing(r, i);
    CacheWithinIdeal(r, i);
  }
}
