/**
 Keyset pagination over principals while other actors change the store.  The state of the database
 at each successive read is an arbitrary function of the read's number, so every interleaving with
 concurrent writes is covered.  The order of ids is any strict total order with "" least.
 */
module KeysetWalk {
  import opened Collections
  import opened Strings
  import opened Sql

  const SCIM_PAGE: nat := 100

  datatype Principal = Principal(id: string, kind: string, displayName: string, scimDeleted: bool)

  datatype Store = Store(principals: map<string, Principal>, identities: map<(string, string), string>)
  {
    ghost predicate Valid()
    {
      forall k :: k in principals ==> principals[k].id == k
    }
  }

  type Order = Less<string>

  ghost predicate StrictTotal(lt: Order)
  {
    && StrictOrder(lt)
    && (forall a :: a != "" ==> lt("", a))
  }

  // ----- The search pattern -----

  function Replace(s: string, c: char, to: string): string
  {
    if s == "" then "" else (if s[0] == c then to else [s[0]]) + Replace(s[1..], c, to)
  }

  /** Three successive replacements, as the code makes them. */
  function PrefixPattern(query: string): string
  {
    if query == "" then "%"
    else Replace(Replace(Replace(query, '\\', "\\\\"), '%', "\\%"), '_', "\\_") + "%"
  }

  predicate Special(c: char) { c == '\\' || c == '%' || c == '_' }

  /** One pass doing what the three replacements do. */
  function Escaped(s: string): string
  {
    if s == "" then "" else EscapedChar(s[0]) + Escaped(s[1..])
  }

  lemma {:induction false} ReplaceConcat(a: string, b: string, c: char, to: string)
    ensures Replace(a + b, c, to) == Replace(a, c, to) + Replace(b, c, to)
  {
    if a == "" {
      assert a + b == b;
    } else {
      assert (a + b)[1..] == a[1..] + b;
      ReplaceConcat(a[1..], b, c, to);
    }
  }

  lemma ReplaceOne(x: char, c: char, to: string)
    ensures Replace([x], c, to) == if x == c then to else [x]
  {
    assert [x][1..] == "";
  }

  function Escape3(s: string): string
  {
    Replace(Replace(Replace(s, '\\', ['\\', '\\']), '%', ['\\', '%']), '_', ['\\', '_'])
  }

  lemma EscapeOne(x: char)
    ensures Escape3([x]) == if Special(x) then ['\\', x] else [x]
  {
    ReplaceOne(x, '\\', ['\\', '\\']);
    if x == '\\' {
      assert ['\\', '\\'] == ['\\'] + ['\\'];
      ReplaceConcat(['\\'], ['\\'], '%', ['\\', '%']);
      ReplaceOne('\\', '%', ['\\', '%']);
      ReplaceConcat(['\\'], ['\\'], '_', ['\\', '_']);
      ReplaceOne('\\', '_', ['\\', '_']);
    } else {
      ReplaceOne(x, '%', ['\\', '%']);
      if x == '%' {
        assert ['\\', '%'] == ['\\'] + ['%'];
        ReplaceConcat(['\\'], ['%'], '_', ['\\', '_']);
        ReplaceOne('\\', '_', ['\\', '_']);
        ReplaceOne('%', '_', ['\\', '_']);
      } else {
        ReplaceOne(x, '_', ['\\', '_']);
      }
    }
  }

  /** The order of the three replacements is right: no escape is escaped again. */
  lemma {:induction false} ReplacementsEscape(s: string)
    ensures Escape3(s) == Escaped(s)
  {
    if s != "" {
      hide Replace;
      var head, tail := [s[0]], s[1..];
      assert s == head + tail;
      EscapeOne(s[0]);
      ReplacementsEscape(tail);
      ReplaceConcat(head, tail, '\\', ['\\', '\\']);
      ReplaceConcat(Replace(head, '\\', ['\\', '\\']), Replace(tail, '\\', ['\\', '\\']), '%', ['\\', '%']);
      ReplaceConcat(Replace(Replace(head, '\\', ['\\', '\\']), '%', ['\\', '%']),
                    Replace(Replace(tail, '\\', ['\\', '\\']), '%', ['\\', '%']), '_', ['\\', '_']);
    }
  }

  function Lowered(lower: char -> char, s: string): string
  {
    if s == "" then "" else [lower(s[0])] + Lowered(lower, s[1..])
  }

  /** Lower-casing leaves the characters of the LIKE language alone. */
  ghost predicate KeepsSpecials(lower: char -> char)
  {
    forall c :: (Special(c) ==> lower(c) == c) && (Special(lower(c)) ==> lower(c) == c)
  }

  lemma {:induction false} LoweredConcat(lower: char -> char, a: string, b: string)
    ensures Lowered(lower, a + b) == Lowered(lower, a) + Lowered(lower, b)
  {
    if a == "" {
      assert a + b == b;
    } else {
      assert (a + b)[1..] == a[1..] + b;
      LoweredConcat(lower, a[1..], b);
    }
  }

  function EscapedChar(c: char): string
  {
    if Special(c) then ['\\', c] else [c]
  }

  lemma LoweredChar(lower: char -> char, c: char)
    requires KeepsSpecials(lower)
    ensures Lowered(lower, EscapedChar(c)) == EscapedChar(lower(c))
  {
    assert [c][1..] == "" && ['\\', c][1..] == [c];
    assert Lowered(lower, [c]) == [lower(c)];
    assert Lowered(lower, ['\\', c]) == [lower('\\')] + Lowered(lower, [c]);
    assert Special('\\') && (Special(c) ==> lower(c) == c) && (Special(lower(c)) ==> lower(c) == c);
  }

  lemma {:induction false} LoweredEscape(lower: char -> char, s: string)
    requires KeepsSpecials(lower)
    ensures Lowered(lower, Escaped(s)) == Escaped(Lowered(lower, s))
  {
    if s != "" {
      hide KeepsSpecials, EscapedChar;
      LoweredEscape(lower, s[1..]);
      LoweredChar(lower, s[0]);
      LoweredConcat(lower, EscapedChar(s[0]), Escaped(s[1..]));
      var t := Lowered(lower, s);
      assert t[0] == lower(s[0]) && t[1..] == Lowered(lower, s[1..]);
    }
  }

  /** Under the ESCAPE clause an escaped text is a literal, whatever it holds. */
  lemma {:induction false} EscapedIsLiteral(t: string, s: string)
    ensures LikeMatches(t, Escaped(s) + ['%'], BackslashEscape) <==> s <= t
  {
    var p := Escaped(s) + ['%'];
    if s == "" {
      assert p == "%";
      LikeAnything(t, BackslashEscape);
    } else {
      var rest := Escaped(s[1..]) + ['%'];
      if t != "" {
        EscapedIsLiteral(t[1..], s[1..]);
        assert s <= t <==> s[0] == t[0] && s[1..] <= t[1..] by {
          if s[0] == t[0] && s[1..] <= t[1..] {
            assert t == [t[0]] + t[1..] && s == [s[0]] + s[1..];
            assert t[..|s|] == [t[0]] + t[1..][..|s| - 1];
          }
        }
      }
      if Special(s[0]) {
        assert p[0] == '\\' && p[1] == s[0] && p[2..] == rest;
      } else {
        assert p[0] == s[0] && p[1..] == rest;
      }
    }
  }

  /** The WHERE condition of the listing query. */
  predicate Found(lower: char -> char, query: string, p: Principal)
  {
    var pattern := PrefixPattern(query);
    || pattern == "%"
    || LikeMatches(Lowered(lower, p.displayName), Lowered(lower, pattern), BackslashEscape)
    || LikeMatches(Lowered(lower, p.id), Lowered(lower, pattern), BackslashEscape)
  }

  /** The search is a case-insensitive prefix search for every query, wildcards and backslashes included. */
  lemma SearchIsPrefix(lower: char -> char, query: string, p: Principal)
    requires KeepsSpecials(lower)
    ensures Found(lower, query, p) <==>
      || Lowered(lower, query) <= Lowered(lower, p.displayName)
      || Lowered(lower, query) <= Lowered(lower, p.id)
  {
    hide Replace, LikeMatches;
    var q := Lowered(lower, query);
    if query != "" {
      ReplacementsEscape(query);
      var pattern := PrefixPattern(query);
      assert pattern == Escaped(query) + ['%'];
      LoweredConcat(lower, Escaped(query), ['%']);
      assert Lowered(lower, ['%']) == ['%'] by { assert Special('%') && ['%'][1..] == ""; }
      LoweredEscape(lower, query);
      EscapedIsLiteral(Lowered(lower, p.displayName), q);
      EscapedIsLiteral(Lowered(lower, p.id), q);
      assert |pattern| >= 2;
    } else {
      assert q == "";
    }
  }

  // ----- One page -----

  /** `page` is the first `limit` matching rows above the cursor, in id order. */
  ghost predicate IsPage(s: Store, lt: Order, found: Principal -> bool, after: string, limit: nat, page: seq<Principal>)
  {
    && |page| <= limit
    && (forall i :: 0 <= i < |page| ==> Selected(s, lt, found, after, page[i]))
    && Increasing(lt, page)
    && forall p :: Selected(s, lt, found, after, p) ==>
         p in page || (|page| == limit && (limit > 0 ==> lt(page[limit - 1].id, p.id)))
  }

  ghost predicate Selected(s: Store, lt: Order, found: Principal -> bool, after: string, p: Principal)
  {
    p.id in s.principals && s.principals[p.id] == p && lt(after, p.id) && found(p)
  }

  ghost predicate Increasing(lt: Order, ps: seq<Principal>)
  {
    forall i, j :: 0 <= i < j < |ps| ==> lt(ps[i].id, ps[j].id)
  }

  /** A page being filled: what is selected is on it, or left in `rest`, all of which lies above it. */
  ghost predicate Filling(s: Store, lt: Order, found: Principal -> bool, after: string,
                          page: seq<Principal>, rest: set<string>)
  {
    && (forall i :: 0 <= i < |page| ==> Selected(s, lt, found, after, page[i]))
    && Increasing(lt, page)
    && (forall id :: id in rest ==> id in s.principals && Selected(s, lt, found, after, s.principals[id]))
    && (forall id :: id in rest ==> AllBelow(lt, page, id))
    && (forall p :: Selected(s, lt, found, after, p) ==> p in page || p.id in rest)
  }

  ghost predicate AllBelow(lt: Order, page: seq<Principal>, id: string)
  {
    forall i :: 0 <= i < |page| ==> lt(page[i].id, id)
  }

  lemma FillOne(s: Store, lt: Order, found: Principal -> bool, after: string,
                page: seq<Principal>, rest: set<string>, least: string)
    requires StrictTotal(lt) && s.Valid() && Filling(s, lt, found, after, page, rest)
    requires least in rest && forall o :: o in rest && o != least ==> lt(least, o)
    ensures Filling(s, lt, found, after, page + [s.principals[least]], rest - {least})
  {
    var p := s.principals[least];
    var longer := page + [p];
    assert p.id == least && Selected(s, lt, found, after, p);
    assert AllBelow(lt, page, least);
    assert forall i :: 0 <= i < |longer| ==> longer[i] == if i < |page| then page[i] else p;
    forall id | id in rest - {least} ensures AllBelow(lt, longer, id) {
      assert AllBelow(lt, page, id);
      assert lt(least, id);
    }
    assert forall i, j :: 0 <= i < j < |longer| ==> lt(longer[i].id, longer[j].id);
    StillListed(s, lt, found, after, page, rest, least);
  }

  lemma StillListed(s: Store, lt: Order, found: Principal -> bool, after: string,
                    page: seq<Principal>, rest: set<string>, least: string)
    requires s.Valid() && least in s.principals
    requires forall p :: Selected(s, lt, found, after, p) ==> p in page || p.id in rest
    ensures forall p :: Selected(s, lt, found, after, p) ==> p in page + [s.principals[least]] || p.id in rest - {least}
  {
    forall p | Selected(s, lt, found, after, p) ensures p in page + [s.principals[least]] || p.id in rest - {least} {
      if p.id == least {
        assert p == s.principals[least];
        assert (page + [p])[|page|] == p;
      }
    }
  }

  method List(s: Store, lt: Order, found: Principal -> bool, after: string, limit: nat) returns (page: seq<Principal>)
    requires StrictTotal(lt) && s.Valid()
    ensures IsPage(s, lt, found, after, limit, page)
  {
    page := [];
    var rest := set id | id in s.principals && lt(after, id) && found(s.principals[id]);
    while |page| < limit && rest != {}
      invariant |page| <= limit
      invariant Filling(s, lt, found, after, page, rest)
      decreases |rest|
    {
      hide Filling;
      ghost var existing := LeastOf(lt, rest);
      var least :| least in rest && forall o :: o in rest && o != least ==> lt(least, o);
      assert least in s.principals by { RestIsStored(s, lt, found, after, page, rest); }
      FillOne(s, lt, found, after, page, rest, least);
      page := page + [s.principals[least]];
      rest := rest - {least};
    }
    FilledIsPage(s, lt, found, after, limit, page, rest);
  }

  lemma RestIsStored(s: Store, lt: Order, found: Principal -> bool, after: string, page: seq<Principal>, rest: set<string>)
    requires Filling(s, lt, found, after, page, rest)
    ensures rest <= s.principals.Keys
  {
  }

  lemma FilledIsPage(s: Store, lt: Order, found: Principal -> bool, after: string, limit: nat,
                     page: seq<Principal>, rest: set<string>)
    requires Filling(s, lt, found, after, page, rest)
    requires |page| == limit || (|page| < limit && rest == {})
    ensures IsPage(s, lt, found, after, limit, page)
  {
    forall p | Selected(s, lt, found, after, p)
      ensures p in page || (|page| == limit && (limit > 0 ==> lt(page[limit - 1].id, p.id)))
    {
      if p !in page {
        assert AllBelow(lt, page, p.id);
      }
    }
  }

  function NextCursor(items: seq<Principal>, limit: nat): Option<string>
  {
    if |items| == limit && items != [] then Some(items[|items| - 1].id) else None
  }

  function Clamp(limit: nat): nat { if limit < 1 then 1 else if limit > 100 then 100 else limit }

  function After(cursor: Option<string>): string { if cursor.Some? then cursor.value else "" }

  datatype PrincipalPage = PrincipalPage(items: seq<Principal>, nextCursor: Option<string>, total: nat)

  method ListPage(s: Store, lt: Order, found: Principal -> bool, cursor: Option<string>, limit: nat) returns (page: PrincipalPage)
    requires StrictTotal(lt) && s.Valid()
    ensures IsPage(s, lt, found, After(cursor), Clamp(limit), page.items)
    ensures page.total == |page.items|
    ensures page.nextCursor == NextCursor(page.items, Clamp(limit))
    ensures page.nextCursor.None? ==>
      forall p :: Selected(s, lt, found, After(cursor), p) ==> p in page.items
  {
    var limit := Clamp(limit);
    var items := List(s, lt, found, After(cursor), limit);
    var next := None;
    if |items| == limit && |items| > 0 {
      next := Some(items[|items| - 1].id);
    }
    return PrincipalPage(items, next, |items|);
  }

  // ----- Following cursors while the store changes -----

  /** A caller that follows cursors to the end; `stores[k]` is what the k-th request saw. */
  ghost predicate Walk(lt: Order, found: Principal -> bool, limit: nat, after: string,
                       stores: seq<Store>, pages: seq<seq<Principal>>)
    decreases |pages|
  {
    && |stores| == |pages| > 0
    && IsPage(stores[0], lt, found, after, limit, pages[0])
    && match NextCursor(pages[0], limit)
       case None => |pages| == 1
       case Some(cursor) => |pages| > 1 && Walk(lt, found, limit, cursor, stores[1..], pages[1..])
  }

  function Flatten(pages: seq<seq<Principal>>): seq<Principal>
  {
    if pages == [] then [] else pages[0] + Flatten(pages[1..])
  }

  lemma IncreasingConcat(lt: Order, a: seq<Principal>, b: seq<Principal>)
    requires StrictTotal(lt) && a != [] && Increasing(lt, a) && Increasing(lt, b)
    requires forall p :: p in b ==> lt(a[|a| - 1].id, p.id)
    ensures Increasing(lt, a + b)
  {
    forall i, j | 0 <= i < j < |a + b| ensures lt((a + b)[i].id, (a + b)[j].id) {
      if i < |a| <= j {
        assert b[j - |a|] in b;
        assert i == |a| - 1 || lt(a[i].id, a[|a| - 1].id);
      }
    }
  }

  /** Ids strictly increase along the whole walk, so nothing is listed twice, whatever happens between pages. */
  lemma {:induction false} WalkIncreases(lt: Order, found: Principal -> bool, limit: nat, after: string,
                                         stores: seq<Store>, pages: seq<seq<Principal>>)
    requires StrictTotal(lt) && Walk(lt, found, limit, after, stores, pages)
    ensures Increasing(lt, Flatten(pages))
    ensures forall p :: p in Flatten(pages) ==> lt(after, p.id)
    decreases |pages|
  {
    var first, rest := pages[0], Flatten(pages[1..]);
    assert forall p :: p in first ==> Selected(stores[0], lt, found, after, p);
    if |pages| > 1 {
      var cursor := first[|first| - 1].id;
      WalkIncreases(lt, found, limit, cursor, stores[1..], pages[1..]);
      hide Walk, IsPage, Flatten;
      IncreasingConcat(lt, first, rest);
    } else {
      assert pages[1..] == [] && first + rest == first;
    }
  }

  /** A principal that is there and matches at every request is listed. */
  lemma {:induction false} WalkVisits(lt: Order, found: Principal -> bool, limit: nat, after: string,
                                      stores: seq<Store>, pages: seq<seq<Principal>>, id: string)
    requires StrictTotal(lt) && limit >= 1 && Walk(lt, found, limit, after, stores, pages)
    requires forall k :: 0 <= k < |stores| ==> stores[k].Valid() && id in stores[k].principals && found(stores[k].principals[id])
    requires lt(after, id)
    ensures exists p :: p in Flatten(pages) && p.id == id
    decreases |pages|
  {
    hide StrictTotal;
    var p := stores[0].principals[id];
    assert Selected(stores[0], lt, found, after, p);
    if p in pages[0] {
      assert p in Flatten(pages);
    } else {
      hide Selected, Increasing;
      WalkVisits(lt, found, limit, pages[0][|pages[0]| - 1].id, stores[1..], pages[1..], id);
      var q :| q in Flatten(pages[1..]) && q.id == id;
      assert q in Flatten(pages);
    }
  }

  /** On a store nobody changes, a walk from the start lists exactly the matching principals. */
  lemma WalkOnFixedStore(s: Store, lt: Order, found: Principal -> bool, limit: nat,
                         stores: seq<Store>, pages: seq<seq<Principal>>)
    requires StrictTotal(lt) && s.Valid() && limit >= 1 && Walk(lt, found, limit, "", stores, pages)
    requires forall k :: 0 <= k < |stores| ==> stores[k] == s
    ensures Increasing(lt, Flatten(pages))
    ensures forall p :: p in Flatten(pages) <==> Selected(s, lt, found, "", p)
  {
    WalkIncreases(lt, found, limit, "", stores, pages);
    WalkListsStored(s, lt, found, limit, "", stores, pages);
    forall p | Selected(s, lt, found, "", p) ensures p in Flatten(pages) {
      WalkVisits(lt, found, limit, "", stores, pages, p.id);
      var q :| q in Flatten(pages) && q.id == p.id;
    }
  }

  lemma {:induction false} WalkListsStored(s: Store, lt: Order, found: Principal -> bool, limit: nat, after: string,
                                           stores: seq<Store>, pages: seq<seq<Principal>>)
    requires StrictTotal(lt) && Walk(lt, found, limit, after, stores, pages)
    requires forall k :: 0 <= k < |stores| ==> stores[k] == s
    ensures forall p :: p in Flatten(pages) ==> Selected(s, lt, found, after, p)
    decreases |pages|
  {
    if |pages| > 1 {
      var last := pages[0][|pages[0]| - 1];
      WalkListsStored(s, lt, found, limit, last.id, stores[1..], pages[1..]);
      assert Selected(s, lt, found, after, last);
    } else {
      assert pages[1..] == [];
    }
  }

  // ----- The SCIM listing -----

  predicate Everyone(p: Principal) { true }

  datatype Resource = Resource(principal: Principal, claims: string)

  datatype Lookup = Present(resource: Resource) | NotFound | Failed

  /** `get_scim`: the principal row and its identity are two reads, so two states of the store. */
  function GetScim(row: Store, identity: Store, id: string, kind: string, provider: string,
                   restorable: (Principal, string) -> bool): Lookup
  {
    if id !in row.principals then NotFound
    else
      var p := row.principals[id];
      if p.scimDeleted || p.kind != kind then NotFound
      else if (id, provider) !in identity.identities then NotFound
      else
        var claims := identity.identities[(id, provider)];
        if restorable(p, claims) then Present(Resource(p, claims)) else Failed
  }

  function LookupAt(world: nat -> Store, t: nat, id: string, kind: string, provider: string,
                    restorable: (Principal, string) -> bool): Lookup
  {
    GetScim(world(t), world(t + 1), id, kind, provider, restorable)
  }

  /** Through the first `end` reads the principal keeps its kind, is not marked deleted and keeps its identity. */
  ghost predicate Stays(world: nat -> Store, end: nat, id: string, kind: string, provider: string)
  {
    && id != ""
    && forall t: nat :: t < end ==>
         && id in world(t).principals
         && world(t).principals[id].kind == kind && !world(t).principals[id].scimDeleted
         && (id, provider) in world(t).identities
  }

  /** The resource is what the two reads held: a live principal of the kind, and its identity's claims. */
  ghost predicate Shown(row: Store, identity: Store, x: Resource, kind: string, provider: string)
  {
    var id := x.principal.id;
    && id in row.principals && row.principals[id] == x.principal
    && x.principal.kind == kind && !x.principal.scimDeleted
    && (id, provider) in identity.identities && identity.identities[(id, provider)] == x.claims
  }

  ghost predicate Observed(world: nat -> Store, end: nat, x: Resource, kind: string, provider: string)
  {
    exists t: nat :: t + 1 < end && Shown(world(t), world(t + 1), x, kind, provider)
  }

  ghost predicate ObservedFailure(world: nat -> Store, end: nat, kind: string, provider: string,
                                  restorable: (Principal, string) -> bool)
  {
    exists t: nat, id :: t + 1 < end && LookupAt(world, t, id, kind, provider, restorable).Failed?
  }

  ghost predicate Has(rs: seq<Resource>, id: string)
  {
    exists i :: 0 <= i < |rs| && rs[i].principal.id == id
  }

  ghost predicate ResourcesIncrease(lt: Order, rs: seq<Resource>)
  {
    forall i, j :: 0 <= i < j < |rs| ==> lt(rs[i].principal.id, rs[j].principal.id)
  }

  ghost function Above(ever: set<string>, lt: Order, after: string): set<string>
  {
    set id | id in ever && lt(after, id)
  }

  lemma AboveShrinks(ever: set<string>, lt: Order, after: string, next: string)
    requires StrictTotal(lt) && lt(after, next) && next in ever
    ensures |Above(ever, lt, next)| < |Above(ever, lt, after)|
  {
    var a, b := Above(ever, lt, next), Above(ever, lt, after);
    assert next in b && next !in a;
    assert a <= b - {next};
    SubsetSize(a, b - {next});
  }

  /** What is known of a walk that has read `t` times and answered for every id up to `bound`. */
  ghost predicate Progress(world: nat -> Store, t: nat, lt: Order, kind: string, provider: string,
                           bound: string, resources: seq<Resource>)
  {
    && ResourcesIncrease(lt, resources)
    && (forall i :: 0 <= i < |resources| ==> !lt(bound, resources[i].principal.id))
    && (forall i :: 0 <= i < |resources| ==> Observed(world, t, resources[i], kind, provider))
  }

  /** Principals that stay are answered for, wait in `pending`, or lie above `cursor`. */
  ghost predicate Accounted(world: nat -> Store, t: nat, lt: Order, kind: string, provider: string,
                            resources: seq<Resource>, pending: seq<Principal>, cursor: string)
  {
    forall id :: Stays(world, t, id, kind, provider) ==>
      Has(resources, id) || Lists(pending, id) || lt(cursor, id)
  }

  ghost predicate Lists(ps: seq<Principal>, id: string)
  {
    exists i :: 0 <= i < |ps| && ps[i].id == id
  }

  lemma ProgressLater(world: nat -> Store, t: nat, later: nat, lt: Order, kind: string, provider: string,
                      bound: string, next: string, resources: seq<Resource>)
    requires StrictTotal(lt) && t <= later && (bound == next || lt(bound, next))
    requires Progress(world, t, lt, kind, provider, bound, resources)
    ensures Progress(world, later, lt, kind, provider, next, resources)
  {
    forall i | 0 <= i < |resources| ensures Observed(world, later, resources[i], kind, provider) {
      assert Observed(world, t, resources[i], kind, provider);
    }
  }

  lemma ProgressAppend(world: nat -> Store, t: nat, lt: Order, kind: string, provider: string,
                       bound: string, resources: seq<Resource>, x: Resource)
    requires StrictTotal(lt) && lt(bound, x.principal.id)
    requires Progress(world, t, lt, kind, provider, bound, resources)
    requires Observed(world, t, x, kind, provider)
    ensures Progress(world, t, lt, kind, provider, x.principal.id, resources + [x])
  {
    hide Observed;
    forall i | 0 <= i < |resources| ensures lt(resources[i].principal.id, x.principal.id) {
      assert !lt(bound, resources[i].principal.id);
    }
  }

  lemma AccountedAfterList(world: nat -> Store, t: nat, lt: Order, kind: string, provider: string,
                           resources: seq<Resource>, after: string, page: seq<Principal>)
    requires world(t).Valid()
    requires Accounted(world, t, lt, kind, provider, resources, [], after)
    requires IsPage(world(t), lt, Everyone, after, SCIM_PAGE, page)
    ensures |page| == SCIM_PAGE ==> Accounted(world, t + 1, lt, kind, provider, resources, page, page[SCIM_PAGE - 1].id)
    ensures |page| < SCIM_PAGE ==> forall id :: Stays(world, t + 1, id, kind, provider) ==> Has(resources, id) || Lists(page, id)
  {
    hide Has, Increasing;
    forall id | Stays(world, t + 1, id, kind, provider)
      ensures Has(resources, id) || Lists(page, id) || (|page| == SCIM_PAGE && lt(page[SCIM_PAGE - 1].id, id))
    {
      assert Stays(world, t, id, kind, provider);
      var p := world(t).principals[id];
      if lt(after, id) {
        assert Selected(world(t), lt, Everyone, after, p);
      }
    }
  }

  /** One lookup settles the next listed principal. */
  lemma Settled(world: nat -> Store, t: nat, kind: string, provider: string,
                restorable: (Principal, string) -> bool, id: string)
    requires world(t).Valid()
    ensures var l := LookupAt(world, t, id, kind, provider, restorable);
      && (l.Present? ==> l.resource.principal.id == id && Observed(world, t + 2, l.resource, kind, provider))
      && (l.NotFound? ==> !Stays(world, t + 2, id, kind, provider))
      && (l.Failed? ==> ObservedFailure(world, t + 2, kind, provider, restorable))
  {
    var l := LookupAt(world, t, id, kind, provider, restorable);
    if l.Present? {
      assert Shown(world(t), world(t + 1), l.resource, kind, provider);
    }
  }

  /** The lookups made for one page. */
  method VisitPage(world: nat -> Store, lt: Order, kind: string, provider: string,
                   restorable: (Principal, string) -> bool, page: seq<Principal>,
                   ghost listed: nat, start: nat, resources: seq<Resource>, ghost after: string)
    returns (r: Result<seq<Resource>>, t: nat)
    requires StrictTotal(lt) && forall t: nat :: world(t).Valid()
    requires start == listed + 1 && IsPage(world(listed), lt, Everyone, after, SCIM_PAGE, page)
    requires Progress(world, start, lt, kind, provider, after, resources)
    ensures t >= start
    ensures r.Err? ==> ObservedFailure(world, t, kind, provider, restorable)
    ensures r.Ok? ==> Progress(world, t, lt, kind, provider, Bound(page, |page|, after), r.value)
    ensures r.Ok? ==> forall id :: Has(resources, id) ==> Has(r.value, id)
    ensures r.Ok? ==> forall id :: Lists(page, id) && Stays(world, t, id, kind, provider) ==> Has(r.value, id)
  {
    hide *;
    var found := resources;
    t := start;
    BoundAt(page, 0, after);
    for i := 0 to |page|
      invariant t >= start
      invariant Progress(world, t, lt, kind, provider, Bound(page, i, after), found)
      invariant forall id :: Has(resources, id) ==> Has(found, id)
      invariant forall k :: 0 <= k < i && Stays(world, t, page[k].id, kind, provider) ==> Has(found, page[k].id)
    {
      ghost var bound := Bound(page, i, after);
      BoundAt(page, i + 1, after);
      PageAt(world(listed), lt, after, page, i);
      if page[i].kind == kind {
        var l := LookupAt(world, t, page[i].id, kind, provider, restorable);
        Settled(world, t, kind, provider, restorable, page[i].id);
        StaysEarlier(world, t, t + 2, kind, provider);
        t := t + 2;
        match l
        case Present(resource) =>
          ProgressLater(world, t - 2, t, lt, kind, provider, bound, bound, found);
          ProgressAppend(world, t, lt, kind, provider, bound, found, resource);
          HasAppend(found, resource);
          found := found + [resource];
        case NotFound =>
          ProgressLater(world, t - 2, t, lt, kind, provider, bound, page[i].id, found);
        case Failed =>
          return Err, t;
      } else {
        ProgressLater(world, t, t, lt, kind, provider, bound, page[i].id, found);
        OtherKindLeaves(world, listed, t, kind, provider, page[i]);
      }
    }
    ListedAnswered(world, t, kind, provider, page, found);
    return Ok(found), t;
  }

  /** The cursor after the first `i` rows of a page. */
  ghost function Bound(page: seq<Principal>, i: nat, after: string): string
    requires i <= |page|
  {
    if i == 0 then after else page[i - 1].id
  }

  lemma BoundAt(page: seq<Principal>, i: nat, after: string)
    requires i <= |page|
    ensures i == 0 ==> Bound(page, i, after) == after
    ensures i > 0 ==> Bound(page, i, after) == page[i - 1].id
  {
  }

  lemma PageAt(s: Store, lt: Order, after: string, page: seq<Principal>, i: nat)
    requires i < |page| && IsPage(s, lt, Everyone, after, SCIM_PAGE, page)
    ensures page[i].id in s.principals && s.principals[page[i].id] == page[i]
    ensures lt(Bound(page, i, after), page[i].id)
  {
    assert Selected(s, lt, Everyone, after, page[i]);
  }

  lemma ListedAnswered(world: nat -> Store, t: nat, kind: string, provider: string,
                       page: seq<Principal>, found: seq<Resource>)
    requires forall k :: 0 <= k < |page| && Stays(world, t, page[k].id, kind, provider) ==> Has(found, page[k].id)
    ensures forall id :: Lists(page, id) && Stays(world, t, id, kind, provider) ==> Has(found, id)
  {
    hide Stays, Has;
  }

  lemma HasAppend(rs: seq<Resource>, x: Resource)
    ensures forall id :: Has(rs + [x], id) <==> Has(rs, id) || id == x.principal.id
  {
    forall id ensures Has(rs + [x], id) <==> Has(rs, id) || id == x.principal.id {
      if Has(rs, id) {
        var i :| 0 <= i < |rs| && rs[i].principal.id == id;
        assert (rs + [x])[i] == rs[i];
      }
      assert (rs + [x])[|rs|] == x;
    }
  }

  lemma StaysEarlier(world: nat -> Store, t: nat, later: nat, kind: string, provider: string)
    requires t <= later
    ensures forall id :: Stays(world, later, id, kind, provider) ==> Stays(world, t, id, kind, provider)
  {
  }

  lemma OtherKindLeaves(world: nat -> Store, listed: nat, t: nat, kind: string, provider: string, p: Principal)
    requires listed < t && p.kind != kind && p.id in world(listed).principals && world(listed).principals[p.id] == p
    ensures !Stays(world, t, p.id, kind, provider)
  {
  }

  /**
   The walk over all pages.  `ever` holds every id that exists at any moment of it; a walk that ends
   sees finitely many.  The result has no resource twice, shows only what was there when it was
   looked up, and misses no principal that stayed.
   */
  method WalkScim(world: nat -> Store, lt: Order, kind: string, provider: string,
                  restorable: (Principal, string) -> bool, ghost ever: set<string>)
    returns (r: Result<seq<Resource>>, end: nat)
    requires StrictTotal(lt)
    requires forall t: nat :: world(t).Valid() && world(t).principals.Keys <= ever
    ensures r.Err? ==> ObservedFailure(world, end, kind, provider, restorable)
    ensures r.Ok? ==> ResourcesIncrease(lt, r.value)
    ensures r.Ok? ==> forall i :: 0 <= i < |r.value| ==> Observed(world, end, r.value[i], kind, provider)
    ensures r.Ok? ==> forall id :: Stays(world, end, id, kind, provider) ==> Has(r.value, id)
  {
    var resources: seq<Resource> := [];
    var afterId := None;
    end := 0;
    while true
      invariant Progress(world, end, lt, kind, provider, After(afterId), resources)
      invariant Accounted(world, end, lt, kind, provider, resources, [], After(afterId))
      decreases |Above(ever, lt, After(afterId))|
    {
      hide Observed, Stays, ObservedFailure, Progress, StrictTotal, Has, Lists, Accounted;
      ghost var cursor, listed := After(afterId), end;
      var page := List(world(end), lt, Everyone, After(afterId), SCIM_PAGE);
      AccountedAfterList(world, end, lt, kind, provider, resources, cursor, page);
      ProgressLater(world, end, end + 1, lt, kind, provider, cursor, cursor, resources);
      StaysEarlier(world, end, end + 1, kind, provider);
      end := end + 1;
      if page == [] {
        return Ok(resources), end;
      }
      afterId := Some(page[|page| - 1].id);
      assert Selected(world(listed), lt, Everyone, cursor, page[|page| - 1]);
      AboveShrinks(ever, lt, cursor, page[|page| - 1].id);
      var start := end;
      var collected;
      collected, end := VisitPage(world, lt, kind, provider, restorable, page, listed, start, resources, cursor);
      if collected.Err? {
        return Err, end;
      }
      StaysEarlier(world, start, end, kind, provider);
      resources := collected.value;
      if |page| < SCIM_PAGE {
        return Ok(resources), end;
      }
    }
  }

  // ----- The page of the SCIM answer -----

  const MAX_COUNT: nat := 100

  datatype ScimQuery = ScimQuery(startIndex: nat, count: nat)

  datatype ScimListResponse = ScimListResponse(totalResults: nat, startIndex: nat, itemsPerPage: nat, resources: seq<Resource>)

  function Kept(rs: seq<Resource>, accepts: Resource -> bool): seq<Resource>
  {
    if rs == [] then [] else (if accepts(rs[0]) then [rs[0]] else []) + Kept(rs[1..], accepts)
  }

  function Least(a: nat, b: nat): nat { if a <= b then a else b }

  /** What is left from a (one-based) start index on. */
  function FromIndex(rs: seq<Resource>, start: nat): seq<Resource>
  {
    rs[Least(if start < 1 then 0 else start - 1, |rs|)..]
  }

  function PageOf(rs: seq<Resource>, q: ScimQuery): ScimListResponse
  {
    var rest := FromIndex(rs, q.startIndex);
    var shown := rest[..Least(Least(q.count, MAX_COUNT), |rest|)];
    ScimListResponse(|rs|, if q.startIndex < 1 then 1 else q.startIndex, |shown|, shown)
  }

  /** Pages tile the accepted resources: each is followed by the one that starts where it ends. */
  lemma PagesTile(rs: seq<Resource>, q: ScimQuery)
    ensures var r := PageOf(rs, q);
      && FromIndex(rs, q.startIndex) == r.resources + FromIndex(rs, r.startIndex + r.itemsPerPage)
      && (q.count > 0 && FromIndex(rs, q.startIndex) != [] ==> r.itemsPerPage > 0)
  {
  }

  /** Filtering keeps the order, so nothing appears twice in the answer either. */
  lemma {:induction false} KeptMeans(rs: seq<Resource>, accepts: Resource -> bool, lt: Order)
    requires ResourcesIncrease(lt, rs)
    ensures ResourcesIncrease(lt, Kept(rs, accepts))
    ensures forall x :: x in Kept(rs, accepts) <==> x in rs && accepts(x)
  {
    if rs != [] {
      var rest := rs[1..];
      assert forall i, j :: 0 <= i < j < |rest| ==> lt(rest[i].principal.id, rest[j].principal.id) by {
        forall i, j | 0 <= i < j < |rest| ensures lt(rest[i].principal.id, rest[j].principal.id) {
          assert lt(rs[i + 1].principal.id, rs[j + 1].principal.id);
        }
      }
      KeptMeans(rest, accepts, lt);
      var kept := Kept(rest, accepts);
      forall j | 0 <= j < |kept| ensures lt(rs[0].principal.id, kept[j].principal.id) {
        assert kept[j] in rest;
        var k :| 0 <= k < |rest| && rest[k] == kept[j];
        assert rs[k + 1] == rest[k];
      }
      assert rs == [rs[0]] + rest;
    }
  }

  /** `list_page`: an unsupported filter is refused; `None` stands for one, and no filter accepts everything. */
  method ScimPage(resources: seq<Resource>, filter: Option<Resource -> bool>, q: ScimQuery) returns (r: Result<ScimListResponse>)
    ensures r == if filter.None? then Err else Ok(PageOf(Kept(resources, filter.value), q))
  {
    if filter.None? {
      return Err;
    }
    var kept: seq<Resource> := [];
    assert resources[0..] == resources;
    assert [] + Kept(resources, filter.value) == Kept(resources, filter.value);
    for i := 0 to |resources|
      invariant Kept(resources, filter.value) == kept + Kept(resources[i..], filter.value)
    {
      assert resources[i..][1..] == resources[i + 1..];
      if filter.value(resources[i]) {
        kept := kept + [resources[i]];
      }
    }
    assert kept + [] == kept;
    var start := if q.startIndex < 1 then 1 else q.startIndex;
    var skipped := kept[Least(start - 1, |kept|)..];
    var shown := skipped[..Least(Least(q.count, MAX_COUNT), |skipped|)];
    return Ok(ScimListResponse(|kept|, start, |shown|, shown));
  }

  /** The whole listing: the walk, then the filter and the page asked for. */
  method ListScim(world: nat -> Store, lt: Order, kind: string, provider: string,
                  restorable: (Principal, string) -> bool, filter: Option<Resource -> bool>, q: ScimQuery, ghost ever: set<string>)
    returns (r: Result<ScimListResponse>, ghost collected: seq<Resource>, end: nat)
    requires StrictTotal(lt)
    requires forall t: nat :: world(t).Valid() && world(t).principals.Keys <= ever
    ensures r.Err? ==> filter.None? || ObservedFailure(world, end, kind, provider, restorable)
    ensures r.Ok? ==> filter.Some? && r.value == PageOf(Kept(collected, filter.value), q)
    ensures r.Ok? ==> ResourcesIncrease(lt, collected)
    ensures r.Ok? ==> forall i :: 0 <= i < |collected| ==> Observed(world, end, collected[i], kind, provider)
    ensures r.Ok? ==> forall id :: Stays(world, end, id, kind, provider) ==> Has(collected, id)
  {
    hide *;
    var walked;
    walked, end := WalkScim(world, lt, kind, provider, restorable, ever);
    collected := [];
    if walked.Err? {
      return Err, collected, end;
    }
    collected := walked.value;
    r := ScimPage(walked.value, filter, q);
  }
}
