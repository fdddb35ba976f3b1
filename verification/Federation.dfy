/**
 Federated principal search: provider tasks finish in any order, their pages are merged in the order
 of provider ids, and principals that several providers returned are collapsed.  String order is any
 strict total order.
 */
module Federation {
  import opened Collections
  import opened Strings

  /** The iteration order of an ordered map or set. */
  method InOrder<K(==,!new)>(less: Less<K>, s: set<K>) returns (ks: seq<K>)
    requires StrictOrder(less)
    ensures Ascending(less, ks) && forall k :: k in ks <==> k in s
  {
    ks := [];
    var rest := s;
    while rest != {}
      invariant rest <= s
      invariant Ascending(less, ks)
      invariant forall i, k :: 0 <= i < |ks| && k in rest ==> less(ks[i], k)
      invariant forall k :: k in s <==> k in ks || k in rest
      decreases |rest|
    {
      ghost var existing := LeastOf(less, rest);
      var least :| least in rest && forall o :: o in rest && o != least ==> less(least, o);
      ks := ks + [least];
      rest := rest - {least};
    }
  }

  // ----- Pages -----

  type Key = (string, string)

  datatype Projection = Projection(issuer: string, externalId: string, kind: string, displayName: string)

  function KeyOf(p: Projection): Key { (p.issuer, p.externalId) }

  predicate KeyLess(lt: Less<string>, a: Key, b: Key)
  {
    lt(a.0, b.0) || (a.0 == b.0 && lt(a.1, b.1))
  }

  function KeyOrder(lt: Less<string>): Less<Key> { (a, b) => KeyLess(lt, a, b) }

  lemma KeyOrderStrict(lt: Less<string>)
    requires StrictOrder(lt)
    ensures StrictOrder(KeyOrder(lt))
  {
    var less := KeyOrder(lt);
    forall a, b, c | less(a, b) && less(b, c) ensures less(a, c) {}
    forall a, b | a != b ensures less(a, b) || less(b, a) {}
  }

  datatype Page = Page(principals: seq<Projection>, cursors: map<string, string>)

  /** The first principal of a list with the key. */
  function FirstWith(ps: seq<Projection>, key: Key): (r: Option<Projection>)
    ensures r.Some? ==> r.value in ps && KeyOf(r.value) == key
    ensures r.None? <==> forall p :: p in ps ==> KeyOf(p) != key
  {
    if ps == [] then None
    else if KeyOf(ps[0]) == key then Some(ps[0])
    else
      var r := FirstWith(ps[1..], key);
      assert r.None? ==> forall p :: p in ps ==> p == ps[0] || p in ps[1..];
      r
  }

  lemma {:induction false} FirstWithConcat(a: seq<Projection>, b: seq<Projection>, key: Key)
    ensures FirstWith(a + b, key) == if FirstWith(a, key).Some? then FirstWith(a, key) else FirstWith(b, key)
  {
    if a == [] {
      assert a + b == b;
    } else {
      assert (a + b)[1..] == a[1..] + b;
      FirstWithConcat(a[1..], b, key);
    }
  }

  /** `unique` holds the first principal of each key among `ps`. */
  ghost predicate FirstOfEach(ps: seq<Projection>, unique: map<Key, Projection>)
  {
    forall k :: FirstWith(ps, k) == if k in unique then Some(unique[k]) else None
  }

  lemma OrInsert(ps: seq<Projection>, p: Projection, unique: map<Key, Projection>)
    requires FirstOfEach(ps, unique)
    ensures FirstOfEach(ps + [p], if KeyOf(p) in unique then unique else unique[KeyOf(p) := p])
  {
    hide KeyOf;
    var longer := if KeyOf(p) in unique then unique else unique[KeyOf(p) := p];
    forall k ensures FirstWith(ps + [p], k) == if k in longer then Some(longer[k]) else None {
      FirstWithConcat(ps, [p], k);
      assert FirstWith([p], k) == if KeyOf(p) == k then Some(p) else None by {
        assert [p][1..] == [];
      }
    }
  }

  method Deduplicate(lt: Less<string>, principals: seq<Projection>) returns (r: seq<Projection>)
    requires StrictOrder(lt)
    ensures KeysAscend(lt, r)
    ensures forall x :: x in r <==> FirstWith(principals, KeyOf(x)) == Some(x)
  {
    var unique: map<Key, Projection> := map[];
    for i := 0 to |principals|
      invariant FirstOfEach(principals[..i], unique)
    {
      hide FirstOfEach;
      OrInsert(principals[..i], principals[i], unique);
      assert principals[..i + 1] == principals[..i] + [principals[i]];
      if KeyOf(principals[i]) !in unique {
        unique := unique[KeyOf(principals[i]) := principals[i]];
      }
    }
    assert principals[..|principals|] == principals;
    r := IntoValues(lt, principals, unique);
  }

  method IntoValues(lt: Less<string>, ghost principals: seq<Projection>, unique: map<Key, Projection>)
    returns (r: seq<Projection>)
    requires StrictOrder(lt) && FirstOfEach(principals, unique)
    ensures KeysAscend(lt, r)
    ensures forall x :: x in r <==> FirstWith(principals, KeyOf(x)) == Some(x)
  {
    KeyOrderStrict(lt);
    var keys := InOrder(KeyOrder(lt), unique.Keys);
    r := [];
    for i := 0 to |keys|
      invariant |r| == i
      invariant forall j :: 0 <= j < i ==> keys[j] in unique && r[j] == unique[keys[j]]
    {
      assert keys[i] in unique;
      r := r + [unique[keys[i]]];
    }
    ValuesInOrder(lt, principals, unique, keys, r);
  }

  lemma ValuesInOrder(lt: Less<string>, principals: seq<Projection>, unique: map<Key, Projection>,
                      keys: seq<Key>, r: seq<Projection>)
    requires FirstOfEach(principals, unique) && Ascending(KeyOrder(lt), keys)
    requires forall k :: k in keys <==> k in unique.Keys
    requires |r| == |keys| && forall j :: 0 <= j < |r| ==> keys[j] in unique && r[j] == unique[keys[j]]
    ensures KeysAscend(lt, r)
    ensures forall x :: x in r <==> FirstWith(principals, KeyOf(x)) == Some(x)
  {
    forall j | 0 <= j < |r| ensures KeyOf(r[j]) == keys[j] && FirstWith(principals, keys[j]) == Some(r[j]) {
      assert FirstWith(principals, keys[j]) == Some(unique[keys[j]]);
    }
    hide FirstWith;
    forall x | FirstWith(principals, KeyOf(x)) == Some(x) ensures x in r {
      assert KeyOf(x) in unique && unique[KeyOf(x)] == x;
      assert KeyOf(x) in keys;
      var j :| 0 <= j < |keys| && keys[j] == KeyOf(x);
      assert r[j] == x;
    }
  }

  ghost predicate KeysAscend(lt: Less<string>, ps: seq<Projection>)
  {
    forall i, j :: 0 <= i < j < |ps| ==> KeyLess(lt, KeyOf(ps[i]), KeyOf(ps[j]))
  }

  // ----- What the merged page is -----

  /** `x` is what the smallest provider id with this key returned for it. */
  ghost predicate Winner(lt: Less<string>, pages: map<string, Page>, x: Projection)
  {
    exists d :: d in pages && FirstWith(pages[d].principals, KeyOf(x)) == Some(x)
                && forall e :: e in pages && e != d && FirstWith(pages[e].principals, KeyOf(x)).Some? ==> lt(d, e)
  }

  /** The cursor under `name` comes from the largest provider id that gave one. */
  ghost predicate CursorFrom(lt: Less<string>, pages: map<string, Page>, name: string, value: string)
  {
    exists d :: d in pages && name in pages[d].cursors && pages[d].cursors[name] == value
                && forall e :: e in pages && e != d && name in pages[e].cursors ==> lt(e, d)
  }

  /** The merged page, said without any order of completion. */
  ghost predicate IsMerged(lt: Less<string>, pages: map<string, Page>, out: Page)
  {
    && KeysAscend(lt, out.principals)
    && (forall x :: x in out.principals <==> Winner(lt, pages, x))
    && (forall name :: name in out.cursors ==> CursorFrom(lt, pages, name, out.cursors[name]))
    && (forall d, name :: d in pages && name in pages[d].cursors ==> name in out.cursors)
  }

  function Concat(pages: map<string, Page>, ids: seq<string>): seq<Projection>
    requires forall d :: d in ids ==> d in pages
  {
    if ids == [] then [] else pages[ids[0]].principals + Concat(pages, ids[1..])
  }

  lemma {:induction false} ConcatSnoc(pages: map<string, Page>, ids: seq<string>, d: string)
    requires d in pages && forall e :: e in ids ==> e in pages
    ensures Concat(pages, ids + [d]) == Concat(pages, ids) + pages[d].principals
  {
    if ids == [] {
      assert [d][1..] == [];
    } else {
      assert (ids + [d])[1..] == ids[1..] + [d];
      ConcatSnoc(pages, ids[1..], d);
    }
  }

  /** In the concatenation by ascending provider id, the first with a key is the winner. */
  lemma {:induction false} FirstIsWinner(lt: Less<string>, pages: map<string, Page>, ids: seq<string>, key: Key)
    requires StrictOrder(lt) && Ascending(lt, ids) && forall d :: d in ids ==> d in pages
    ensures var r := FirstWith(Concat(pages, ids), key);
      && (r.None? ==> forall d :: d in ids ==> FirstWith(pages[d].principals, key).None?)
      && (r.Some? ==> exists d :: d in ids && FirstWith(pages[d].principals, key) == r
                                  && forall e :: e in ids && e != d && FirstWith(pages[e].principals, key).Some? ==> lt(d, e))
  {
    hide FirstWith;
    if ids == [] {
      EmptyHasNone(key);
    } else {
      FirstWithConcat(pages[ids[0]].principals, Concat(pages, ids[1..]), key);
      FirstIsWinner(lt, pages, ids[1..], key);
      var r := FirstWith(Concat(pages, ids), key);
      if FirstWith(pages[ids[0]].principals, key).Some? {
        assert ids[0] in ids;
        forall e | e in ids && e != ids[0] ensures lt(ids[0], e) {
          assert e in ids[1..];
        }
      } else if r.Some? {
        var d :| d in ids[1..] && FirstWith(pages[d].principals, key) == r
                 && forall e :: e in ids[1..] && e != d && FirstWith(pages[e].principals, key).Some? ==> lt(d, e);
        assert d in ids;
        forall e | e in ids && e != d && FirstWith(pages[e].principals, key).Some? ensures lt(d, e) {
          assert e in ids[1..];
        }
      }
    }
  }

  lemma EmptyHasNone(key: Key)
    ensures FirstWith([], key).None?
  {
  }

  lemma WinnerIffFirst(lt: Less<string>, pages: map<string, Page>, ids: seq<string>, x: Projection)
    requires StrictOrder(lt) && Ascending(lt, ids) && forall d :: d in ids <==> d in pages
    ensures Winner(lt, pages, x) <==> FirstWith(Concat(pages, ids), KeyOf(x)) == Some(x)
  {
    hide FirstWith, Concat, KeyOf;
    var key := KeyOf(x);
    FirstIsWinner(lt, pages, ids, key);
    var r := FirstWith(Concat(pages, ids), key);
    if Winner(lt, pages, x) {
      var d :| d in pages && FirstWith(pages[d].principals, key) == Some(x)
               && forall e :: e in pages && e != d && FirstWith(pages[e].principals, key).Some? ==> lt(d, e);
      assert d in ids;
      var f :| f in ids && FirstWith(pages[f].principals, key) == r
               && forall e :: e in ids && e != f && FirstWith(pages[e].principals, key).Some? ==> lt(f, e);
      assert f in pages;
      assert f == d;
    }
  }

  /** The description leaves no freedom. */
  lemma MergedUnique(lt: Less<string>, pages: map<string, Page>, a: Page, b: Page)
    requires StrictOrder(lt) && IsMerged(lt, pages, a) && IsMerged(lt, pages, b)
    ensures a == b
  {
    KeyOrderStrict(lt);
    ProjectionsUnique(lt, pages, a.principals, b.principals);
    assert a.cursors == b.cursors by {
      forall name | name in a.cursors ensures name in b.cursors && a.cursors[name] == b.cursors[name] {
        assert CursorFrom(lt, pages, name, a.cursors[name]);
        assert CursorFrom(lt, pages, name, b.cursors[name]);
      }
      forall name | name in b.cursors ensures name in a.cursors {
        assert CursorFrom(lt, pages, name, b.cursors[name]);
      }
    }
  }

  function Keys(ps: seq<Projection>): seq<Key>
  {
    seq(|ps|, i requires 0 <= i < |ps| => KeyOf(ps[i]))
  }

  lemma WinnersAgree(lt: Less<string>, pages: map<string, Page>, x: Projection, y: Projection)
    requires StrictOrder(lt) && Winner(lt, pages, x) && Winner(lt, pages, y) && KeyOf(x) == KeyOf(y)
    ensures x == y
  {
    hide FirstWith;
  }

  lemma ProjectionsUnique(lt: Less<string>, pages: map<string, Page>, a: seq<Projection>, b: seq<Projection>)
    requires StrictOrder(lt) && StrictOrder(KeyOrder(lt)) && KeysAscend(lt, a) && KeysAscend(lt, b)
    requires forall x :: x in a <==> Winner(lt, pages, x)
    requires forall x :: x in b <==> Winner(lt, pages, x)
    ensures a == b
  {
    hide Winner;
    forall k ensures k in Keys(a) <==> k in Keys(b) {
      if k in Keys(a) {
        var i :| 0 <= i < |a| && KeyOf(a[i]) == k;
        assert a[i] in b;
        var j :| 0 <= j < |b| && b[j] == a[i];
        assert Keys(b)[j] == k;
      }
      if k in Keys(b) {
        var i :| 0 <= i < |b| && KeyOf(b[i]) == k;
        assert b[i] in a;
        var j :| 0 <= j < |a| && a[j] == b[i];
        assert Keys(a)[j] == k;
      }
    }
    AscendingUnique(KeyOrder(lt), Keys(a), Keys(b));
    assert |Keys(a)| == |a| && |Keys(b)| == |b|;
    forall i | 0 <= i < |a| ensures a[i] == b[i] {
      assert Keys(a)[i] == Keys(b)[i];
      assert a[i] in a && b[i] in b;
      WinnersAgree(lt, pages, a[i], b[i]);
    }
  }

  // ----- Completion -----

  datatype Completion = Completion(provider: string, page: Result<Page>)

  /** Insertion into the ordered map as tasks complete. */
  function Collected(cs: seq<Completion>): map<string, Page>
  {
    if cs == [] then map[]
    else
      var last := cs[|cs| - 1];
      var before := Collected(cs[..|cs| - 1]);
      if last.page.Ok? then before[last.provider := last.page.value] else before
  }

  ghost predicate DistinctProviders(cs: seq<Completion>)
  {
    forall i, j :: 0 <= i < j < |cs| ==> cs[i].provider != cs[j].provider
  }

  ghost predicate AllOk(cs: seq<Completion>)
  {
    forall i :: 0 <= i < |cs| ==> cs[i].page.Ok?
  }

  method Search(lt: Less<string>, completions: seq<Completion>) returns (r: Result<Page>)
    requires StrictOrder(lt)
    ensures r.Ok? <==> AllOk(completions)
    ensures r.Ok? ==> IsMerged(lt, Collected(completions), r.value)
  {
    var pages: map<string, Page> := map[];
    for n := 0 to |completions|
      invariant AllOk(completions[..n])
      invariant pages == Collected(completions[..n])
    {
      if completions[n].page.Err? {
        return Err;
      }
      assert completions[..n + 1][..n] == completions[..n];
      pages := pages[completions[n].provider := completions[n].page.value];
    }
    assert completions[..|completions|] == completions;
    var merged := Merge(lt, pages);
    return Ok(merged);
  }

  method Merge(lt: Less<string>, pages: map<string, Page>) returns (out: Page)
    requires StrictOrder(lt)
    ensures IsMerged(lt, pages, out)
  {
    hide *;
    var ids := InOrder(lt, pages.Keys);
    SameMembers(pages, ids);
    var principals: seq<Projection> := [];
    var cursors: map<string, string> := map[];
    NothingYet(pages);
    for n := 0 to |ids|
      invariant principals == Concat(pages, ids[..n])
      invariant CursorsOf(pages, ids[..n], cursors)
    {
      assert ids[n] in ids && ids[n] in pages;
      assert ids[..n + 1] == ids[..n] + [ids[n]];
      ConcatSnoc(pages, ids[..n], ids[n]);
      ExtendCursors(pages, ids[..n], ids[n], cursors);
      principals := principals + pages[ids[n]].principals;
      cursors := cursors + pages[ids[n]].cursors;
    }
    assert ids[..|ids|] == ids;
    var unique := Deduplicate(lt, principals);
    MergedFrom(lt, pages, ids, unique, cursors);
    return Page(unique, cursors);
  }

  lemma SameMembers(pages: map<string, Page>, ids: seq<string>)
    requires forall d :: d in ids <==> d in pages.Keys
    ensures forall d :: d in ids <==> d in pages
  {
  }

  lemma NothingYet(pages: map<string, Page>)
    ensures Concat(pages, []) == [] && CursorsOf(pages, [], map[])
  {
  }

  lemma MergedFrom(lt: Less<string>, pages: map<string, Page>, ids: seq<string>,
                   unique: seq<Projection>, cursors: map<string, string>)
    requires StrictOrder(lt) && Ascending(lt, ids) && forall d :: d in ids <==> d in pages
    requires KeysAscend(lt, unique) && CursorsOf(pages, ids, cursors)
    requires forall x :: x in unique <==> FirstWith(Concat(pages, ids), KeyOf(x)) == Some(x)
    ensures IsMerged(lt, pages, Page(unique, cursors))
  {
    hide FirstWith, Winner, KeysAscend, CursorsOf, Concat, Ascending, StrictOrder;
    forall x ensures x in unique <==> Winner(lt, pages, x) {
      WinnerIffFirst(lt, pages, ids, x);
    }
    CursorsMerged(lt, pages, ids, cursors);
  }

  /** Each cursor is the last one given for its name among `ids`. */
  ghost predicate CursorsOf(pages: map<string, Page>, ids: seq<string>, cursors: map<string, string>)
    requires forall d :: d in ids ==> d in pages
  {
    && (forall i, name :: 0 <= i < |ids| && name in pages[ids[i]].cursors ==> name in cursors)
    && (forall name :: name in cursors ==> exists i :: 0 <= i < |ids| && LastGiven(pages, ids, i, name, cursors[name]))
  }

  ghost predicate LastGiven(pages: map<string, Page>, ids: seq<string>, i: nat, name: string, value: string)
    requires i < |ids| && forall d :: d in ids ==> d in pages
  {
    && name in pages[ids[i]].cursors && pages[ids[i]].cursors[name] == value
    && forall j :: i < j < |ids| ==> name !in pages[ids[j]].cursors
  }

  lemma ExtendCursors(pages: map<string, Page>, ids: seq<string>, d: string, cursors: map<string, string>)
    requires d in pages && forall d :: d in ids ==> d in pages
    requires CursorsOf(pages, ids, cursors)
    ensures CursorsOf(pages, ids + [d], cursors + pages[d].cursors)
  {
    var longer, merged := ids + [d], cursors + pages[d].cursors;
    forall name | name in merged
      ensures exists i :: 0 <= i < |longer| && LastGiven(pages, longer, i, name, merged[name])
    {
      var value := merged[name];
      if name in pages[d].cursors {
        assert LastGiven(pages, longer, |ids|, name, value);
      } else {
        var i :| 0 <= i < |ids| && LastGiven(pages, ids, i, name, value);
        assert LastGiven(pages, longer, i, name, value);
      }
    }
  }

  lemma CursorsMerged(lt: Less<string>, pages: map<string, Page>, ids: seq<string>, cursors: map<string, string>)
    requires StrictOrder(lt) && Ascending(lt, ids) && forall d :: d in ids <==> d in pages
    requires CursorsOf(pages, ids, cursors)
    ensures forall name :: name in cursors ==> CursorFrom(lt, pages, name, cursors[name])
    ensures forall d, name :: d in pages && name in pages[d].cursors ==> name in cursors
  {
    forall name | name in cursors ensures CursorFrom(lt, pages, name, cursors[name]) {
      var i :| 0 <= i < |ids| && LastGiven(pages, ids, i, name, cursors[name]);
      assert ids[i] in pages;
      forall e | e in pages && e != ids[i] && name in pages[e].cursors ensures lt(e, ids[i]) {
        assert e in ids;
        var j :| 0 <= j < |ids| && ids[j] == e;
        assert j != i && !(i < j);
        assert lt(ids[j], ids[i]);
      }
    }
    forall d, name | d in pages && name in pages[d].cursors ensures name in cursors {
      assert d in ids;
    }
  }

  // ----- Confluence -----

  ghost predicate Has(cs: seq<Completion>, d: string, page: Page)
  {
    exists i :: 0 <= i < |cs| && cs[i] == Completion(d, Ok(page))
  }

  lemma HasSnoc(cs: seq<Completion>, c: Completion, d: string, page: Page)
    ensures Has(cs + [c], d, page) <==> Has(cs, d, page) || c == Completion(d, Ok(page))
  {
    if Has(cs, d, page) {
      var i :| 0 <= i < |cs| && cs[i] == Completion(d, Ok(page));
      assert (cs + [c])[i] == cs[i];
    }
    assert (cs + [c])[|cs|] == c;
  }

  lemma {:induction false} CollectedAt(cs: seq<Completion>, d: string, page: Page)
    requires DistinctProviders(cs)
    ensures d in Collected(cs) && Collected(cs)[d] == page <==> Has(cs, d, page)
  {
    if cs != [] {
      var last, before := cs[|cs| - 1], cs[..|cs| - 1];
      assert cs == before + [last];
      CollectedAt(before, d, page);
      HasSnoc(before, last, d, page);
    }
  }

  /** With distinct provider ids, every order of completion collects the same pages. */
  lemma CollectedPermuted(cs: seq<Completion>, ds: seq<Completion>)
    requires multiset(cs) == multiset(ds) && DistinctProviders(cs) && DistinctProviders(ds)
    ensures Collected(cs) == Collected(ds)
  {
    hide Collected, Has, DistinctProviders;
    CollectedWithin(cs, ds);
    CollectedWithin(ds, cs);
  }

  lemma CollectedWithin(cs: seq<Completion>, ds: seq<Completion>)
    requires multiset(cs) == multiset(ds) && DistinctProviders(cs) && DistinctProviders(ds)
    ensures forall d :: d in Collected(cs) ==> d in Collected(ds) && Collected(ds)[d] == Collected(cs)[d]
  {
    hide Collected, Has, DistinctProviders;
    forall d | d in Collected(cs) ensures d in Collected(ds) && Collected(ds)[d] == Collected(cs)[d] {
      var page := Collected(cs)[d];
      CollectedAt(cs, d, page);
      SameMembership(cs, ds, d, page);
      CollectedAt(ds, d, page);
    }
  }

  lemma SameMembership(cs: seq<Completion>, ds: seq<Completion>, d: string, page: Page)
    requires multiset(cs) == multiset(ds)
    ensures Has(cs, d, page) <==> Has(ds, d, page)
  {
    var c := Completion(d, Ok(page));
    assert c in multiset(cs) <==> c in multiset(ds);
    assert Has(cs, d, page) <==> c in cs;
    assert Has(ds, d, page) <==> c in ds;
  }

  /** Federated search is confluent: any two orders of completion answer with the same page. */
  lemma Confluent(lt: Less<string>, cs: seq<Completion>, ds: seq<Completion>, a: Page, b: Page)
    requires StrictOrder(lt) && multiset(cs) == multiset(ds)
    requires DistinctProviders(cs) && DistinctProviders(ds)
    requires IsMerged(lt, Collected(cs), a) && IsMerged(lt, Collected(ds), b)
    ensures a == b
  {
    hide IsMerged, Collected;
    CollectedPermuted(cs, ds);
    MergedUnique(lt, Collected(cs), a, b);
  }

  /** Every key of the union is on the merged page exactly once. */
  lemma EveryKeyOnce(lt: Less<string>, pages: map<string, Page>, out: Page, d: string, p: Projection)
    requires StrictOrder(lt) && IsMerged(lt, pages, out) && d in pages && p in pages[d].principals
    ensures exists i :: 0 <= i < |out.principals| && KeyOf(out.principals[i]) == KeyOf(p)
                        && forall j :: 0 <= j < |out.principals| && KeyOf(out.principals[j]) == KeyOf(p) ==> j == i
  {
    hide FirstWith;
    var holders := set e | e in pages && FirstWith(pages[e].principals, KeyOf(p)).Some?;
    assert d in holders;
    var least := LeastOf(lt, holders);
    var x := FirstWith(pages[least].principals, KeyOf(p)).value;
    assert Winner(lt, pages, x);
    assert x in out.principals;
    KeyOrderStrict(lt);
    var i :| 0 <= i < |out.principals| && out.principals[i] == x;
    forall j | 0 <= j < |out.principals| && KeyOf(out.principals[j]) == KeyOf(p) ensures j == i {
      assert !KeyLess(lt, KeyOf(p), KeyOf(p));
    }
  }

  // ----- When the order of completion cannot show -----

  /** One task per listed provider id, answering its page. */
  function Tasks(ids: seq<string>, pages: seq<Page>): (cs: seq<Completion>)
    requires |pages| == |ids|
    ensures |cs| == |ids|
  {
    seq(|ids|, i requires 0 <= i < |ids| => Completion(ids[i], Ok(pages[i])))
  }

  /** Whatever order the tasks complete in, the merged page is one and the same. */
  ghost predicate OneAnswer(lt: Less<string>, tasks: seq<Completion>)
  {
    forall cs, ds, a, b ::
      Orders(tasks, cs) && Orders(tasks, ds) && IsMerged(lt, Collected(cs), a) && IsMerged(lt, Collected(ds), b) ==> a == b
  }

  ghost predicate Orders(tasks: seq<Completion>, cs: seq<Completion>)
  {
    multiset(cs) == multiset(tasks)
  }

  ghost predicate DistinctIds(ids: seq<string>)
  {
    forall i, j :: 0 <= i < j < |ids| ==> ids[i] != ids[j]
  }

  ghost predicate AlwaysOneAnswer(lt: Less<string>, ids: seq<string>)
  {
    forall pages: seq<Page> | |pages| == |ids| :: OneAnswer(lt, Tasks(ids, pages))
  }

  /** The search is confluent for every answer of its providers if and only if their ids are distinct. */
  lemma ConfluentIff(lt: Less<string>, ids: seq<string>)
    requires StrictOrder(lt)
    ensures AlwaysOneAnswer(lt, ids) <==> DistinctIds(ids)
  {
    hide IsMerged, Collected;
    if DistinctIds(ids) {
      forall pages: seq<Page> | |pages| == |ids| ensures OneAnswer(lt, Tasks(ids, pages)) {
        DistinctAgree(lt, ids, pages);
      }
    } else {
      var i, j :| 0 <= i < j < |ids| && ids[i] == ids[j];
      var pages := seq(|ids|, k => if k == i then Page([SOMEONE], map[]) else NOBODY);
      RepeatedIdRaces(lt, ids, i, j);
      assert !OneAnswer(lt, Tasks(ids, pages));
    }
  }

  lemma DistinctAgree(lt: Less<string>, ids: seq<string>, pages: seq<Page>)
    requires StrictOrder(lt) && |pages| == |ids| && DistinctIds(ids)
    ensures OneAnswer(lt, Tasks(ids, pages))
  {
    hide IsMerged, Collected;
    var tasks := Tasks(ids, pages);
    forall cs, ds, a, b | Orders(tasks, cs) && Orders(tasks, ds) && IsMerged(lt, Collected(cs), a) && IsMerged(lt, Collected(ds), b)
      ensures a == b
    {
      OrdersDistinct(tasks, cs);
      OrdersDistinct(tasks, ds);
      Confluent(lt, cs, ds, a, b);
    }
  }

  function Without(tasks: seq<Completion>, n: nat): seq<Completion>
    requires n < |tasks|
  {
    tasks[..n] + tasks[n + 1..]
  }

  lemma WithoutDistinct(tasks: seq<Completion>, n: nat)
    requires n < |tasks| && DistinctProviders(tasks)
    ensures DistinctProviders(Without(tasks, n))
    ensures forall c :: c in Without(tasks, n) ==> c.provider != tasks[n].provider
  {
    var others := Without(tasks, n);
    assert forall m :: 0 <= m < |others| ==> others[m] == tasks[if m < n then m else m + 1];
  }

  /** Reordering tasks with distinct ids leaves the ids distinct. */
  lemma {:induction false} OrdersDistinct(tasks: seq<Completion>, cs: seq<Completion>)
    requires DistinctProviders(tasks) && Orders(tasks, cs)
    ensures DistinctProviders(cs)
    decreases |cs|
  {
    if cs != [] {
      var c, rest := cs[0], cs[1..];
      var n := TaskFor(tasks, cs);
      WithoutDistinct(tasks, n);
      hide Without;
      OrdersDistinct(Without(tasks, n), rest);
      forall k | 0 <= k < |rest| ensures rest[k].provider != c.provider {
        assert rest[k] in multiset(Without(tasks, n));
      }
    }
  }

  lemma TaskFor(tasks: seq<Completion>, cs: seq<Completion>) returns (n: nat)
    requires cs != [] && Orders(tasks, cs)
    ensures n < |tasks| && tasks[n] == cs[0] && Orders(Without(tasks, n), cs[1..])
  {
    assert cs == [cs[0]] + cs[1..];
    assert cs[0] in multiset(tasks);
    n :| 0 <= n < |tasks| && tasks[n] == cs[0];
    WithoutOne(tasks, n);
    assert multiset(cs[1..]) == multiset(cs) - multiset{cs[0]};
  }

  const SOMEONE := Projection("issuer", "external", "USER", "Someone")
  const NOBODY := Page([], map[])

  /**
   The failing input for a repeated id: one of its two tasks finds somebody and every other task finds
   nobody.  Completing last, the finder decides the page; completing earlier, it is forgotten.
   */
  lemma RepeatedIdRaces(lt: Less<string>, ids: seq<string>, i: nat, j: nat)
    requires StrictOrder(lt) && i < j < |ids| && ids[i] == ids[j]
    ensures var pages := seq(|ids|, k => if k == i then Page([SOMEONE], map[]) else NOBODY);
      !OneAnswer(lt, Tasks(ids, pages))
  {
    hide IsMerged, Collected, Without;
    var tasks := Tasks(ids, seq(|ids|, k => if k == i then Page([SOMEONE], map[]) else NOBODY));
    var cs, ds := Without(tasks, i) + [tasks[i]], Without(tasks, j) + [tasks[j]];
    LastCompletes(tasks, i);
    LastCompletes(tasks, j);
    assert tasks[i] == Completion(ids[i], Ok(Page([SOMEONE], map[]))) && tasks[j] == Completion(ids[i], Ok(NOBODY));
    OnlyFinder(tasks, i);
    OnlyFinder(tasks, j);
    MergedWithOne(lt, Collected(cs), ids[i]);
    MergedWithNone(lt, Collected(ds));
    assert IsMerged(lt, Collected(cs), Page([SOMEONE], map[])) && IsMerged(lt, Collected(ds), NOBODY);
  }

  lemma LastCompletes(tasks: seq<Completion>, n: nat)
    requires n < |tasks| && tasks[n].page.Ok?
    ensures var cs := Without(tasks, n) + [tasks[n]];
      Orders(tasks, cs) && Collected(cs) == Collected(Without(tasks, n))[tasks[n].provider := tasks[n].page.value]
  {
    hide Collected;
    WithoutOne(tasks, n);
    CollectedLast(Without(tasks, n), tasks[n]);
  }

  /** Apart from the id of task n, nobody was found. */
  lemma OnlyFinder(tasks: seq<Completion>, n: nat)
    requires n < |tasks|
    requires forall k :: 0 <= k < |tasks| ==> FoundBy(tasks[k], tasks[n].provider)
    ensures forall d :: d in Collected(Without(tasks, n)) && d != tasks[n].provider ==> Collected(Without(tasks, n))[d] == NOBODY
  {
    hide Collected, FoundBy;
    var others := Without(tasks, n);
    assert forall m :: 0 <= m < |others| ==> others[m] == tasks[if m < n then m else m + 1];
    NobodyElse(others, tasks[n].provider);
  }

  ghost predicate FoundBy(c: Completion, finder: string)
  {
    c.page.Ok? && (c.provider == finder || c.page.value == NOBODY)
  }

  lemma CollectedLast(cs: seq<Completion>, c: Completion)
    requires c.page.Ok?
    ensures Collected(cs + [c]) == Collected(cs)[c.provider := c.page.value]
  {
    assert (cs + [c])[..|cs|] == cs;
  }

  lemma {:induction false} NobodyElse(cs: seq<Completion>, finder: string)
    requires forall k :: 0 <= k < |cs| ==> FoundBy(cs[k], finder)
    ensures forall d :: d in Collected(cs) && d != finder ==> Collected(cs)[d] == NOBODY
  {
    if cs != [] {
      NobodyElse(cs[..|cs| - 1], finder);
      assert FoundBy(cs[|cs| - 1], finder);
    }
  }

  lemma MergedWithOne(lt: Less<string>, pages: map<string, Page>, finder: string)
    requires StrictOrder(lt) && finder in pages && pages[finder] == Page([SOMEONE], map[])
    requires forall d :: d in pages && d != finder ==> pages[d] == NOBODY
    ensures IsMerged(lt, pages, Page([SOMEONE], map[]))
  {
    forall x ensures x in [SOMEONE] <==> Winner(lt, pages, x) {
      if x == SOMEONE {
        assert FirstWith(pages[finder].principals, KeyOf(x)) == Some(x);
        assert forall e :: e in pages && e != finder ==> FirstWith(pages[e].principals, KeyOf(x)).None?;
      }
    }
  }

  lemma MergedWithNone(lt: Less<string>, pages: map<string, Page>)
    requires forall d :: d in pages ==> pages[d] == NOBODY
    ensures IsMerged(lt, pages, NOBODY)
  {
  }

  /** With one provider id configured twice the page that completes last wins, and the answer shows it. */
  lemma DuplicateProvidersRace(lt: Less<string>)
    requires StrictOrder(lt)
    ensures var x, y := Completion("p", Ok(Page([SOMEONE], map[]))), Completion("p", Ok(NOBODY));
      && IsMerged(lt, Collected([y, x]), Page([SOMEONE], map[]))
      && IsMerged(lt, Collected([x, y]), NOBODY)
  {
    hide IsMerged;
    var x, y := Completion("p", Ok(Page([SOMEONE], map[]))), Completion("p", Ok(NOBODY));
    assert [y] + [x] == [y, x] && [x] + [y] == [x, y];
    CollectedLast([y], x);
    CollectedLast([x], y);
    NobodyElse([y], "p");
    NobodyElse([x], "p");
    MergedWithOne(lt, Collected([y, x]), "p");
    MergedWithNone(lt, Collected([x, y]));
  }

  // ----- Which providers take part -----

  ghost predicate OnlyAt(providers: seq<string>, id: string, k: nat)
  {
    k < |providers| && providers[k] == id && forall i :: 0 <= i < |providers| && providers[i] == id ==> i == k
  }

  ghost predicate ConfiguredOnce(providers: seq<string>, id: string)
  {
    exists k :: OnlyAt(providers, id, k)
  }

  /**
   Positions of the providers named by a non-empty filter (in the filter's order).  A name that is
   unknown or configured twice refuses the search, so the providers that take part have distinct ids.
   */
  method SelectedProviders(providers: seq<string>, filter: seq<string>) returns (r: Result<seq<nat>>)
    requires filter != []
    ensures r.Ok? <==> forall n :: 0 <= n < |filter| ==> ConfiguredOnce(providers, filter[n])
    ensures r.Ok? ==> |r.value| == |filter| && forall n :: 0 <= n < |filter| ==> OnlyAt(providers, filter[n], r.value[n])
  {
    var selected: seq<nat> := [];
    for n := 0 to |filter|
      invariant |selected| == n
      invariant forall m :: 0 <= m < n ==> OnlyAt(providers, filter[m], selected[m])
    {
      var first := NextMatch(providers, filter[n], 0);
      if first == |providers| {
        assert !ConfiguredOnce(providers, filter[n]);
        return Err;
      }
      var second := NextMatch(providers, filter[n], first + 1);
      if second < |providers| {
        assert !ConfiguredOnce(providers, filter[n]) by {
          assert providers[first] == providers[second] == filter[n];
        }
        return Err;
      }
      assert OnlyAt(providers, filter[n], first);
      selected := selected + [first];
    }
    return Ok(selected);
  }

  method NextMatch(providers: seq<string>, id: string, start: nat) returns (k: nat)
    requires start <= |providers|
    ensures start <= k <= |providers|
    ensures k < |providers| ==> providers[k] == id
    ensures forall i :: start <= i < k ==> providers[i] != id
  {
    k := start;
    while k < |providers| && providers[k] != id
      invariant start <= k <= |providers|
      invariant forall i :: start <= i < k ==> providers[i] != id
    {
      k := k + 1;
    }
  }
}
