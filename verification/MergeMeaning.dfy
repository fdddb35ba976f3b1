/** The merged page of a federated search, read off the providers' pages by issuer, external id and provider id. */
module MergeMeaning {
  import opened Collections
  import opened Federation
  import opened Strings

  ghost predicate SamePrincipal(x: Projection, y: Projection)
  {
    x.issuer == y.issuer && x.externalId == y.externalId
  }

  /** The provider's page has `x` at `i`, and nothing before it for the same issuer and external id. */
  ghost predicate FirstAt(page: Page, i: nat, x: Projection)
  {
    && i < |page.principals| && page.principals[i] == x
    && forall j :: 0 <= j < i ==> !SamePrincipal(page.principals[j], x)
  }

  ghost predicate Knows(page: Page, x: Projection)
  {
    exists i :: 0 <= i < |page.principals| && SamePrincipal(page.principals[i], x)
  }

  lemma {:induction false} FirstAtIff(ps: seq<Projection>, cursors: map<string, string>, x: Projection)
    ensures FirstWith(ps, KeyOf(x)) == Some(x) <==> exists i :: FirstAt(Page(ps, cursors), i, x)
  {
    var page := Page(ps, cursors);
    if FirstWith(ps, KeyOf(x)) == Some(x) {
      var i := WhereFirst(ps, x);
      assert FirstAt(page, i, x);
    }
    if i :| FirstAt(page, i, x) {
      FirstIs(ps, i, x);
    }
  }

  lemma {:induction false} WhereFirst(ps: seq<Projection>, x: Projection) returns (i: nat)
    requires FirstWith(ps, KeyOf(x)) == Some(x)
    ensures i < |ps| && ps[i] == x && forall j :: 0 <= j < i ==> !SamePrincipal(ps[j], x)
  {
    i := 0;
    if KeyOf(ps[0]) != KeyOf(x) {
      i := WhereFirst(ps[1..], x);
      i := i + 1;
      assert forall j :: 1 <= j < i ==> ps[j] == ps[1..][j - 1];
    }
  }

  lemma {:induction false} FirstIs(ps: seq<Projection>, i: nat, x: Projection)
    requires i < |ps| && ps[i] == x && forall j :: 0 <= j < i ==> !SamePrincipal(ps[j], x)
    ensures FirstWith(ps, KeyOf(x)) == Some(x)
  {
    if i > 0 {
      assert !SamePrincipal(ps[0], x);
      assert forall j :: 0 <= j < i - 1 ==> ps[1..][j] == ps[j + 1];
      FirstIs(ps[1..], i - 1, x);
    }
  }

  lemma KnowsIff(page: Page, x: Projection)
    ensures Knows(page, x) <==> FirstWith(page.principals, KeyOf(x)).Some?
  {
    hide FirstWith;
    if i :| 0 <= i < |page.principals| && SamePrincipal(page.principals[i], x) {
      assert page.principals[i] in page.principals;
    }
    if FirstWith(page.principals, KeyOf(x)).Some? {
      var p := FirstWith(page.principals, KeyOf(x)).value;
      var i :| 0 <= i < |page.principals| && page.principals[i] == p;
      assert SamePrincipal(page.principals[i], x);
    }
  }

  /** Shown is what the smallest provider id that knows the principal listed first for it. */
  ghost predicate Shown(lt: Less<string>, pages: map<string, Page>, x: Projection)
  {
    exists d, i: nat ::
      && d in pages && FirstAt(pages[d], i, x)
      && forall e :: e in pages && e != d && Knows(pages[e], x) ==> lt(d, e)
  }

  lemma ShownIff(lt: Less<string>, pages: map<string, Page>, x: Projection)
    ensures Shown(lt, pages, x) <==> Winner(lt, pages, x)
  {
    hide FirstWith, FirstAt, Knows;
    forall d | d in pages
      ensures Knows(pages[d], x) <==> FirstWith(pages[d].principals, KeyOf(x)).Some?
      ensures FirstWith(pages[d].principals, KeyOf(x)) == Some(x) <==> exists i: nat :: FirstAt(pages[d], i, x)
    {
      KnowsIff(pages[d], x);
      FirstAtIff(pages[d].principals, pages[d].cursors, x);
      assert pages[d] == Page(pages[d].principals, pages[d].cursors);
    }
    if Winner(lt, pages, x) {
      var d :| d in pages && FirstWith(pages[d].principals, KeyOf(x)) == Some(x)
               && forall e :: e in pages && e != d && FirstWith(pages[e].principals, KeyOf(x)).Some? ==> lt(d, e);
      var i: nat :| FirstAt(pages[d], i, x);
    }
  }

  /** A provider's cursor is passed on unless a larger provider id gave one under the same name. */
  ghost predicate PassedOn(lt: Less<string>, pages: map<string, Page>, name: string, value: string)
  {
    exists d :: d in pages && name in pages[d].cursors && pages[d].cursors[name] == value && LargestGiving(lt, pages, name, d)
  }

  ghost predicate LargestGiving(lt: Less<string>, pages: map<string, Page>, name: string, d: string)
  {
    forall e :: e in pages && e != d && name in pages[e].cursors ==> lt(e, d)
  }

  /**
   The merged page: principals by issuer and then external id, exactly those shown, and exactly the
   cursors passed on.
   */
  lemma MergedMeans(lt: Less<string>, pages: map<string, Page>, out: Page)
    requires StrictOrder(lt) && IsMerged(lt, pages, out)
    ensures forall i, j :: 0 <= i < j < |out.principals| ==>
      var x, y := out.principals[i], out.principals[j];
      lt(x.issuer, y.issuer) || (x.issuer == y.issuer && lt(x.externalId, y.externalId))
    ensures forall x :: x in out.principals <==> Shown(lt, pages, x)
    ensures forall name, value :: name in out.cursors && out.cursors[name] == value <==> PassedOn(lt, pages, name, value)
  {
    hide FirstWith, Winner, Shown;
    forall x ensures Shown(lt, pages, x) <==> Winner(lt, pages, x) {
      ShownIff(lt, pages, x);
    }
    CursorsMean(lt, pages, out);
  }

  lemma CursorsMean(lt: Less<string>, pages: map<string, Page>, out: Page)
    requires StrictOrder(lt) && IsMerged(lt, pages, out)
    ensures forall name, value :: name in out.cursors && out.cursors[name] == value <==> PassedOn(lt, pages, name, value)
  {
    hide Winner, KeysAscend;
    forall name, value ensures name in out.cursors && out.cursors[name] == value <==> PassedOn(lt, pages, name, value) {
      if name in out.cursors && out.cursors[name] == value {
        assert CursorFrom(lt, pages, name, value);
      }
      if PassedOn(lt, pages, name, value) {
        assert CursorFrom(lt, pages, name, out.cursors[name]);
      }
    }
  }

  /** With distinct provider ids the pages merged are exactly those the tasks answered with. */
  lemma CollectedMeans(cs: seq<Completion>)
    requires DistinctProviders(cs) && AllOk(cs)
    ensures forall i :: 0 <= i < |cs| ==> cs[i].provider in Collected(cs) && Collected(cs)[cs[i].provider] == cs[i].page.value
    ensures forall d :: d in Collected(cs) ==> exists i :: 0 <= i < |cs| && cs[i].provider == d
  {
    hide Collected, DistinctProviders;
    forall i | 0 <= i < |cs| ensures cs[i].provider in Collected(cs) && Collected(cs)[cs[i].provider] == cs[i].page.value {
      assert cs[i] == Completion(cs[i].provider, Ok(cs[i].page.value));
      CollectedAt(cs, cs[i].provider, cs[i].page.value);
    }
    forall d | d in Collected(cs) ensures exists i :: 0 <= i < |cs| && cs[i].provider == d {
      CollectedAt(cs, d, Collected(cs)[d]);
      var i :| 0 <= i < |cs| && cs[i] == Completion(d, Ok(Collected(cs)[d]));
    }
  }
}
