/** The answers of the two listings, field by field: the SCIM window, one SCIM lookup, and the page limit and cursor. */
module ListingMeaning {
  import opened KeysetWalk
  import opened Strings

  /**
   The SCIM answer for one-based `startIndex` and `count`: all accepted resources are counted, the start
   is at least 1, and what is shown are the consecutive resources from there, at most `count` and at most 100.
   */
  lemma PageWindow(rs: seq<Resource>, q: ScimQuery)
    ensures var r := PageOf(rs, q);
      && r.totalResults == |rs| && r.itemsPerPage == |r.resources|
      && (if q.startIndex == 0 then r.startIndex == 1 else r.startIndex == q.startIndex)
      && (forall i :: 0 <= i < |r.resources| ==> r.startIndex - 1 + i < |rs| && r.resources[i] == rs[r.startIndex - 1 + i])
      && |r.resources| <= q.count && |r.resources| <= 100
      && (|r.resources| < q.count && |r.resources| < 100 ==> r.startIndex - 1 + |r.resources| >= |rs|)
  {
  }

  /** The principal is a live row of this kind with an identity at the provider. */
  ghost predicate Listable(row: Store, identity: Store, id: string, kind: string, provider: string)
  {
    && id in row.principals && row.principals[id].kind == kind && !row.principals[id].scimDeleted
    && (id, provider) in identity.identities
  }

  /** One lookup shows exactly the stored resource that can be restored; it fails on one that cannot, and misses all else. */
  lemma LookupIff(row: Store, identity: Store, id: string, kind: string, provider: string,
                  restorable: (Principal, string) -> bool, x: Resource)
    requires row.Valid()
    ensures var l := GetScim(row, identity, id, kind, provider, restorable);
      && (l == Present(x) <==> x.principal.id == id && Shown(row, identity, x, kind, provider) && restorable(x.principal, x.claims))
      && (l == NotFound <==> !Listable(row, identity, id, kind, provider))
      && (l == Failed <==>
           && Listable(row, identity, id, kind, provider)
           && !restorable(row.principals[id], identity.identities[(id, provider)]))
  {
  }

  /** A page holds between 1 and 100 principals, as many as asked for where that is allowed. */
  lemma PageLimit(limit: nat)
    ensures 1 <= Clamp(limit) <= 100
    ensures Clamp(limit) == limit || (limit == 0 && Clamp(limit) == 1) || (limit > 100 && Clamp(limit) == 100)
  {
  }

  /** The cursor is the id of the last principal of a full page; a page that is not full has none. */
  lemma CursorIff(items: seq<Principal>, limit: nat, cursor: string)
    requires 1 <= limit && |items| <= limit
    ensures NextCursor(items, limit) == Some(cursor) <==> |items| == limit && items[limit - 1].id == cursor
  {
  }

  lemma {:induction false} LoweredMeans(lower: char -> char, s: string)
    ensures |Lowered(lower, s)| == |s| && forall i :: 0 <= i < |s| ==> Lowered(lower, s)[i] == lower(s[i])
  {
    if s != "" {
      LoweredMeans(lower, s[1..]);
    }
  }
}
