/**
 Resource URN patterns `urn:iam:<partition>:<service>:<region>:<tenant>:<path>`: the parser of the
 Go adapter, and the matcher the policy engine uses to decide whether a pattern covers a resource.
 A pattern keeps its raw segments: `*` stands for one segment, a final `**` for any number of them.
 */
module Urn {
  import opened Strings

  datatype UrnPattern = UrnPattern(partition: string, service: string, region: string, tenant: string, path: seq<string>)

  datatype ResourceUrn = ResourceUrn(partition: string, service: string, region: string, tenant: string, path: seq<string>)

  predicate ValidSegment(s: string)
  {
    s != "" && ('*' in s ==> s == "*")
  }

  /** What the path loop accepts at position `i` of `n` segments. */
  predicate ValidPathSegment(s: string, i: nat, n: nat)
  {
    && s != ""
    && (s == "**" ==> i == n - 1)
    && ('*' in s ==> s == "*" || s == "**")
  }

  function Parse(raw: string): (r: Result<UrnPattern>)
  {
    var parts := SplitN(raw, ':', 7);
    if |parts| != 7 || parts[0] != "urn" || parts[1] != "iam" || parts[6] == "" || ':' in parts[6] then Err
    else if exists i :: 2 <= i < 6 && !ValidSegment(parts[i]) then Err
    else
      var path := Split(parts[6], '/');
      if exists i :: 0 <= i < |path| && !ValidPathSegment(path[i], i, |path|) then Err
      else Ok(UrnPattern(parts[2], parts[3], parts[4], parts[5], path))
  }

  function Print(p: UrnPattern): string
  {
    Join(["urn", "iam", p.partition, p.service, p.region, p.tenant, Join(p.path, "/")], ":")
  }

  /** The parts of a printed pattern, in the order the format gives them. */
  lemma PrintSpelled(p: UrnPattern)
    ensures Print(p) == "urn:iam:" + p.partition + ":" + p.service + ":" + p.region + ":" + p.tenant + ":" + Join(p.path, "/")
  {
    var path := Join(p.path, "/");
    hide Join;
    JoinSeven("urn", "iam", p.partition, p.service, p.region, p.tenant, path);
    assert "urn" + ":" + "iam" + ":" == "urn:iam:";
  }

  lemma JoinThreeMore(xs: seq<string>, a: string, b: string, c: string)
    requires xs != []
    ensures Join(xs + [a, b, c], ":") == Join(xs, ":") + ":" + a + ":" + b + ":" + c
  {
    hide Join;
    JoinSnoc(xs, a, ":");
    JoinSnoc(xs + [a], b, ":");
    JoinSnoc(xs + [a] + [b], c, ":");
    assert xs + [a] + [b] + [c] == xs + [a, b, c];
  }

  lemma JoinSeven(a: string, b: string, c: string, d: string, e: string, f: string, g: string)
    ensures Join([a, b, c, d, e, f, g], ":") == a + ":" + b + ":" + c + ":" + d + ":" + e + ":" + f + ":" + g
  {
    assert Join([a], ":") == a;
    hide Join;
    JoinThreeMore([a], b, c, d);
    JoinThreeMore([a] + [b, c, d], e, f, g);
    assert [a] + [b, c, d] + [e, f, g] == [a, b, c, d, e, f, g];
  }

  /** The patterns that have a textual form. */
  ghost predicate WellFormed(p: UrnPattern)
  {
    && (forall s :: s in [p.partition, p.service, p.region, p.tenant] ==> ValidSegment(s) && ':' !in s)
    && WellFormedPath(p.path)
  }

  ghost predicate WellFormedPath(path: seq<string>)
  {
    && |path| >= 1
    && (forall i :: 0 <= i < |path| ==> ValidPathSegment(path[i], i, |path|))
    && Free(path, '/') && Free(path, ':')
  }

  lemma {:induction false} JoinFree(parts: seq<string>, sep: string, c: char)
    ensures c !in sep ==> (c !in Join(parts, sep) <==> Free(parts, c))
  {
    if |parts| > 1 {
      JoinFree(parts[1..], sep, c);
      assert parts == [parts[0]] + parts[1..];
    }
  }

  /** Parsing accepts exactly the printed forms of well-formed patterns, and inverts printing. */
  lemma ParsePrint(raw: string, p: UrnPattern)
    ensures Parse(raw) == Ok(p) <==> WellFormed(p) && Print(p) == raw
  {
    if Parse(raw) == Ok(p) {
      ParseSound(raw, p);
    }
    if WellFormed(p) && Print(p) == raw {
      ParseComplete(p);
    }
  }

  lemma ParseSound(raw: string, p: UrnPattern)
    requires Parse(raw) == Ok(p)
    ensures WellFormed(p) && Print(p) == raw
  {
    hide SplitN, Split, ValidSegment, WellFormedPath;
    SplitNIsSplit(raw, ':', 7);
    var parts := SplitN(raw, ':', 7);
    assert parts == Split(raw, ':');
    SplitIsFree(raw, ':');
    PathSound(parts[6]);
    assert p.path == Split(parts[6], '/');
    assert [p.partition, p.service, p.region, p.tenant] == parts[2..6];
    assert forall i :: 2 <= i < 6 ==> ValidSegment(parts[i]) && ':' !in parts[i];
    assert WellFormed(p) by {
      forall s | s in [p.partition, p.service, p.region, p.tenant] ensures ValidSegment(s) && ':' !in s {
        assert s == parts[2] || s == parts[3] || s == parts[4] || s == parts[5];
      }
    }
    JoinSplit(raw, ':');
    assert parts == ["urn", "iam", p.partition, p.service, p.region, p.tenant, Join(p.path, "/")];
  }

  lemma PathSound(text: string)
    requires ':' !in text
    requires var path := Split(text, '/'); forall i :: 0 <= i < |path| ==> ValidPathSegment(path[i], i, |path|)
    ensures WellFormedPath(Split(text, '/')) && Join(Split(text, '/'), "/") == text
  {
    JoinSplit(text, '/');
    SplitIsFree(text, '/');
    JoinFree(Split(text, '/'), "/", ':');
  }

  lemma ParseComplete(p: UrnPattern)
    requires WellFormed(p)
    ensures Parse(Print(p)) == Ok(p)
  {
    hide SplitN, Split, ValidSegment;
    var raw, text := Print(p), Join(p.path, "/");
    var segments := [p.partition, p.service, p.region, p.tenant];
    var parts := ["urn", "iam"] + segments + [text];
    assert parts == ["urn", "iam", p.partition, p.service, p.region, p.tenant, text];
    PathComplete(p.path);
    assert forall i :: 0 <= i < 4 ==> segments[i] in segments;
    assert Free(parts, ':');
    SplitJoin(parts, ':');
    SplitNIsSplit(raw, ':', 7);
    assert SplitN(raw, ':', 7) == parts;
    assert forall i :: 2 <= i < 6 ==> parts[i] == segments[i - 2];
  }

  lemma PathComplete(path: seq<string>)
    requires WellFormedPath(path)
    ensures var text := Join(path, "/"); text != "" && ':' !in text && Split(text, '/') == path
  {
    JoinFree(path, "/", ':');
    SplitJoin(path, '/');
    assert ValidPathSegment(path[0], 0, |path|);
    assert path[0] <= Join(path, "/");
  }

  predicate SegmentMatches(pattern: string, value: string)
  {
    pattern == "*" || pattern == value
  }

  predicate PathMatches(pattern: seq<string>, path: seq<string>)
  {
    if pattern == [] then path == []
    else if pattern[0] == "**" then |pattern| == 1
    else path != [] && SegmentMatches(pattern[0], path[0]) && PathMatches(pattern[1..], path[1..])
  }

  predicate Matches(p: UrnPattern, urn: ResourceUrn)
  {
    && SegmentMatches(p.partition, urn.partition)
    && SegmentMatches(p.service, urn.service)
    && SegmentMatches(p.region, urn.region)
    && SegmentMatches(p.tenant, urn.tenant)
    && PathMatches(p.path, urn.path)
  }

  /** The matching loop of the policy engine, with its two indices. */
  method MatchPath(pattern: seq<string>, path: seq<string>) returns (matched: bool)
    ensures matched == PathMatches(pattern, path)
  {
    var pidx, uidx := 0, 0;
    while pidx < |pattern|
      invariant 0 <= pidx <= |pattern| && 0 <= uidx <= |path|
      invariant PathMatches(pattern, path) == PathMatches(pattern[pidx..], path[uidx..])
    {
      if pattern[pidx] == "**" {
        return pidx + 1 == |pattern|;
      }
      if uidx >= |path| {
        return false;
      }
      if pattern[pidx] != "*" && path[uidx] != pattern[pidx] {
        return false;
      }
      assert pattern[pidx..][1..] == pattern[pidx + 1..];
      assert path[uidx..][1..] == path[uidx + 1..];
      pidx, uidx := pidx + 1, uidx + 1;
    }
    return uidx == |path|;
  }

  /** The number of leading pattern segments that must be present one by one. */
  function FixedLength(pattern: seq<string>): nat
  {
    if pattern != [] && pattern[|pattern| - 1] == "**" then |pattern| - 1 else |pattern|
  }

  /** Reading of the wildcards without recursion: `**` covers every extension of its prefix, otherwise the lengths agree. */
  ghost predicate Covers(pattern: seq<string>, path: seq<string>)
  {
    var k := FixedLength(pattern);
    && (if k < |pattern| then k <= |path| else k == |path|)
    && forall i :: 0 <= i < k ==> SegmentMatches(pattern[i], path[i])
  }

  lemma CoversStep(pattern: seq<string>, path: seq<string>)
    requires pattern != [] && path != [] && FixedLength(pattern) > 0
    ensures Covers(pattern, path) <==> SegmentMatches(pattern[0], path[0]) && Covers(pattern[1..], path[1..])
  {
    var p, u := pattern[1..], path[1..];
    assert FixedLength(p) == FixedLength(pattern) - 1;
    if Covers(pattern, path) {
      forall i | 0 <= i < FixedLength(p) ensures SegmentMatches(p[i], u[i]) {
        assert p[i] == pattern[i + 1] && u[i] == path[i + 1];
      }
    }
    if SegmentMatches(pattern[0], path[0]) && Covers(p, u) {
      forall i | 0 <= i < FixedLength(pattern) ensures SegmentMatches(pattern[i], path[i]) {
        if i > 0 {
          assert p[i - 1] == pattern[i] && u[i - 1] == path[i];
        }
      }
    }
  }

  lemma {:induction false} PathMatchesCovers(pattern: seq<string>, path: seq<string>)
    requires forall i :: 0 <= i < |pattern| - 1 ==> pattern[i] != "**"
    ensures PathMatches(pattern, path) <==> Covers(pattern, path)
  {
    if pattern != [] && pattern[0] != "**" && path != [] {
      CoversStep(pattern, path);
      PathMatchesCovers(pattern[1..], path[1..]);
    }
  }

  /** A pattern matches a resource part by part; the path position by position, `**` covering any rest. */
  lemma MatchesIff(p: UrnPattern, urn: ResourceUrn)
    requires WellFormedPath(p.path)
    ensures Matches(p, urn) <==>
      && (p.partition == "*" || p.partition == urn.partition)
      && (p.service == "*" || p.service == urn.service)
      && (p.region == "*" || p.region == urn.region)
      && (p.tenant == "*" || p.tenant == urn.tenant)
      && (var n := |p.path| - 1;
          if p.path[n] == "**" then n <= |urn.path| && forall i :: 0 <= i < n ==> p.path[i] == "*" || p.path[i] == urn.path[i]
          else n + 1 == |urn.path| && forall i :: 0 <= i <= n ==> p.path[i] == "*" || p.path[i] == urn.path[i])
  {
    forall i | 0 <= i < |p.path| - 1 ensures p.path[i] != "**" {
      assert ValidPathSegment(p.path[i], i, |p.path|);
    }
    PathMatchesCovers(p.path, urn.path);
    hide PathMatches, WellFormedPath;
    var k := FixedLength(p.path);
    assert (forall i :: 0 <= i < k && i < |urn.path| ==> SegmentMatches(p.path[i], urn.path[i]))
      <==> forall i :: 0 <= i < k && i < |urn.path| ==> p.path[i] == "*" || p.path[i] == urn.path[i];
  }
}
