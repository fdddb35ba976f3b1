/**
 Environment overrides on the configuration tree.  A path of keys and indices selects a place; keys
 are matched by their letters and digits only, whatever their case.  Setting a path creates missing
 containers, pads sequences with nulls, and replaces whatever stands where another shape is needed.
 */
module ConfigTree {
  import opened Collections
  import opened Strings

  datatype YamlKey = Name(text: string) | OtherKey(repr: string)

  datatype Yaml =
    | Null
    | Scalar(text: string)
    | Sequence(items: seq<Yaml>)
    | Mapping(entries: seq<(YamlKey, Yaml)>)

  datatype Segment = Key(name: string) | Index(index: nat)

  type Path = seq<Segment>

  // ----- Relaxed names -----

  predicate IsAsciiAlphanumeric(c: char)
  {
    'a' <= c <= 'z' || 'A' <= c <= 'Z' || '0' <= c <= '9'
  }

  /** Letters and digits only, in lower case. */
  function Normalized(s: string): string
  {
    if s == "" then ""
    else (if IsAsciiAlphanumeric(s[0]) then [LowerChar(s[0])] else "") + Normalized(s[1..])
  }

  lemma {:induction false} NormalizedLower(s: string)
    ensures Normalized(Lower(s)) == Normalized(s)
  {
    if s != "" {
      NormalizedLower(s[1..]);
      assert Lower(s)[1..] == Lower(s[1..]);
    }
  }

  predicate Answers(key: YamlKey, normalized: string)
  {
    key.Name? && Normalized(key.text) == normalized
  }

  /** Position of the first key that answers to the name; the length when there is none. */
  function Position(entries: seq<(YamlKey, Yaml)>, normalized: string): (n: nat)
    ensures n <= |entries|
    ensures n < |entries| ==> Answers(entries[n].0, normalized)
    ensures forall i :: 0 <= i < n ==> !Answers(entries[i].0, normalized)
  {
    if entries == [] then 0
    else if Answers(entries[0].0, normalized) then 0
    else
      var n := 1 + Position(entries[1..], normalized);
      assert forall i :: 1 <= i < n ==> entries[i] == entries[1..][i - 1];
      n
  }

  // ----- Setting and looking -----

  function Entries(v: Yaml): seq<(YamlKey, Yaml)> { if v.Mapping? then v.entries else [] }

  function Items(v: Yaml): seq<Yaml> { if v.Sequence? then v.items else [] }

  function Padded(items: seq<Yaml>, index: nat): (r: seq<Yaml>)
    ensures |r| == if |items| <= index then index + 1 else |items|
    ensures forall i :: 0 <= i < |r| ==> r[i] == if i < |items| then items[i] else Null
  {
    items + seq(if |items| <= index then index + 1 - |items| else 0, _ => Null)
  }

  /** The value of the first entry that answers to the name; null when there is none. */
  function Lookup(entries: seq<(YamlKey, Yaml)>, normalized: string): Yaml
  {
    var n := Position(entries, normalized);
    if n < |entries| then entries[n].1 else Null
  }

  /** Replaces the value of the first entry that answers to the name, or appends an entry under its lower-case form. */
  function Insert(entries: seq<(YamlKey, Yaml)>, name: string, child: Yaml): seq<(YamlKey, Yaml)>
  {
    var n := Position(entries, Normalized(name));
    if n < |entries| then entries[n := (entries[n].0, child)] else entries + [(Name(Lower(name)), child)]
  }

  function SetPath(v: Yaml, path: Path, value: Yaml): Yaml
    decreases |path|
  {
    if path == [] then value
    else match path[0]
      case Index(i) =>
        var items := Padded(Items(v), i);
        Sequence(items[i := SetPath(items[i], path[1..], value)])
      case Key(name) =>
        Mapping(Insert(Entries(v), name, SetPath(Lookup(Entries(v), Normalized(name)), path[1..], value)))
  }

  /** The child a segment selects; null when there is none. */
  function Child(v: Yaml, s: Segment): Yaml
  {
    match s
    case Index(i) => if i < |Items(v)| then Items(v)[i] else Null
    case Key(name) => Lookup(Entries(v), Normalized(name))
  }

  /** What relaxed lookup finds at a path; null when there is nothing. */
  function Look(v: Yaml, path: Path): Yaml
    decreases |path|
  {
    if path == [] then v else Look(Child(v, path[0]), path[1..])
  }

  /** The two segments select the same child. */
  predicate Same(a: Segment, b: Segment)
  {
    match (a, b)
    case (Key(x), Key(y)) => Normalized(x) == Normalized(y)
    case (Index(i), Index(j)) => i == j
    case (_, _) => false
  }

  predicate SameKind(a: Segment, b: Segment) { a.Key? <==> b.Key? }

  /** Paths that part at some segment, where both still ask for the same kind of container. */
  predicate Divergent(p: Path, q: Path)
  {
    p != [] && q != [] && if Same(p[0], q[0]) then Divergent(p[1..], q[1..]) else SameKind(p[0], q[0])
  }

  /** Paths that part where one asks for a mapping and the other for a sequence. */
  predicate Clashing(p: Path, q: Path)
  {
    p != [] && q != [] && if Same(p[0], q[0]) then Clashing(p[1..], q[1..]) else !SameKind(p[0], q[0])
  }

  // ----- One level -----

  lemma PositionUnique(a: seq<(YamlKey, Yaml)>, b: seq<(YamlKey, Yaml)>, normalized: string)
    requires |a| <= |b| && forall i :: 0 <= i < |a| ==> a[i].0 == b[i].0
    ensures Position(a, normalized) < |a| ==> Position(b, normalized) == Position(a, normalized)
    ensures Position(a, normalized) == |a| ==> Position(b, normalized) >= |a|
  {
    hide Position, Answers;
    var m, n := Position(a, normalized), Position(b, normalized);
    assert m < |a| ==> Answers(b[m].0, normalized);
    assert n < |a| ==> Answers(a[n].0, normalized);
  }

  lemma InsertKeys(entries: seq<(YamlKey, Yaml)>, name: string, child: Yaml)
    ensures var es := Insert(entries, name, child);
      && |es| >= |entries| && (forall i :: 0 <= i < |entries| ==> es[i].0 == entries[i].0)
      && Position(es, Normalized(name)) == Position(entries, Normalized(name)) < |es|
      && Lookup(es, Normalized(name)) == child
  {
    var es, n := Insert(entries, name, child), Position(entries, Normalized(name));
    NormalizedLower(name);
    hide Position;
    PositionUnique(entries, es, Normalized(name));
    assert Answers(es[n].0, Normalized(name));
  }

  lemma LookupInsert(entries: seq<(YamlKey, Yaml)>, name: string, child: Yaml, other: string)
    ensures Lookup(Insert(entries, name, child), other) == if other == Normalized(name) then child else Lookup(entries, other)
  {
    InsertKeys(entries, name, child);
    if other != Normalized(name) {
      var es, n := Insert(entries, name, child), Position(entries, Normalized(name));
      NormalizedLower(name);
      hide Position;
      PositionUnique(entries, es, other);
      assert Answers(es[n].0, Normalized(name));
      assert Position(es, other) != n;
    }
  }

  lemma InsertInsert(entries: seq<(YamlKey, Yaml)>, name: string, a: Yaml, b: Yaml)
    ensures Insert(Insert(entries, name, a), name, b) == Insert(entries, name, b)
  {
    InsertKeys(entries, name, a);
    hide Position;
  }

  lemma ChildOfSetIndex(v: Yaml, i: nat, rest: Path, x: Yaml, j: nat)
    ensures var v' := SetPath(v, [Index(i)] + rest, x);
      Child(v', Index(j)) == if i == j then SetPath(Child(v, Index(i)), rest, x) else Child(v, Index(j))
  {
    assert ([Index(i)] + rest)[1..] == rest;
  }

  /** What setting does one level down: the selected child is set, the others stay, the other kind is gone. */
  lemma ChildOfSet(v: Yaml, p: Path, x: Yaml, s: Segment)
    requires p != []
    ensures Child(SetPath(v, p, x), s) ==
      if Same(p[0], s) then SetPath(Child(v, p[0]), p[1..], x)
      else if SameKind(p[0], s) then Child(v, s)
      else Null
  {
    assert p == [p[0]] + p[1..];
    match p[0]
    case Key(name) =>
      if s.Key? {
        LookupInsert(Entries(v), name, SetPath(Child(v, p[0]), p[1..], x), Normalized(s.name));
      }
    case Index(i) => if s.Index? { ChildOfSetIndex(v, i, p[1..], x, s.index); }
  }

  lemma ChildOfSame(v: Yaml, a: Segment, b: Segment)
    requires Same(a, b)
    ensures Child(v, a) == Child(v, b)
  {
  }

  // ----- The lens laws -----

  /** Looking where one has just set gives the value. */
  lemma {:induction false} GetSet(v: Yaml, p: Path, x: Yaml)
    ensures Look(SetPath(v, p, x), p) == x
    decreases |p|
  {
    if p != [] {
      ChildOfSet(v, p, x, p[0]);
      GetSet(Child(v, p[0]), p[1..], x);
    }
  }

  /** The second of two settings of one path is the one that counts. */
  lemma {:induction false} SetSet(v: Yaml, p: Path, x: Yaml, y: Yaml)
    ensures SetPath(SetPath(v, p, x), p, y) == SetPath(v, p, y)
    decreases |p|
  {
    hide Insert, Lookup;
    if p != [] {
      var w := SetPath(v, p, x);
      match p[0]
      case Index(i) =>
        var items := Padded(Items(v), i);
        SetSet(items[i], p[1..], x, y);
        assert Padded(Items(w), i) == w.items;
        assert w.items[i := SetPath(w.items[i], p[1..], y)] == items[i := SetPath(items[i], p[1..], y)];
      case Key(name) =>
        var child := Child(v, p[0]);
        SetSet(child, p[1..], x, y);
        LookupInsert(Entries(v), name, SetPath(child, p[1..], x), Normalized(name));
        InsertInsert(Entries(v), name, SetPath(child, p[1..], x), SetPath(child, p[1..], y));
    }
  }

  /** A divergent path is not disturbed, whatever stands in the tree. */
  lemma {:induction false} DivergentUndisturbed(v: Yaml, p: Path, x: Yaml, q: Path)
    requires Divergent(p, q)
    ensures Look(SetPath(v, p, x), q) == Look(v, q)
    decreases |p|
  {
    ChildOfSet(v, p, x, q[0]);
    if Same(p[0], q[0]) {
      ChildOfSame(v, p[0], q[0]);
      DivergentUndisturbed(Child(v, p[0]), p[1..], x, q[1..]);
    }
  }

  /** Where the shapes clash the other path is erased, so it is undisturbed exactly when it held nothing. */
  lemma {:induction false} ClashingErased(v: Yaml, p: Path, x: Yaml, q: Path)
    requires Clashing(p, q)
    ensures Look(SetPath(v, p, x), q) == Null
    ensures Look(SetPath(v, p, x), q) == Look(v, q) <==> Look(v, q) == Null
    decreases |p|
  {
    ChildOfSet(v, p, x, q[0]);
    if Same(p[0], q[0]) {
      ChildOfSame(v, p[0], q[0]);
      ClashingErased(Child(v, p[0]), p[1..], x, q[1..]);
    } else {
      LookNull(q[1..]);
    }
  }

  lemma {:induction false} LookNull(q: Path)
    ensures Look(Null, q) == Null
  {
    if q != [] {
      LookNull(q[1..]);
    }
  }

  // ----- Observation -----

  /** What one place shows, apart from what lies below it. */
  datatype Shape = NullShape | ScalarShape(text: string) | SequenceShape(length: nat) | MappingShape

  function ShapeOf(v: Yaml): Shape
  {
    match v
    case Null => NullShape
    case Scalar(t) => ScalarShape(t)
    case Sequence(items) => SequenceShape(|items|)
    case Mapping(_) => MappingShape
  }

  /** No relaxed lookup tells the two trees apart. */
  ghost predicate Indistinct(v: Yaml, w: Yaml)
  {
    forall r: Path :: ShapeOf(Look(v, r)) == ShapeOf(Look(w, r))
  }

  lemma IndistinctChild(v: Yaml, w: Yaml, s: Segment)
    requires Indistinct(v, w)
    ensures Indistinct(Child(v, s), Child(w, s))
  {
    forall r: Path ensures ShapeOf(Look(Child(v, s), r)) == ShapeOf(Look(Child(w, s), r)) {
      var q := [s] + r;
      assert q[1..] == r;
      assert ShapeOf(Look(v, q)) == ShapeOf(Look(w, q));
    }
  }

  lemma ShapeOfSet(v: Yaml, p: Path, x: Yaml)
    requires p != []
    ensures ShapeOf(SetPath(v, p, x)) ==
      match p[0]
      case Key(_) => MappingShape
      case Index(i) => SequenceShape(if |Items(v)| <= i then i + 1 else |Items(v)|)
  {
  }

  lemma {:induction false} SetRespectsAt(v: Yaml, w: Yaml, p: Path, x: Yaml, r: Path)
    requires Indistinct(v, w)
    ensures ShapeOf(Look(SetPath(v, p, x), r)) == ShapeOf(Look(SetPath(w, p, x), r))
    decreases |p|
  {
    if p != [] {
      if r == [] {
        ShapeOfSet(v, p, x);
        ShapeOfSet(w, p, x);
        assert ShapeOf(Look(v, [])) == ShapeOf(Look(w, []));
      } else {
        ChildOfSet(v, p, x, r[0]);
        ChildOfSet(w, p, x, r[0]);
        IndistinctChild(v, w, p[0]);
        IndistinctChild(v, w, r[0]);
        if Same(p[0], r[0]) {
          SetRespectsAt(Child(v, p[0]), Child(w, p[0]), p[1..], x, r[1..]);
        }
      }
    }
  }

  /** Setting the same path in indistinct trees gives indistinct trees. */
  lemma SetRespects(v: Yaml, w: Yaml, p: Path, x: Yaml)
    requires Indistinct(v, w)
    ensures Indistinct(SetPath(v, p, x), SetPath(w, p, x))
  {
    forall r: Path ensures ShapeOf(Look(SetPath(v, p, x), r)) == ShapeOf(Look(SetPath(w, p, x), r)) {
      SetRespectsAt(v, w, p, x, r);
    }
  }

  // ----- Order does not matter -----

  lemma SameIsEquivalence(a: Segment, b: Segment, c: Segment)
    ensures Same(a, a) && (Same(a, b) ==> Same(b, a)) && (Same(a, b) && Same(b, c) ==> Same(a, c))
    ensures Same(a, b) ==> SameKind(a, b)
  {
  }

  /** One level below two settings in either order: the same child, or the same question about the shared child. */
  lemma CommuteChild(v: Yaml, p: Path, x: Yaml, q: Path, y: Yaml, s: Segment)
    requires p != [] && q != [] && SameKind(p[0], q[0])
    ensures var a, b := Child(SetPath(SetPath(v, p, x), q, y), s), Child(SetPath(SetPath(v, q, y), p, x), s);
      if Same(p[0], q[0]) && Same(p[0], s) then
        var c := Child(v, p[0]);
        a == SetPath(SetPath(c, p[1..], x), q[1..], y) && b == SetPath(SetPath(c, q[1..], y), p[1..], x)
      else a == b
  {
    hide SetPath, Child, Same;
    SameIsEquivalence(p[0], q[0], s);
    SameIsEquivalence(q[0], p[0], s);
    SameIsEquivalence(p[0], s, q[0]);
    SameIsEquivalence(q[0], s, p[0]);
    ChildOfSet(SetPath(v, p, x), q, y, s);
    ChildOfSet(SetPath(v, q, y), p, x, s);
    ChildOfSet(v, p, x, s);
    ChildOfSet(v, q, y, s);
    ChildOfSet(v, p, x, q[0]);
    ChildOfSet(v, q, y, p[0]);
    if Same(p[0], q[0]) {
      ChildOfSame(v, p[0], q[0]);
    }
  }

  lemma CommuteTop(v: Yaml, p: Path, x: Yaml, q: Path, y: Yaml)
    requires p != [] && q != [] && SameKind(p[0], q[0])
    ensures ShapeOf(SetPath(SetPath(v, p, x), q, y)) == ShapeOf(SetPath(SetPath(v, q, y), p, x))
  {
    ShapeOfSet(SetPath(v, p, x), q, y);
    ShapeOfSet(SetPath(v, q, y), p, x);
    ShapeOfSet(v, p, x);
    ShapeOfSet(v, q, y);
  }

  lemma {:induction false} CommuteAt(v: Yaml, p: Path, x: Yaml, q: Path, y: Yaml, r: Path)
    requires Divergent(p, q)
    ensures ShapeOf(Look(SetPath(SetPath(v, p, x), q, y), r)) == ShapeOf(Look(SetPath(SetPath(v, q, y), p, x), r))
    decreases |p|
  {
    hide SetPath, Child, Same;
    SameIsEquivalence(p[0], q[0], p[0]);
    if r == [] {
      CommuteTop(v, p, x, q, y);
    } else {
      CommuteChild(v, p, x, q, y, r[0]);
      if Same(p[0], q[0]) && Same(p[0], r[0]) {
        CommuteAt(Child(v, p[0]), p[1..], x, q[1..], y, r[1..]);
      }
    }
  }

  /** Two divergent overrides may be applied in either order. */
  lemma Commute(v: Yaml, p: Path, x: Yaml, q: Path, y: Yaml)
    requires Divergent(p, q)
    ensures Indistinct(SetPath(SetPath(v, p, x), q, y), SetPath(SetPath(v, q, y), p, x))
  {
    forall r: Path
      ensures ShapeOf(Look(SetPath(SetPath(v, p, x), q, y), r)) == ShapeOf(Look(SetPath(SetPath(v, q, y), p, x), r))
    {
      CommuteAt(v, p, x, q, y, r);
    }
  }

  /**
   When two overrides commute: paths that part where both ask for the same kind of container, or one
   path inside the other where the outer value already shows what the inner override sets.
   */
  ghost predicate Compatible(p: Path, x: Yaml, q: Path, y: Yaml)
    decreases |p|
  {
    if p == [] then Indistinct(SetPath(x, q, y), x)
    else if q == [] then Indistinct(SetPath(y, p, x), y)
    else if Same(p[0], q[0]) then Compatible(p[1..], x, q[1..], y)
    else SameKind(p[0], q[0])
  }

  /** `q` goes on where `p` ends. */
  predicate Extends(p: Path, q: Path)
  {
    |p| <= |q| && forall i :: 0 <= i < |p| ==> Same(p[i], q[i])
  }

  lemma {:induction false} CompatibleMeans(p: Path, x: Yaml, q: Path, y: Yaml)
    ensures Compatible(p, x, q, y) <==>
      || Divergent(p, q)
      || (Extends(p, q) && Indistinct(SetPath(x, q[|p|..], y), x))
      || (Extends(q, p) && Indistinct(SetPath(y, p[|q|..], x), y))
    decreases |p|
  {
    hide Indistinct, Same;
    if p == [] {
      assert q[0..] == q;
      if q == [] { BothEnd(x, y); }
    } else if q == [] {
      assert p[0..] == p;
    } else if Same(p[0], q[0]) {
      CompatibleMeans(p[1..], x, q[1..], y);
      ExtendsTail(p, q);
      ExtendsTail(q, p);
      SameIsEquivalence(p[0], q[0], p[0]);
      assert |p| <= |q| ==> q[1..][|p[1..]|..] == q[|p|..];
      assert |q| <= |p| ==> p[1..][|q[1..]|..] == p[|q|..];
    } else {
      SameIsEquivalence(q[0], p[0], q[0]);
    }
  }

  lemma BothEnd(x: Yaml, y: Yaml)
    ensures Indistinct(SetPath(x, [], y), x) <==> Indistinct(SetPath(y, [], x), y)
  {
  }

  lemma ExtendsTail(p: Path, q: Path)
    requires p != [] && q != []
    ensures Extends(p, q) <==> Same(p[0], q[0]) && Extends(p[1..], q[1..])
  {
    hide Same;
    if Same(p[0], q[0]) && Extends(p[1..], q[1..]) {
      forall i | 0 <= i < |p| ensures Same(p[i], q[i]) {
        if i > 0 { assert Same(p[1..][i - 1], q[1..][i - 1]); }
      }
    }
    if Extends(p, q) {
      forall i | 0 <= i < |p[1..]| ensures Same(p[1..][i], q[1..][i]) {
        assert Same(p[i + 1], q[i + 1]);
      }
    }
  }

  /** On any tree whatever, the order of two overrides does not show if and only if they are compatible. */
  lemma {:induction false} CommuteIff(v: Yaml, p: Path, x: Yaml, q: Path, y: Yaml)
    ensures Indistinct(SetPath(SetPath(v, p, x), q, y), SetPath(SetPath(v, q, y), p, x)) <==> Compatible(p, x, q, y)
    decreases |p|
  {
    hide Indistinct, Same, Child;
    if p == [] {
    } else if q == [] {
      SymmetricIff(y, SetPath(y, p, x));
    } else if !SameKind(p[0], q[0]) {
      SameIsEquivalence(p[0], q[0], p[0]);
      ShapeOfSet(SetPath(v, p, x), q, y);
      ShapeOfSet(SetPath(v, q, y), p, x);
      ShapesDiffer(SetPath(SetPath(v, p, x), q, y), SetPath(SetPath(v, q, y), p, x));
    } else if Same(p[0], q[0]) {
      var c := Child(v, p[0]);
      CommuteIff(c, p[1..], x, q[1..], y);
      CommuteShared(v, p, x, q, y);
    } else {
      var r: Path := [];
      DivergentHere(p, q);
      Commute(v, p, x, q, y);
    }
  }

  lemma SymmetricIff(v: Yaml, w: Yaml)
    ensures Indistinct(v, w) <==> Indistinct(w, v)
  {
  }

  lemma ShapesDiffer(v: Yaml, w: Yaml)
    requires ShapeOf(v) != ShapeOf(w)
    ensures !Indistinct(v, w)
  {
    assert ShapeOf(Look(v, [])) != ShapeOf(Look(w, []));
  }

  lemma DivergentHere(p: Path, q: Path)
    requires p != [] && q != [] && !Same(p[0], q[0]) && SameKind(p[0], q[0])
    ensures Divergent(p, q)
  {
  }

  /** Below a shared first segment the question is the same about the shared child. */
  lemma CommuteShared(v: Yaml, p: Path, x: Yaml, q: Path, y: Yaml)
    requires p != [] && q != [] && Same(p[0], q[0])
    ensures var c := Child(v, p[0]);
      Indistinct(SetPath(SetPath(v, p, x), q, y), SetPath(SetPath(v, q, y), p, x)) <==>
      Indistinct(SetPath(SetPath(c, p[1..], x), q[1..], y), SetPath(SetPath(c, q[1..], y), p[1..], x))
  {
    hide SetPath, Child, Same;
    SameIsEquivalence(p[0], q[0], p[0]);
    var c := Child(v, p[0]);
    var a, b := SetPath(SetPath(v, p, x), q, y), SetPath(SetPath(v, q, y), p, x);
    var d, e := SetPath(SetPath(c, p[1..], x), q[1..], y), SetPath(SetPath(c, q[1..], y), p[1..], x);
    if Indistinct(a, b) {
      IndistinctChild(a, b, p[0]);
      CommuteChild(v, p, x, q, y, p[0]);
    }
    if Indistinct(d, e) {
      forall r: Path ensures ShapeOf(Look(a, r)) == ShapeOf(Look(b, r)) {
        if r == [] {
          CommuteTop(v, p, x, q, y);
        } else {
          CommuteChild(v, p, x, q, y, r[0]);
          assert ShapeOf(Look(d, r[1..])) == ShapeOf(Look(e, r[1..]));
        }
      }
    }
  }

  lemma {:induction false} CompatibleSelf(p: Path, x: Yaml)
    ensures Compatible(p, x, p, x)
  {
    if p == [] {
      IndistinctRefl(x);
    } else {
      SameIsEquivalence(p[0], p[0], p[0]);
      CompatibleSelf(p[1..], x);
    }
  }

  datatype Override = Override(path: Path, value: Yaml)

  function ApplyAll(v: Yaml, os: seq<Override>): Yaml
    decreases |os|
  {
    if os == [] then v else ApplyAll(SetPath(v, os[0].path, os[0].value), os[1..])
  }

  ghost predicate Commuting(a: Override, b: Override) { Compatible(a.path, a.value, b.path, b.value) }

  /** Any two different overrides commute. */
  ghost predicate PairwiseCompatible(os: multiset<Override>)
  {
    forall a, b :: a in os && b in os && a != b ==> Commuting(a, b)
  }

  lemma {:induction false} ApplyRespects(v: Yaml, w: Yaml, os: seq<Override>)
    requires Indistinct(v, w)
    ensures Indistinct(ApplyAll(v, os), ApplyAll(w, os))
    decreases |os|
  {
    hide Indistinct;
    if os != [] {
      SetRespects(v, w, os[0].path, os[0].value);
      ApplyRespects(SetPath(v, os[0].path, os[0].value), SetPath(w, os[0].path, os[0].value), os[1..]);
    }
  }

  lemma IndistinctTrans(u: Yaml, v: Yaml, w: Yaml)
    requires Indistinct(u, v) && Indistinct(v, w)
    ensures Indistinct(u, w)
  {
    forall r: Path ensures ShapeOf(Look(u, r)) == ShapeOf(Look(w, r)) {
      assert ShapeOf(Look(u, r)) == ShapeOf(Look(v, r));
    }
  }

  /** An override may be moved to the front of the list. */
  lemma {:induction false} MoveToFront(v: Yaml, before: seq<Override>, o: Override, rest: seq<Override>)
    requires forall b :: b in before ==> Commuting(b, o)
    ensures Indistinct(ApplyAll(v, before + [o] + rest), ApplyAll(v, [o] + before + rest))
    decreases |before|
  {
    hide Indistinct, Compatible, SetPath;
    if before == [] {
      assert before + [o] + rest == [o] + before + rest;
      IndistinctRefl(ApplyAll(v, [o] + before + rest));
    } else {
      var b, tail := before[0], before[1..];
      var w := SetPath(v, b.path, b.value);
      assert (before + [o] + rest)[1..] == tail + [o] + rest;
      MoveToFront(w, tail, o, rest);
      assert ([o] + tail + rest)[1..] == tail + rest;
      assert ApplyAll(w, [o] + tail + rest) == ApplyAll(SetPath(w, o.path, o.value), tail + rest);
      var u := SetPath(v, o.path, o.value);
      assert b in before && Commuting(b, o);
      CommuteIff(v, b.path, b.value, o.path, o.value);
      ApplyRespects(SetPath(w, o.path, o.value), SetPath(u, b.path, b.value), tail + rest);
      assert ([o] + before + rest)[1..] == before + rest && (before + rest)[1..] == tail + rest;
      assert ApplyAll(v, [o] + before + rest) == ApplyAll(u, before + rest) == ApplyAll(SetPath(u, b.path, b.value), tail + rest);
      IndistinctTrans(ApplyAll(v, before + [o] + rest), ApplyAll(w, [o] + tail + rest), ApplyAll(v, [o] + before + rest));
    }
  }

  lemma IndistinctRefl(v: Yaml)
    ensures Indistinct(v, v)
  {
  }

  /** Applying the list is applying any one of its overrides first and then the others. */
  lemma BringForward(v: Yaml, ps: seq<Override>, o: Override) returns (others: seq<Override>)
    requires o in ps && PairwiseCompatible(multiset(ps))
    ensures multiset(ps) == multiset{o} + multiset(others)
    ensures Indistinct(ApplyAll(SetPath(v, o.path, o.value), others), ApplyAll(v, ps))
  {
    hide Indistinct, Commuting, SetPath, ApplyAll;
    var n :| 0 <= n < |ps| && ps[n] == o;
    var before, rest := ps[..n], ps[n + 1..];
    others := before + rest;
    WithoutOne(ps, n);
    assert multiset(ps)[o] > 0;
    assert ps == before + [o] + rest;
    forall b | b in before ensures Commuting(b, o) {
      FrontDiffers(before, o, rest, b);
    }
    MoveToFront(v, before, o, rest);
    assert [o] + before + rest == [o] + others;
    ApplyFirst(v, o, others);
    IndistinctSym(ApplyAll(v, ps), ApplyAll(v, [o] + others));
  }

  lemma ApplyFirst(v: Yaml, o: Override, others: seq<Override>)
    ensures ApplyAll(v, [o] + others) == ApplyAll(SetPath(v, o.path, o.value), others)
  {
    hide SetPath;
    assert ([o] + others)[1..] == others;
  }

  /** The configuration seen does not depend on the order in which pairwise compatible overrides arrive. */
  lemma {:induction false} OrderIrrelevant(v: Yaml, os: seq<Override>, ps: seq<Override>)
    requires multiset(os) == multiset(ps) && PairwiseCompatible(multiset(os))
    ensures Indistinct(ApplyAll(v, os), ApplyAll(v, ps))
    decreases |os|
  {
    hide Indistinct, PairwiseCompatible, SetPath;
    if os == [] {
      assert |multiset(ps)| == 0;
      IndistinctRefl(v);
    } else {
      var o, tail := os[0], os[1..];
      assert os == [o] + tail;
      assert multiset(os) == multiset{o} + multiset(tail);
      assert o in multiset(ps);
      var others := BringForward(v, ps, o);
      assert multiset(tail) == multiset(os) - multiset{o} == multiset(others);
      SubPairwise(multiset(os), multiset(tail));
      var w := SetPath(v, o.path, o.value);
      OrderIrrelevant(w, tail, others);
      IndistinctTrans(ApplyAll(w, tail), ApplyAll(w, others), ApplyAll(v, ps));
    }
  }

  lemma IndistinctSym(v: Yaml, w: Yaml)
    requires Indistinct(v, w)
    ensures Indistinct(w, v)
  {
  }

  lemma SubPairwise(a: multiset<Override>, b: multiset<Override>)
    requires PairwiseCompatible(a) && b <= a
    ensures PairwiseCompatible(b)
  {
    hide Commuting;
    forall o | o in b ensures o in a {}
  }

  lemma FrontDiffers(before: seq<Override>, o: Override, rest: seq<Override>, b: Override)
    requires PairwiseCompatible(multiset(before + [o] + rest)) && b in before
    ensures Commuting(b, o)
  {
    hide Compatible;
    var ms := multiset(before + [o] + rest);
    assert b in before + [o] + rest && (before + [o] + rest)[|before|] == o;
    assert b in ms && o in ms;
    if b == o {
      CompatibleSelf(o.path, o.value);
    }
  }
}
