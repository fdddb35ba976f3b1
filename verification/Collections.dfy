/** Orders, least elements, sizes of sets, and the multiset of a sequence without one element. */
module Collections {

  type Less<!K> = (K, K) -> bool

  ghost predicate StrictOrder<K(!new)>(less: Less<K>)
  {
    && (forall a :: !less(a, a))
    && (forall a, b, c :: less(a, b) && less(b, c) ==> less(a, c))
    && (forall a, b :: a != b ==> less(a, b) || less(b, a))
  }

  lemma {:induction false} LeastOf<K(!new)>(less: Less<K>, s: set<K>) returns (least: K)
    requires StrictOrder(less) && s != {}
    ensures least in s && forall o :: o in s && o != least ==> less(least, o)
    decreases |s|
  {
    var x :| x in s;
    if s == {x} {
      least := x;
    } else {
      var y := LeastOf(less, s - {x});
      assert less(x, y) || less(y, x);
      least := if less(x, y) then x else y;
      forall o | o in s && o != least ensures less(least, o) {
        assert o == x || o == y || (o in s - {x} && less(y, o));
      }
    }
  }

  ghost predicate Ascending<K>(less: Less<K>, ks: seq<K>)
  {
    forall i, j :: 0 <= i < j < |ks| ==> less(ks[i], ks[j])
  }

  lemma NonemptyHas<K>(s: seq<K>)
    ensures s == [] || exists k :: k in s
  {
    assert s == [] || s[0] in s;
  }

  /** A set has one ascending listing. */
  lemma {:induction false} AscendingUnique<K(!new)>(less: Less<K>, a: seq<K>, b: seq<K>)
    requires StrictOrder(less) && Ascending(less, a) && Ascending(less, b)
    requires forall k :: k in a <==> k in b
    ensures a == b
    decreases |a|
  {
    NonemptyHas(b);
    if a != [] {
      assert a[0] in b && b[0] in a;
      assert a[0] == b[0];
      forall k ensures k in a[1..] <==> k in b[1..] {
        if k in a[1..] { assert k in a && less(a[0], k); }
        if k in b[1..] { assert k in b && less(b[0], k); }
      }
      AscendingUnique(less, a[1..], b[1..]);
      assert a == [a[0]] + a[1..] && b == [b[0]] + b[1..];
    }
  }

  lemma {:induction false} SubsetSize<T>(a: set<T>, b: set<T>)
    requires a <= b
    ensures |a| <= |b|
  {
    if a != {} {
      var x :| x in a;
      SubsetSize(a - {x}, b - {x});
    }
  }

  lemma WithoutOne<T>(s: seq<T>, n: nat)
    requires n < |s|
    ensures s == s[..n] + [s[n]] + s[n + 1..]
    ensures multiset(s[..n] + s[n + 1..]) == multiset(s) - multiset{s[n]}
  {
    assert s == s[..n] + [s[n]] + s[n + 1..];
  }
}
