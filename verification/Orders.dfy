/**
 Sorting a set of rows by a strict order: what `ORDER BY` does to the rows of a query.
 The order has to be total only on the rows sorted, so rows can be compared by a key that is
 unique in a table although it is not unique over the whole row type.
 */
module Orders {

  ghost predicate StrictOrder<K(!new)>(lt: (K, K) -> bool) {
    && (forall x :: !lt(x, x))
    && (forall x, y, z :: lt(x, y) && lt(y, z) ==> lt(x, z))
  }

  ghost predicate ConnectedOn<K>(lt: (K, K) -> bool, s: set<K>) {
    forall x, y :: x in s && y in s && x != y ==> lt(x, y) || lt(y, x)
  }

  ghost predicate Sorted<K>(lt: (K, K) -> bool, s: seq<K>) {
    forall i, j :: 0 <= i < j < |s| ==> lt(s[i], s[j])
  }

  predicate IsLeast<K>(lt: (K, K) -> bool, s: set<K>, m: K) {
    m in s && forall x :: x in s && x != m ==> lt(m, x)
  }

  lemma LeastExists<K(!new)>(lt: (K, K) -> bool, s: set<K>)
    requires StrictOrder(lt) && ConnectedOn(lt, s) && s != {}
    ensures exists m :: m in s && IsLeast(lt, s, m)
    decreases |s|
  {
    var x :| x in s;
    var rest := s - {x};
    if rest == {} {
      assert s == {x};
      assert IsLeast(lt, s, x);
    } else {
      LeastExists(lt, rest);
      var m :| m in rest && IsLeast(lt, rest, m);
      var l := if lt(x, m) then x else m;
      forall y | y in s && y != l ensures lt(l, y) {
        assert y in rest || y == x;
      }
      assert l in s && IsLeast(lt, s, l);
    }
  }

  lemma LeastIsUnique<K(!new)>(lt: (K, K) -> bool, s: set<K>, a: K, b: K)
    requires StrictOrder(lt) && IsLeast(lt, s, a) && IsLeast(lt, s, b)
    ensures a == b
  {
    assert a != b ==> lt(a, b);
    assert a != b ==> lt(b, a);
  }

  function Least<K(!new)>(lt: (K, K) -> bool, s: set<K>): (m: K)
    requires StrictOrder(lt) && ConnectedOn(lt, s) && s != {}
    ensures IsLeast(lt, s, m)
  {
    LeastExists(lt, s);
    assert forall a, b :: a in s && b in s && IsLeast(lt, s, a) && IsLeast(lt, s, b) ==> a == b by {
      forall a, b | a in s && b in s && IsLeast(lt, s, a) && IsLeast(lt, s, b) ensures a == b {
        LeastIsUnique(lt, s, a, b);
      }
    }
    var m :| m in s && IsLeast(lt, s, m);
    m
  }

  /** The rows of `s` in ascending `lt` order. */
  function SortSet<K(!new)>(lt: (K, K) -> bool, s: set<K>): (r: seq<K>)
    requires StrictOrder(lt) && ConnectedOn(lt, s)
    ensures |r| == |s|
    decreases |s|
  {
    if s == {} then [] else
      var m := Least(lt, s);
      [m] + SortSet(lt, s - {m})
  }

  lemma {:induction false} SortSetSorts<K(!new)>(lt: (K, K) -> bool, s: set<K>)
    requires StrictOrder(lt) && ConnectedOn(lt, s)
    ensures Sorted(lt, SortSet(lt, s))
    ensures forall x :: x in SortSet(lt, s) <==> x in s
    decreases |s|
  {
    if s != {} {
      var m := Least(lt, s);
      var rest := SortSet(lt, s - {m});
      SortSetSorts(lt, s - {m});
      assert SortSet(lt, s) == [m] + rest;
      SortedCons(lt, m, rest);
    }
  }

  lemma SortedCons<K(!new)>(lt: (K, K) -> bool, m: K, rest: seq<K>)
    requires Sorted(lt, rest) && forall x :: x in rest ==> lt(m, x)
    ensures Sorted(lt, [m] + rest)
  {
    var all := [m] + rest;
    forall i, j | 0 <= i < j < |all| ensures lt(all[i], all[j]) {
      assert all[j] == rest[j - 1] && rest[j - 1] in rest;
      if i > 0 {
        assert all[i] == rest[i - 1];
      }
    }
  }

  /** There is only one way to sort a collection of rows. */
  lemma {:induction false} SortedIsUnique<K(!new)>(lt: (K, K) -> bool, a: seq<K>, b: seq<K>)
    requires StrictOrder(lt) && Sorted(lt, a) && Sorted(lt, b)
    requires forall x :: x in a <==> x in b
    ensures a == b
  {
    if a == [] {
      assert forall i :: 0 <= i < |b| ==> b[i] in a;
    } else {
      assert a[0] in b && b != [];
      assert b[0] in a;
      assert a[0] == b[0];
      forall x ensures x in a[1..] <==> x in b[1..] {
        if x in a[1..] { assert x in b && x != b[0]; }
        if x in b[1..] { assert x in a && x != a[0]; }
      }
      SortedIsUnique(lt, a[1..], b[1..]);
    }
  }

  lemma SortSetIs<K(!new)>(lt: (K, K) -> bool, s: set<K>, r: seq<K>)
    requires StrictOrder(lt) && ConnectedOn(lt, s) && Sorted(lt, r)
    requires forall x :: x in r <==> x in s
    ensures SortSet(lt, s) == r
  {
    SortSetSorts(lt, s);
    SortedIsUnique(lt, SortSet(lt, s), r);
  }

  lemma LowerBoundExists(s: set<int>)
    requires s != {}
    ensures exists m :: m in s && forall x :: x in s ==> m <= x
  {
    LeastExists((a, b) => a < b, s);
    var m :| m in s && IsLeast((a, b) => a < b, s, m);
    assert forall x :: x in s ==> m <= x;
  }

  lemma UpperBoundExists(s: set<int>)
    requires s != {}
    ensures exists m :: m in s && forall x :: x in s ==> x <= m
  {
    LeastExists((a, b) => a > b, s);
    var m :| m in s && IsLeast((a, b) => a > b, s, m);
    assert forall x :: x in s ==> x <= m;
  }

  function Smallest(s: set<int>): (m: int)
    requires s != {}
    ensures m in s && forall x :: x in s ==> m <= x
  {
    LowerBoundExists(s);
    var m :| m in s && forall x :: x in s ==> m <= x;
    m
  }

  function Largest(s: set<int>): (m: int)
    requires s != {}
    ensures m in s && forall x :: x in s ==> x <= m
  {
    UpperBoundExists(s);
    var m :| m in s && forall x :: x in s ==> x <= m;
    m
  }
}
