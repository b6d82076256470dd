/** Small value types shared by the modules. */
module Common {

  datatype Option<+T> = None | Some(value: T) {
    function GetOr(default: T): T {
      if Some? then value else default
    }
  }

  datatype Result<+T, +E> = Ok(value: T) | Err(error: E)

  function Min(a: int, b: int): int {
    if a < b then a else b
  }

  function Max(a: int, b: int): int {
    if a > b then a else b
  }

  /** Python's `max(low, min(n, high))`. */
  function Clamp(n: int, low: int, high: int): int {
    Max(low, Min(n, high))
  }

  /** The first row of a query without `ORDER BY`. */
  method AnyOf<T>(s: set<T>) returns (x: T)
    requires s != {}
    ensures x in s
  {
    x :| x in s;
  }

  lemma AtMostOne<T>(s: set<T>, a: T, b: T)
    requires |s| <= 1 && a in s && b in s
    ensures a == b
  {
    assert |s - {a}| == 0;
  }

  predicate NoRepeats<T(==)>(s: seq<T>) {
    forall i, j :: 0 <= i < j < |s| ==> s[i] != s[j]
  }

  function ToSet<T>(s: seq<T>): set<T> {
    set x | x in s
  }

  function Reverse<T>(s: seq<T>): (r: seq<T>)
    ensures |r| == |s|
  {
    seq(|s|, i requires 0 <= i < |s| => s[|s| - 1 - i])
  }

  lemma ReverseAt<T>(s: seq<T>, i: nat)
    requires i < |s|
    ensures Reverse(s)[i] == s[|s| - 1 - i]
  {
  }

  lemma ReverseConcat<T>(a: seq<T>, b: seq<T>)
    ensures Reverse(a + b) == Reverse(b) + Reverse(a)
  {
  }

  lemma ReverseTwice<T>(s: seq<T>)
    ensures Reverse(Reverse(s)) == s
  {
  }

  /** The elements of `s` that satisfy `p`, in their order. */
  function Keep<T>(s: seq<T>, p: T -> bool): seq<T> {
    if s == [] then [] else
      var x := s[|s| - 1];
      Keep(s[..|s| - 1], p) + if p(x) then [x] else []
  }

  lemma KeepSnoc<T>(s: seq<T>, x: T, p: T -> bool)
    ensures Keep(s + [x], p) == if p(x) then Keep(s, p) + [x] else Keep(s, p)
  {
    assert (s + [x])[..|s|] == s;
    assert Keep(s, p) + [] == Keep(s, p);
  }

  lemma {:induction false} KeepIs<T>(s: seq<T>, p: T -> bool, x: T)
    ensures x in Keep(s, p) <==> x in s && p(x)
  {
    if s != [] {
      KeepIs(s[..|s| - 1], p, x);
      assert s == s[..|s| - 1] + [s[|s| - 1]];
    }
  }

  lemma DistinctSnoc<T>(s: seq<T>, x: T)
    ensures NoRepeats(s + [x]) <==> NoRepeats(s) && x !in s
  {
    var t := s + [x];
    if NoRepeats(t) {
      forall i, j | 0 <= i < j < |s| ensures s[i] != s[j] {
        assert t[i] != t[j];
      }
      forall i | 0 <= i < |s| ensures s[i] != x {
        assert t[i] != t[|s|];
      }
    }
  }

  lemma DistinctConcat<T>(a: seq<T>, b: seq<T>)
    requires NoRepeats(a) && NoRepeats(b) && forall x :: x in b ==> x !in a
    ensures NoRepeats(a + b)
  {
    var all := a + b;
    forall i, j | 0 <= i < j < |all| ensures all[i] != all[j] {
      if i < |a| <= j {
        assert a[i] in a && b[j - |a|] in b;
      }
    }
  }

  lemma {:induction false} KeepDistinct<T>(s: seq<T>, p: T -> bool)
    requires NoRepeats(s)
    ensures NoRepeats(Keep(s, p))
  {
    if s != [] {
      var init, x := s[..|s| - 1], s[|s| - 1];
      assert s == init + [x];
      DistinctSnoc(init, x);
      KeepDistinct(init, p);
      KeepIs(init, p, x);
      DistinctSnoc(Keep(init, p), x);
      KeepSnoc(init, x, p);
    }
  }

  lemma Associative<T>(a: seq<T>, b: seq<T>, c: seq<T>)
    ensures (a + b) + c == a + (b + c)
  {
  }

  lemma {:induction false} KeepConcat<T>(a: seq<T>, b: seq<T>, p: T -> bool)
    ensures Keep(a + b, p) == Keep(a, p) + Keep(b, p)
  {
    if b == [] {
      assert a + b == a;
    } else {
      var init, x := b[..|b| - 1], b[|b| - 1];
      KeepConcat(a, init, p);
      ConcatSnoc(a, init, x, p);
      assert b == init + [x];
    }
  }

  lemma ConcatSnoc<T>(a: seq<T>, b: seq<T>, x: T, p: T -> bool)
    requires Keep(a + b, p) == Keep(a, p) + Keep(b, p)
    ensures Keep(a + (b + [x]), p) == Keep(a, p) + Keep(b + [x], p)
  {
    KeepSnoc(a + b, x, p);
    KeepSnoc(b, x, p);
    Associative(a, b, [x]);
    Associative(Keep(a, p), Keep(b, p), [x]);
  }

  /** What is kept first of all `p` and then of all `q` is what satisfies both. */
  lemma {:induction false} KeepTwice<T>(s: seq<T>, p: T -> bool, q: T -> bool, both: T -> bool)
    requires forall x :: x in s ==> (both(x) <==> p(x) && q(x))
    ensures Keep(Keep(s, p), q) == Keep(s, both)
  {
    if s != [] {
      var init, x := s[..|s| - 1], s[|s| - 1];
      assert s == init + [x];
      KeepTwice(init, p, q, both);
      KeepSnoc(init, x, p);
      KeepSnoc(init, x, both);
      KeepSnoc(Keep(init, p), x, q);
      assert x in s;
    }
  }

  lemma {:induction false} KeepAll<T>(s: seq<T>, p: T -> bool)
    requires forall x :: x in s ==> p(x)
    ensures Keep(s, p) == s
  {
    if s != [] {
      KeepAll(s[..|s| - 1], p);
      assert s == s[..|s| - 1] + [s[|s| - 1]];
      assert s[|s| - 1] in s;
    }
  }

  lemma {:induction false} KeepNone<T>(s: seq<T>, p: T -> bool)
    requires forall x :: x in s ==> !p(x)
    ensures Keep(s, p) == []
  {
    if s != [] {
      KeepNone(s[..|s| - 1], p);
      assert s[|s| - 1] in s;
    }
  }

  predicate AllSpace(space: char -> bool, s: string) {
    forall i :: 0 <= i < |s| ==> space(s[i])
  }

  /** Python's `str.strip`; which characters are white space is a parameter. */
  function Strip(space: char -> bool, s: string): (r: string)
    ensures r == "" <==> AllSpace(space, s)
    ensures r != "" ==> !space(r[0]) && !space(r[|r| - 1])
  {
    if s == "" then ""
    else if space(s[0]) then Strip(space, s[1..])
    else if space(s[|s| - 1]) then Strip(space, s[..|s| - 1])
    else s
  }

  /** `r` is `s` without some white space at its two ends. */
  ghost predicate TrimOf(space: char -> bool, s: string, r: string) {
    exists i, j :: 0 <= i <= j <= |s| && CutsTo(space, s, r, i, j)
  }

  ghost predicate CutsTo(space: char -> bool, s: string, r: string, i: nat, j: nat)
    requires i <= j <= |s|
  {
    r == s[i..j] && AllSpace(space, s[..i]) && AllSpace(space, s[j..])
  }

  lemma CutLeft(space: char -> bool, s: string, r: string, i: nat, j: nat)
    requires |s| > 0 && space(s[0]) && i <= j <= |s| - 1 && CutsTo(space, s[1..], r, i, j)
    ensures CutsTo(space, s, r, i + 1, j + 1)
  {
    assert s[1..][i..j] == s[i + 1..j + 1];
    assert s[1..][j..] == s[j + 1..];
    forall k | 0 <= k < i + 1 ensures space(s[k]) {
      assert k > 0 ==> s[1..][..i][k - 1] == s[k];
    }
  }

  lemma CutRight(space: char -> bool, s: string, r: string, i: nat, j: nat)
    requires |s| > 0 && space(s[|s| - 1]) && i <= j <= |s| - 1 && CutsTo(space, s[..|s| - 1], r, i, j)
    ensures CutsTo(space, s, r, i, j)
  {
    var t := s[..|s| - 1];
    assert t[i..j] == s[i..j] && t[..i] == s[..i];
    forall k | 0 <= k < |s| - j ensures space(s[j..][k]) {
      assert k < |s| - 1 - j ==> t[j..][k] == s[j..][k];
    }
  }

  /** Nothing but white space is cut off, and only at the two ends. */
  lemma {:induction false} StripCutsOnlySpace(space: char -> bool, s: string)
    ensures TrimOf(space, s, Strip(space, s))
  {
    if |s| == 0 {
      assert CutsTo(space, s, "", 0, 0);
    } else if space(s[0]) {
      StripCutsOnlySpace(space, s[1..]);
      var i, j :| 0 <= i <= j <= |s| - 1 && CutsTo(space, s[1..], Strip(space, s), i, j);
      CutLeft(space, s, Strip(space, s), i, j);
    } else if space(s[|s| - 1]) {
      StripCutsOnlySpace(space, s[..|s| - 1]);
      var i, j :| 0 <= i <= j <= |s| - 1 && CutsTo(space, s[..|s| - 1], Strip(space, s), i, j);
      CutRight(space, s, Strip(space, s), i, j);
    } else {
      assert CutsTo(space, s, s, 0, |s|);
    }
  }
}
