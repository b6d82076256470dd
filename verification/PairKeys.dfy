/** The text that stands for an unordered pair of users. */
module PairKeys {
  const DIGITS := "0123456789"

  function Digit(d: nat): char
    requires d < 10
  {
    DIGITS[d]
  }

  function DigitValue(c: char): int {
    c as int - '0' as int
  }

  function DecimalNat(n: nat): (s: string)
    ensures s != ""
  {
    if n < 10 then [Digit(n)] else DecimalNat(n / 10) + [Digit(n % 10)]
  }

  /** Python's `str` of an integer. */
  function Decimal(n: int): string {
    if n < 0 then "-" + DecimalNat(-n) else DecimalNat(n)
  }

  function NatValue(s: string): int {
    if s == "" then 0 else NatValue(s[..|s| - 1]) * 10 + DigitValue(s[|s| - 1])
  }

  function Value(s: string): int {
    if s != "" && s[0] == '-' then -NatValue(s[1..]) else NatValue(s)
  }

  lemma {:induction false} DecimalNatReadsBack(n: nat)
    ensures NatValue(DecimalNat(n)) == n
    ensures forall i :: 0 <= i < |DecimalNat(n)| ==> '0' <= DecimalNat(n)[i] <= '9'
  {
    if n < 10 {
      assert [Digit(n)][..0] == "";
    } else {
      DecimalNatReadsBack(n / 10);
      assert DecimalNat(n)[..|DecimalNat(n)| - 1] == DecimalNat(n / 10);
    }
  }

  lemma DecimalReadsBack(n: int)
    ensures Value(Decimal(n)) == n
    ensures ':' !in Decimal(n)
  {
    DecimalNatReadsBack(if n < 0 then -n else n);
  }

  /** `sorted((user_a, user_b))`. */
  function PrivateChatPair(a: int, b: int): (int, int) {
    if b < a then (b, a) else (a, b)
  }

  function PrivatePairKey(a: int, b: int): string {
    var pair := PrivateChatPair(a, b);
    Decimal(pair.0) + ":" + Decimal(pair.1)
  }

  lemma SplitAtColon(a: string, b: string, c: string, d: string)
    requires ':' !in a && ':' !in c
    requires a + ":" + b == c + ":" + d
    ensures a == c && b == d
  {
    var left, right := a + ":" + b, c + ":" + d;
    assert left[|a|] == ':' && right[|c|] == ':';
    assert forall i :: 0 <= i < |a| ==> left[i] == a[i] && a[i] in a;
    assert forall i :: 0 <= i < |c| ==> right[i] == c[i] && c[i] in c;
    assert |a| == |c|;
    assert left[..|a|] == a && right[..|c|] == c;
    assert left[|a| + 1..] == b && right[|c| + 1..] == d;
  }

  /** The key tells pairs apart and does not depend on the order within a pair. */
  lemma KeyIdentifiesPair(a: int, b: int, c: int, d: int)
    ensures PrivatePairKey(a, b) == PrivatePairKey(c, d) <==> {a, b} == {c, d}
  {
    var p, q := PrivateChatPair(a, b), PrivateChatPair(c, d);
    if PrivatePairKey(a, b) == PrivatePairKey(c, d) {
      DecimalReadsBack(p.0);
      DecimalReadsBack(q.0);
      DecimalReadsBack(p.1);
      DecimalReadsBack(q.1);
      SplitAtColon(Decimal(p.0), Decimal(p.1), Decimal(q.0), Decimal(q.1));
      assert p == q;
    }
    if {a, b} == {c, d} {
      assert a in {c, d} && b in {c, d} && c in {a, b} && d in {a, b};
    }
  }

  /** The advisory lock of a pair; the digest is a parameter and may map two pairs to one key. */
  function PrivateChatLockKey(digest: string -> int, a: int, b: int): int {
    digest("private-chat:" + PrivatePairKey(a, b))
  }

  /** The key is the two ids in decimal, the smaller first, with a colon between. */
  lemma KeyIs(low: int, high: int)
    requires low <= high
    ensures PrivatePairKey(low, high) == Decimal(low) + ":" + Decimal(high) == PrivatePairKey(high, low)
  {
    KeyIdentifiesPair(low, high, high, low);
  }
}
