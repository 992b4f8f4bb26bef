/**
 * Cyclic stepping of an index over a collection of `n` items, as the hero
 * carousel and the portfolio lightbox both do it: the successor is
 * `(i + 1) % n` and the predecessor `(i - 1 + n) % n`, where `%` is the
 * JavaScript remainder operator.
 */
module Cyclic {

  function Abs(x: int): nat {
    if x < 0 then -x else x
  }

  /**
   * JavaScript's `%`: the remainder of a division truncated toward zero, so
   * the result takes the sign of the dividend. Dafny's own `%` is Euclidean
   * and differs from this for negative dividends.
   */
  function JsRem(a: int, b: int): (r: int)
    requires b != 0
    ensures a >= 0 ==> 0 <= r < Abs(b)
    ensures a < 0 ==> 0 < r + Abs(b) && r <= 0
    ensures a >= 0 && b > 0 ==> r == a % b
    ensures (a - r) % Abs(b) == 0
  {
    var m := Abs(a) % Abs(b);
    MultipleMod(Abs(a) / Abs(b), Abs(b));
    if a < 0 then -m else m
  }

  /** A multiple of `n`, of either sign, leaves no remainder. */
  lemma MultipleMod(q: int, n: int)
    requires n > 0
    ensures (q * n) % n == 0 && (-(q * n)) % n == 0
  {
    assert -(q * n) == (-q) * n;
    MultipleModPos(q, n);
    MultipleModPos(-q, n);
  }

  lemma MultipleModPos(q: int, n: int)
    requires n > 0
    ensures (q * n) % n == 0
  {
    var x := q * n;
    var k := q - x / n;
    assert x == n * (x / n) + x % n;
    assert n * k == x % n;
  }

  /** The two remainders part ways on a negative dividend. */
  lemma JsRemOfNegative()
    ensures JsRem(-1, 4) == -1
    ensures -1 % 4 == 3
  {
  }

  /** Below twice the modulus, the remainder subtracts the modulus at most once. */
  lemma ModSmall(x: int, n: int)
    requires 0 <= x && 0 < n
    ensures x < 2 * n ==> x % n == if x < n then x else x - n
  {
  }

  /** The successor `(i + 1) % n`. */
  function Next(i: nat, n: nat): (r: nat)
    requires n > 0
    ensures r < n
    ensures i + 1 < n ==> r == i + 1
    ensures i + 1 == n ==> r == 0
  {
    ModSmall(i + 1, n);
    JsRem(i + 1, n)
  }

  /** The predecessor `(i - 1 + n) % n`. */
  function Prev(i: nat, n: nat): (r: nat)
    requires n > 0
    ensures r < n
    ensures 0 < i <= n ==> r == i - 1
    ensures i == 0 ==> r == n - 1
  {
    ModSmall(i - 1 + n, n);
    JsRem(i - 1 + n, n)
  }

  /** `k` successive applications of `Next`, as `k` ticks of a timer or `k` clicks. */
  function NextIter(i: nat, n: nat, k: nat): nat
    requires n > 0
  {
    if k == 0 then i else Next(NextIter(i, n, k - 1), n)
  }

  /** Stepping back undoes stepping forward on an in-range index. */
  lemma PrevNext(i: nat, n: nat)
    requires i < n
    ensures Prev(Next(i, n), n) == i
  {
  }

  /** Stepping forward undoes stepping back on an in-range index. */
  lemma NextPrev(i: nat, n: nat)
    requires i < n
    ensures Next(Prev(i, n), n) == i
  {
  }

  /** Up to `n` forward steps from `i` land on `i + k`, wrapped once past `n`. */
  lemma {:induction false} NextIterWraps(i: nat, n: nat, k: nat)
    requires i < n && k <= n
    ensures NextIter(i, n, k) == if i + k < n then i + k else i + k - n
  {
    if k > 0 {
      NextIterWraps(i, n, k - 1);
    }
  }

  /** `n` forward steps return to the starting index: the period is `n`. */
  lemma NextPeriod(i: nat, n: nat)
    requires i < n
    ensures NextIter(i, n, n) == i
  {
    NextIterWraps(i, n, n);
  }

  /** Every index reachable by forward steps stays in range. */
  lemma {:induction false} NextIterInRange(i: nat, n: nat, k: nat)
    requires i < n
    ensures NextIter(i, n, k) < n
  {
    if k > 0 {
      NextIterInRange(i, n, k - 1);
    }
  }
}
