/**
 * The per-style tally of the quiz and the choice of a dominant style.
 *
 * The source accumulates counts in a plain object keyed by style name and
 * reads them back with `Object.keys`, which lists non-integer string keys in
 * the order they were first inserted (section 10.1.11.1 of ECMAScript 2021,
 * OrdinaryOwnPropertyKeys). A tally is therefore a sequence of
 * `(style, count)` entries in first-occurrence order rather than a map.
 */
module Tally {

  type Tally = seq<(string, nat)>

  /** The keys of a tally, in the order `Object.keys` returns them. */
  function Keys(t: Tally): (ks: seq<string>)
    ensures |ks| == |t|
    ensures forall i :: 0 <= i < |t| ==> ks[i] == t[i].0
  {
    if |t| == 0 then [] else [t[0].0] + Keys(t[1..])
  }

  /** No style is listed twice, as in an object's own property keys. */
  predicate DistinctKeys(t: Tally) {
    forall i, j :: 0 <= i < j < |t| ==> t[i].0 != t[j].0
  }

  /** `styleCount[s] || 0`: the count stored under `s`, or 0 when `s` is absent. */
  function CountOf(t: Tally, s: string): nat {
    if |t| == 0 then 0 else if t[0].0 == s then t[0].1 else CountOf(t[1..], s)
  }

  /** A style that is not a key reads as 0, the `|| 0` of the lookup. */
  lemma {:induction false} CountOfAbsent(t: Tally, s: string)
    requires s !in Keys(t)
    ensures CountOf(t, s) == 0
  {
    if |t| > 0 {
      assert Keys(t)[0] == t[0].0;
      assert Keys(t[1..]) == Keys(t)[1..];
      CountOfAbsent(t[1..], s);
    }
  }

  /** The sum of all counts in a tally. */
  function Total(t: Tally): nat {
    if |t| == 0 then 0 else t[0].1 + Total(t[1..])
  }

  /**
   * `styleCount[s] = (styleCount[s] || 0) + 1`: an existing key keeps its
   * place and gains one, a new key is inserted last with count 1.
   */
  function Bump(t: Tally, s: string): (r: Tally)
    ensures forall x :: CountOf(r, x) == CountOf(t, x) + (if x == s then 1 else 0)
    ensures Keys(r) == if s in Keys(t) then Keys(t) else Keys(t) + [s]
    ensures Total(r) == Total(t) + 1
    ensures (forall i :: 0 <= i < |t| ==> t[i].1 > 0) ==> forall i :: 0 <= i < |r| ==> r[i].1 > 0
  {
    if |t| == 0 then [(s, 1)]
    else if t[0].0 == s then [(s, t[0].1 + 1)] + t[1..]
    else
      var rest := Bump(t[1..], s);
      assert Keys(t) == [t[0].0] + Keys(t[1..]);
      assert ([t[0]] + rest)[1..] == rest;
      [t[0]] + rest
  }

  /** The tally built by counting `xs` from left to right, as `forEach` does. */
  function TallyOf(xs: seq<string>): (t: Tally)
    ensures forall x :: CountOf(t, x) == multiset(xs)[x]
    ensures forall x :: x in Keys(t) <==> x in xs
    ensures forall i :: 0 <= i < |t| ==> t[i].1 > 0
    ensures Total(t) == |xs|
  {
    if |xs| == 0 then []
    else
      var init, last := xs[..|xs| - 1], xs[|xs| - 1];
      assert xs == init + [last];
      Bump(TallyOf(init), last)
  }

  /** Every style occurs in the tally once. */
  lemma {:induction false} TallyDistinct(xs: seq<string>)
    ensures DistinctKeys(TallyOf(xs))
  {
    if |xs| > 0 {
      var init, last := xs[..|xs| - 1], xs[|xs| - 1];
      TallyDistinct(init);
      var t := TallyOf(init);
      var r := Bump(t, last);
      var ks := Keys(r);
      forall i, j | 0 <= i < j < |r|
        ensures r[i].0 != r[j].0
      {
        assert ks[i] == r[i].0 && ks[j] == r[j].0;
        if last !in Keys(t) && j == |t| {
          assert ks[i] == t[i].0;
        } else {
          assert ks[i] == t[i].0 && ks[j] == t[j].0;
        }
      }
    }
  }

  /** The position of the first occurrence of `y` in `xs`. */
  function FirstIndex(xs: seq<string>, y: string): (r: nat)
    requires y in xs
    ensures r < |xs| && xs[r] == y
    ensures forall k :: 0 <= k < r ==> xs[k] != y
  {
    if xs[0] == y then 0 else 1 + FirstIndex(xs[1..], y)
  }

  lemma FirstIndexAppend(xs: seq<string>, x: string, y: string)
    requires y in xs + [x]
    ensures y in xs ==> FirstIndex(xs + [x], y) == FirstIndex(xs, y)
    ensures y !in xs ==> FirstIndex(xs + [x], y) == |xs|
  {
    var r := FirstIndex(xs + [x], y);
    if y in xs {
      var r0 := FirstIndex(xs, y);
      assert (xs + [x])[r0] == y;
    }
  }

  /**
   * The tally lists styles in the order of their first occurrence in `xs`,
   * which is the order `Object.keys` reports them in.
   */
  lemma {:induction false} TallyFirstOccurrenceOrder(xs: seq<string>)
    ensures forall i, j :: 0 <= i < j < |TallyOf(xs)| ==>
      FirstIndex(xs, TallyOf(xs)[i].0) < FirstIndex(xs, TallyOf(xs)[j].0)
  {
    if |xs| > 0 {
      var init, last := xs[..|xs| - 1], xs[|xs| - 1];
      assert xs == init + [last];
      TallyFirstOccurrenceOrder(init);
      var t := TallyOf(init);
      var r := TallyOf(xs);
      assert Keys(r) == Keys(Bump(t, last));
      forall i, j | 0 <= i < j < |r|
        ensures FirstIndex(xs, r[i].0) < FirstIndex(xs, r[j].0)
      {
        assert r[i].0 == Keys(r)[i] && r[j].0 == Keys(r)[j];
        assert r[i].0 == t[i].0 && r[i].0 in init;
        FirstIndexAppend(init, last, r[i].0);
        FirstIndexAppend(init, last, r[j].0);
        if j < |t| {
          assert r[j].0 == t[j].0;
        } else {
          assert r[j].0 == last && last !in init;
        }
      }
    }
  }

  /** Under distinct keys, the count stored under the i-th key is its own entry's. */
  lemma {:induction false} CountOfEntry(t: Tally, i: nat)
    requires DistinctKeys(t) && i < |t|
    ensures CountOf(t, t[i].0) == t[i].1
  {
    if i > 0 {
      assert t[0].0 != t[i].0;
      CountOfEntry(t[1..], i - 1);
    }
  }

  /**
   * `keys.reduce((a, b) => count[a] > count[b] ? a : b)` with no initial
   * value: a left fold that moves to `b` unless `a` is strictly larger.
   */
  function ReduceKeys(t: Tally, keys: seq<string>): (r: string)
    requires |keys| > 0
    ensures r in keys
    ensures forall k :: 0 <= k < |keys| ==> CountOf(t, keys[k]) <= CountOf(t, r)
    ensures exists k :: (0 <= k < |keys| && keys[k] == r &&
      forall j :: k < j < |keys| ==> CountOf(t, keys[j]) < CountOf(t, r))
  {
    if |keys| == 1 then keys[0]
    else
      var a := ReduceKeys(t, keys[..|keys| - 1]);
      var b := keys[|keys| - 1];
      if CountOf(t, a) > CountOf(t, b) then a else b
  }

  /** `s` is the key of the tally's entry with the largest count, the last such entry. */
  ghost predicate IsLastMaximum(t: Tally, s: string) {
    exists k :: 0 <= k < |t| && t[k].0 == s &&
      (forall j :: 0 <= j < |t| ==> t[j].1 <= t[k].1) &&
      (forall j :: k < j < |t| ==> t[j].1 < t[k].1)
  }

  /**
   * The dominant style: the reduce over the tally's keys in insertion order.
   * It is one of the keys, and, keys being distinct, the entry with the
   * largest count and, among the entries that share that count, the one
   * listed last.
   */
  function Dominant(t: Tally): (r: string)
    requires |t| > 0
    ensures r in Keys(t)
    ensures DistinctKeys(t) ==> IsLastMaximum(t, r)
  {
    var r := ReduceKeys(t, Keys(t));
    ReduceIsLastMaximum(t);
    r
  }

  lemma ReduceIsLastMaximum(t: Tally)
    requires |t| > 0
    ensures DistinctKeys(t) ==> IsLastMaximum(t, ReduceKeys(t, Keys(t)))
  {
    if DistinctKeys(t) {
      var k := DistinctReducePosition(t);
    }
  }

  /** The position of the reduce's key: no later entry reaches its count, no entry exceeds it. */
  lemma DistinctReducePosition(t: Tally) returns (k: nat)
    requires |t| > 0 && DistinctKeys(t)
    ensures k < |t| && ReduceKeys(t, Keys(t)) == t[k].0
    ensures forall j :: 0 <= j < |t| ==> t[j].1 <= t[k].1
    ensures forall j :: k < j < |t| ==> t[j].1 < t[k].1
  {
    var ks := Keys(t);
    k := ReducePosition(t, ks);
    EntryCounts(t);
  }

  /** The position in `keys` of the reduce's result, the last one holding the largest count. */
  lemma ReducePosition(t: Tally, keys: seq<string>) returns (k: nat)
    requires |keys| > 0
    ensures k < |keys| && keys[k] == ReduceKeys(t, keys)
    ensures forall j :: 0 <= j < |keys| ==> CountOf(t, keys[j]) <= CountOf(t, keys[k])
    ensures forall j :: k < j < |keys| ==> CountOf(t, keys[j]) < CountOf(t, keys[k])
  {
    var r := ReduceKeys(t, keys);
    k :| 0 <= k < |keys| && keys[k] == r &&
      forall j :: k < j < |keys| ==> CountOf(t, keys[j]) < CountOf(t, r);
  }

  /** Under distinct keys, the count stored under every key is its own entry's. */
  lemma EntryCounts(t: Tally)
    requires DistinctKeys(t)
    ensures forall j :: 0 <= j < |t| ==> CountOf(t, Keys(t)[j]) == t[j].1
  {
    forall j | 0 <= j < |t|
      ensures CountOf(t, Keys(t)[j]) == t[j].1
    {
      CountOfEntry(t, j);
    }
  }

  /** A style counted more often than every other one is the dominant style. */
  lemma UniqueMaximumWins(xs: seq<string>, s: string)
    requires forall x :: x != s ==> multiset(xs)[x] < multiset(xs)[s]
    ensures |TallyOf(xs)| > 0 && Dominant(TallyOf(xs)) == s
  {
    var t := TallyOf(xs);
    // Any other string, such as `s + "."`, is counted less often, so `s` occurs.
    assert multiset(xs)[s + "."] < multiset(xs)[s];
    assert s in Keys(t);
    TallyDistinct(xs);
    var d := Dominant(t);
    var k := DistinctReducePosition(t);
    var j :| 0 <= j < |t| && t[j].0 == s;
    CountOfEntry(t, j);
    CountOfEntry(t, k);
  }

  /** When no style repeats, every count ties at one and the last style wins. */
  lemma DistinctLastWins(xs: seq<string>)
    requires |xs| > 0
    requires forall i, j :: 0 <= i < j < |xs| ==> xs[i] != xs[j]
    ensures |TallyOf(xs)| > 0 && Dominant(TallyOf(xs)) == xs[|xs| - 1]
  {
    var init, x := xs[..|xs| - 1], xs[|xs| - 1];
    assert xs == init + [x];
    assert x !in init;
    var t := TallyOf(xs);
    var ti := TallyOf(init);
    assert Keys(t) == Keys(ti) + [x];
    var last := |t| - 1;
    assert t[last].0 == Keys(t)[last] == x;
    TallyDistinct(xs);
    var d := Dominant(t);
    var k := DistinctReducePosition(t);
    if k < last {
      CountOfEntry(t, k);
      MultisetOfDistinct(xs, d);
      assert false;
    }
  }

  lemma {:induction false} MultisetOfDistinct(xs: seq<string>, x: string)
    requires forall i, j :: 0 <= i < j < |xs| ==> xs[i] != xs[j]
    ensures multiset(xs)[x] <= 1
  {
    if |xs| > 0 {
      var init := xs[..|xs| - 1];
      assert xs == init + [xs[|xs| - 1]];
      MultisetOfDistinct(init, x);
      assert xs[|xs| - 1] !in init;
    }
  }
}
