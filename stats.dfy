/** The statistics of `api/app.py`: the mean with its zero default, the
    nearest-rank 95th percentile over a sorted copy, and the strict
    threshold-breach count. Numbers are exact reals, not IEEE doubles. */
module Stats {

  /** `sum(s)`, added left to right from `0`. */
  function Sum(s: seq<real>): (total: real)
  {
    if |s| == 0 then 0.0 else s[0] + Sum(s[1..])
  }

  /** `sum(s) / len(s) if s else 0.0`. */
  function Mean(s: seq<real>): (avg: real)
  {
    if |s| == 0 then 0.0 else Sum(s) / (|s| as real)
  }

  function Min(s: seq<real>): (m: real)
    requires |s| > 0
    ensures m in s
    ensures forall x :: x in s ==> m <= x
  {
    if |s| == 1 then s[0]
    else
      var rest := Min(s[1..]);
      assert forall x :: x in s ==> x == s[0] || x in s[1..];
      if s[0] <= rest then s[0] else rest
  }

  function Max(s: seq<real>): (m: real)
    requires |s| > 0
    ensures m in s
    ensures forall x :: x in s ==> x <= m
  {
    if |s| == 1 then s[0]
    else
      var rest := Max(s[1..]);
      assert forall x :: x in s ==> x == s[0] || x in s[1..];
      if s[0] >= rest then s[0] else rest
  }

  lemma {:induction false} SumAtLeast(s: seq<real>, lo: real)
    requires forall x :: x in s ==> lo <= x
    ensures (|s| as real) * lo <= Sum(s)
  {
    if |s| > 0 {
      assert s[0] in s;
      assert forall x :: x in s[1..] ==> x in s;
      SumAtLeast(s[1..], lo);
      assert (|s| as real) * lo == lo + ((|s| - 1) as real) * lo;
    }
  }

  lemma {:induction false} SumAtMost(s: seq<real>, hi: real)
    requires forall x :: x in s ==> x <= hi
    ensures Sum(s) <= (|s| as real) * hi
  {
    if |s| > 0 {
      assert s[0] in s;
      assert forall x :: x in s[1..] ==> x in s;
      SumAtMost(s[1..], hi);
      assert (|s| as real) * hi == hi + ((|s| - 1) as real) * hi;
    }
  }

  lemma QuotientBounds(lo: real, x: real, hi: real, n: real)
    requires n > 0.0
    requires n * lo <= x <= n * hi
    ensures lo <= x / n <= hi
  {
  }

  /** A mean of extracted values lies between the smallest and the largest of them. */
  lemma {:induction false} MeanBetweenMinAndMax(s: seq<real>)
    requires |s| > 0
    ensures Min(s) <= Mean(s) <= Max(s)
  {
    var lo, hi := Min(s), Max(s);
    SumAtLeast(s, lo);
    SumAtMost(s, hi);
    QuotientBounds(lo, Sum(s), hi, |s| as real);
  }

  // ---------------------------------------------------------------------
  // Counting, as `sum(1 for v in s if p(v))`

  function CountWhere(s: seq<real>, p: real -> bool): (c: nat)
    ensures c <= |s|
  {
    if |s| == 0 then 0 else (if p(s[0]) then 1 else 0) + CountWhere(s[1..], p)
  }

  /** `v < x`, `v <= x` and `v > x`, as predicates to count with. */
  function Below(x: real): real -> bool { v => v < x }
  function AtMost(x: real): real -> bool { v => v <= x }
  function Above(x: real): real -> bool { v => v > x }

  lemma {:induction false} CountWhereAppend(a: seq<real>, b: seq<real>, p: real -> bool)
    ensures CountWhere(a + b, p) == CountWhere(a, p) + CountWhere(b, p)
  {
    if |a| == 0 {
      assert a + b == b;
    } else {
      assert (a + b)[1..] == a[1..] + b;
      CountWhereAppend(a[1..], b, p);
    }
  }

  /** Taking one element out of the middle of a sequence. */
  lemma {:induction false} CountWhereRemove(b: seq<real>, j: nat, p: real -> bool)
    requires j < |b|
    ensures CountWhere(b, p) == (if p(b[j]) then 1 else 0) + CountWhere(b[..j] + b[j + 1..], p)
  {
    var left, right := b[..j], b[j + 1..];
    assert b == left + ([b[j]] + right);
    CountWhereAppend(left, [b[j]] + right, p);
    CountWhereAppend(left, right, p);
    assert ([b[j]] + right)[1..] == right;
  }

  lemma {:induction false} MultisetRemove(b: seq<real>, j: nat)
    requires j < |b|
    ensures multiset(b[..j] + b[j + 1..]) == multiset(b) - multiset{b[j]}
  {
    assert b == b[..j] + [b[j]] + b[j + 1..];
  }

  /** A count depends only on the multiset of values, not on their order. */
  lemma {:induction false} CountWherePermutation(a: seq<real>, b: seq<real>, p: real -> bool)
    requires multiset(a) == multiset(b)
    ensures CountWhere(a, p) == CountWhere(b, p)
    decreases |a|
  {
    if |a| == 0 {
      assert |b| == |multiset(b)| == 0;
    } else {
      var x := a[0];
      assert x in multiset(b);
      var j :| 0 <= j < |b| && b[j] == x;
      CountWhereRemove(b, j, p);
      MultisetRemove(b, j);
      assert a == [x] + a[1..];
      assert multiset(a[1..]) == multiset(a) - multiset{x};
      CountWherePermutation(a[1..], b[..j] + b[j + 1..], p);
    }
  }

  lemma {:induction false} CountWhereAll(s: seq<real>, p: real -> bool)
    requires forall i :: 0 <= i < |s| ==> p(s[i])
    ensures CountWhere(s, p) == |s|
  {
    if |s| > 0 {
      CountWhereAll(s[1..], p);
    }
  }

  lemma {:induction false} CountWhereNone(s: seq<real>, p: real -> bool)
    requires forall i :: 0 <= i < |s| ==> !p(s[i])
    ensures CountWhere(s, p) == 0
  {
    if |s| > 0 {
      CountWhereNone(s[1..], p);
    }
  }

  // ---------------------------------------------------------------------
  // Breaches

  /** `sum(1 for v in latencies if v > threshold)`. */
  function Breaches(latencies: seq<real>, threshold: real): (count: nat)
  {
    CountWhere(latencies, Above(threshold))
  }

  lemma {:induction false} CountAboveAtMost(s: seq<real>, t: real)
    ensures CountWhere(s, Above(t)) + CountWhere(s, AtMost(t)) == |s|
  {
    if |s| > 0 {
      CountAboveAtMost(s[1..], t);
    }
  }

  /** The breach count is strict: every value is either a breach or at most the
      threshold, never both, so a value equal to the threshold is not a breach. */
  lemma BreachesStrict(latencies: seq<real>, threshold: real)
    ensures Breaches(latencies, threshold) == |latencies| - CountWhere(latencies, AtMost(threshold))
    ensures Breaches(latencies + [threshold], threshold) == Breaches(latencies, threshold)
  {
    CountAboveAtMost(latencies, threshold);
    CountWhereAppend(latencies, [threshold], Above(threshold));
    assert [threshold][1..] == [];
  }

  /** The breach count does not depend on the order of the latencies. */
  lemma BreachesPermutation(a: seq<real>, b: seq<real>, threshold: real)
    requires multiset(a) == multiset(b)
    ensures Breaches(a, threshold) == Breaches(b, threshold)
  {
    CountWherePermutation(a, b, Above(threshold));
  }

  // ---------------------------------------------------------------------
  // `sorted(values)`

  predicate IsSorted(s: seq<real>)
  {
    forall i, j :: 0 <= i < j < |s| ==> s[i] <= s[j]
  }

  /** Inserting `x` before the first element not below it. */
  function Insert(x: real, s: seq<real>): (r: seq<real>)
    ensures multiset(r) == multiset(s) + multiset{x}
    ensures |r| == |s| + 1
  {
    if |s| == 0 then [x]
    else if x <= s[0] then [x] + s
    else
      assert s == [s[0]] + s[1..];
      [s[0]] + Insert(x, s[1..])
  }

  /** A lower bound of `x` and of `s` bounds every element after insertion. */
  lemma {:induction false} InsertLowerBound(x: real, s: seq<real>, lo: real)
    requires lo <= x
    requires forall i :: 0 <= i < |s| ==> lo <= s[i]
    ensures forall i :: 0 <= i < |Insert(x, s)| ==> lo <= Insert(x, s)[i]
  {
    if |s| > 0 && x > s[0] {
      InsertLowerBound(x, s[1..], lo);
      assert Insert(x, s) == [s[0]] + Insert(x, s[1..]);
    }
  }

  /** A head no greater than any element of an ascending tail keeps it ascending. */
  lemma SortedCons(a: real, t: seq<real>)
    requires IsSorted(t)
    requires forall i :: 0 <= i < |t| ==> a <= t[i]
    ensures IsSorted([a] + t)
  {
    var r := [a] + t;
    forall i, j | 0 <= i < j < |r|
      ensures r[i] <= r[j]
    {
      assert r[j] == t[j - 1];
      if i > 0 {
        assert r[i] == t[i - 1];
      }
    }
  }

  /** Inserting into an ascending sequence keeps it ascending. */
  lemma {:induction false} InsertSorted(x: real, s: seq<real>)
    requires IsSorted(s)
    ensures IsSorted(Insert(x, s))
  {
    if |s| == 0 {
    } else if x <= s[0] {
      SortedCons(x, s);
    } else {
      InsertSorted(x, s[1..]);
      InsertLowerBound(x, s[1..], s[0]);
      SortedCons(s[0], Insert(x, s[1..]));
    }
  }

  /** `sorted(values)`: an ascending permutation of the input. */
  function SortAscending(s: seq<real>): (r: seq<real>)
    ensures IsSorted(r)
    ensures multiset(r) == multiset(s)
    ensures |r| == |s|
  {
    if |s| == 0 then []
    else
      var rest := SortAscending(s[1..]);
      assert s == [s[0]] + s[1..];
      InsertSorted(s[0], rest);
      Insert(s[0], rest)
  }

  /** There is only one ascending arrangement of a multiset of values. */
  lemma {:induction false} SortedUnique(a: seq<real>, b: seq<real>)
    requires IsSorted(a) && IsSorted(b)
    requires multiset(a) == multiset(b)
    ensures a == b
    decreases |a|
  {
    if |a| == 0 {
      assert |b| == |multiset(b)| == 0;
    } else {
      assert |b| == |multiset(b)| == |a|;
      assert a[0] in multiset(b);
      assert b[0] in multiset(a);
      assert a[0] == b[0];
      assert a == [a[0]] + a[1..];
      assert b == [b[0]] + b[1..];
      assert multiset(a) == multiset{a[0]} + multiset(a[1..]);
      assert multiset(b) == multiset{b[0]} + multiset(b[1..]);
      assert multiset(a[1..]) == multiset(a) - multiset{a[0]};
      assert multiset(b[1..]) == multiset(b) - multiset{b[0]};
      SortedUnique(a[1..], b[1..]);
    }
  }

  // ---------------------------------------------------------------------
  // Nearest-rank 95th percentile

  /** Python's `round(num / den)`: to the nearest integer, with ties to the
      even neighbour (banker's rounding). */
  function RoundHalfEven(num: int, den: int): (r: int)
    requires den > 0
    ensures -den <= 2 * (r * den - num) <= den
    ensures 2 * (r * den - num) == den || 2 * (r * den - num) == -den ==> r % 2 == 0
  {
    var q := num / den;
    var rem := num % den;
    assert num == q * den + rem;
    if 2 * rem < den then q
    else if 2 * rem > den then
      assert (q + 1) * den - num == den - rem;
      q + 1
    else if q % 2 == 0 then q
    else
      assert (q + 1) * den - num == den - rem;
      q + 1
  }

  /** `max(0, min(n - 1, round(0.95 * (n - 1))))`, with `0.95 * (n - 1)` taken
      as the exact rational `19 * (n - 1) / 20`. */
  function P95Index(n: nat): (idx: int)
  {
    var raw := RoundHalfEven(19 * (n - 1), 20);
    if raw < 0 then 0 else if raw > n - 1 then n - 1 else raw
  }

  /** For a non-empty list the rounded rank already lies in `[0, n - 1]`: the
      clamp never changes it, and the selected index is in range. */
  lemma P95IndexInRange(n: nat)
    requires n > 0
    ensures 0 <= RoundHalfEven(19 * (n - 1), 20) <= n - 1
    ensures P95Index(n) == RoundHalfEven(19 * (n - 1), 20)
  {
  }

  /** Ties: `round(0.95 * 10) == 10`, `round(0.95 * 30) == 28`, and two-element
      lists select the larger value. */
  lemma P95IndexTies()
    ensures P95Index(11) == 10
    ensures P95Index(31) == 28
    ensures P95Index(2) == 1
    ensures P95Index(1) == 0
  {
    assert RoundHalfEven(190, 20) == 10;
    assert RoundHalfEven(570, 20) == 28;
    assert RoundHalfEven(19, 20) == 1;
    assert RoundHalfEven(0, 20) == 0;
  }

  /** `p95(values)`: `0.0` for an empty list, otherwise the element at the
      nearest-rank position of the sorted copy. */
  function P95(values: seq<real>): (r: real)
    ensures |values| == 0 ==> r == 0.0
    ensures |values| > 0 ==> r in values
  {
    if |values| == 0 then 0.0
    else
      var s := SortAscending(values);
      P95IndexInRange(|values|);
      assert s[P95Index(|values|)] in multiset(values);
      s[P95Index(|values|)]
  }

  /** In an ascending sequence, at most `k` values lie below `s[k]` and more
      than `k` lie at or below it. */
  lemma SortedOrderStatistic(s: seq<real>, k: nat)
    requires IsSorted(s) && k < |s|
    ensures CountWhere(s, Below(s[k])) <= k
    ensures k < CountWhere(s, AtMost(s[k]))
  {
    var r := s[k];
    var front, back := s[..k], s[k..];
    assert s == front + back;
    assert forall i :: 0 <= i < |back| ==> !Below(r)(back[i]) by {
      forall i | 0 <= i < |back|
        ensures !Below(r)(back[i])
      {
        assert back[i] == s[k + i];
      }
    }
    CountWhereAppend(front, back, Below(r));
    CountWhereNone(back, Below(r));
    var upTo, rest := s[..k + 1], s[k + 1..];
    assert s == upTo + rest;
    assert forall i :: 0 <= i < |upTo| ==> AtMost(r)(upTo[i]) by {
      forall i | 0 <= i < |upTo|
        ensures AtMost(r)(upTo[i])
      {
        assert upTo[i] == s[i];
      }
    }
    CountWhereAppend(upTo, rest, AtMost(r));
    CountWhereAll(upTo, AtMost(r));
  }

  /** The percentile is an order statistic of the input: at most `k` values lie
      below it and more than `k` lie at or below it, where `k` is the
      nearest-rank index. */
  lemma P95IsOrderStatistic(values: seq<real>)
    requires |values| > 0
    ensures CountWhere(values, Below(P95(values))) <= P95Index(|values|)
    ensures P95Index(|values|) < CountWhere(values, AtMost(P95(values)))
  {
    var s := SortAscending(values);
    var k := P95Index(|values|);
    P95IndexInRange(|values|);
    assert s[k] == P95(values);
    SortedOrderStatistic(s, k);
    CountWherePermutation(values, s, Below(s[k]));
    CountWherePermutation(values, s, AtMost(s[k]));
  }

  /** Reordering the input does not change the percentile. */
  lemma P95Permutation(a: seq<real>, b: seq<real>)
    requires multiset(a) == multiset(b)
    ensures P95(a) == P95(b)
  {
    assert |a| == |multiset(a)| == |b|;
    SortedUnique(SortAscending(a), SortAscending(b));
  }

  /** The percentile lies between the smallest and the largest input. */
  lemma P95BetweenMinAndMax(values: seq<real>)
    requires |values| > 0
    ensures Min(values) <= P95(values) <= Max(values)
  {
  }
}
