/** ResultSet::getPercentile: an order statistic of the durations of a window. */
module Percentiles {
  import opened Arith
  import opened Prelude

  ghost predicate Sorted(s: seq<int>) {
    forall i, j :: 0 <= i < j < |s| ==> s[i] <= s[j]
  }

  function Insert(s: seq<int>, x: int): seq<int> {
    if s == [] || x <= s[0] then [x] + s else [s[0]] + Insert(s[1..], x)
  }

  /** The sorted copy std::sort makes. */
  function Sort(s: seq<int>): seq<int> {
    if s == [] then [] else Insert(Sort(s[1..]), s[0])
  }

  lemma {:induction false} InsertMultiset(s: seq<int>, x: int)
    ensures multiset(Insert(s, x)) == multiset(s) + multiset{x}
  {
    if s != [] && x > s[0] {
      assert s == [s[0]] + s[1..];
      InsertMultiset(s[1..], x);
    }
  }

  lemma {:induction false} InsertSorted(s: seq<int>, x: int)
    requires Sorted(s)
    ensures Sorted(Insert(s, x))
  {
    if s != [] && x > s[0] {
      InsertSorted(s[1..], x);
      InsertMultiset(s[1..], x);
      InFront(s, x, Insert(s[1..], x));
    }
  }

  lemma InFront(s: seq<int>, x: int, t: seq<int>)
    requires Sorted(s) && s != [] && x > s[0] && Sorted(t) && multiset(t) == multiset(s[1..]) + multiset{x}
    ensures Sorted([s[0]] + t)
  {
    forall i | 0 <= i < |t|
      ensures s[0] <= t[i]
    {
      assert t[i] in multiset(t);
      if t[i] in s[1..] {
        var k :| 0 <= k < |s| - 1 && s[1..][k] == t[i];
      }
    }
  }

  lemma {:induction false} SortSorted(s: seq<int>)
    ensures Sorted(Sort(s)) && multiset(Sort(s)) == multiset(s) && |Sort(s)| == |s|
  {
    if s != [] {
      assert s == [s[0]] + s[1..];
      SortSorted(s[1..]);
      InsertSorted(Sort(s[1..]), s[0]);
      InsertMultiset(Sort(s[1..]), s[0]);
    }
    assert |multiset(Sort(s))| == |multiset(s)|;
  }

  lemma SmallestFirst(s: seq<int>, t: seq<int>)
    requires Sorted(s) && s != [] && t != [] && multiset(s) == multiset(t)
    ensures s[0] <= t[0]
  {
    assert t[0] in multiset(s);
  }

  /** A multiset has one sorted sequence. */
  lemma {:induction false} SortedUnique(s: seq<int>, t: seq<int>)
    requires Sorted(s) && Sorted(t) && multiset(s) == multiset(t)
    ensures s == t
  {
    hide Sorted;
    assert |multiset(s)| == |s| && |multiset(t)| == |t|;
    if s != [] {
      SmallestFirst(s, t);
      SmallestFirst(t, s);
      SortedRest(s);
      SortedRest(t);
      SortedUnique(s[1..], t[1..]);
      assert s == [s[0]] + s[1..] && t == [t[0]] + t[1..];
    }
  }

  lemma SortedRest(s: seq<int>)
    requires Sorted(s) && s != []
    ensures Sorted(s[1..]) && multiset(s[1..]) == multiset(s) - multiset{s[0]}
  {
    assert s == [s[0]] + s[1..];
  }

  function AtMost(s: seq<int>, x: int): nat {
    if s == [] then 0 else (if s[0] <= x then 1 else 0) + AtMost(s[1..], x)
  }

  function AtLeast(s: seq<int>, x: int): nat {
    if s == [] then 0 else (if s[0] >= x then 1 else 0) + AtLeast(s[1..], x)
  }

  lemma {:induction false} InsertCounts(s: seq<int>, y: int, x: int)
    ensures AtMost(Insert(s, y), x) == AtMost([y] + s, x)
    ensures AtLeast(Insert(s, y), x) == AtLeast([y] + s, x)
  {
    assert ([y] + s)[1..] == s;
    if s != [] && y > s[0] {
      InsertCounts(s[1..], y, x);
      assert ([y] + s[1..])[1..] == s[1..];
    }
  }

  lemma {:induction false} SortCounts(s: seq<int>, x: int)
    ensures AtMost(Sort(s), x) == AtMost(s, x) && AtLeast(Sort(s), x) == AtLeast(s, x)
  {
    if s != [] {
      SortCounts(s[1..], x);
      InsertCounts(Sort(s[1..]), s[0], x);
      var t := [s[0]] + Sort(s[1..]);
      assert t[1..] == Sort(s[1..]);
    }
  }

  lemma {:induction false} SortedCounts(s: seq<int>, i: nat, x: int)
    requires Sorted(s) && i < |s|
    ensures x >= s[i] ==> AtMost(s, x) >= i + 1
    ensures x <= s[i] ==> AtLeast(s, x) >= |s| - i
  {
    if i == 0 {
      AllAtLeast(s, x);
    } else {
      SortedCounts(s[1..], i - 1, x);
    }
  }

  lemma {:induction false} AllAtLeast(s: seq<int>, x: int)
    requires Sorted(s) && s != []
    ensures x <= s[0] ==> AtLeast(s, x) == |s|
  {
    if |s| > 1 {
      AllAtLeast(s[1..], x);
    }
  }

  /** Integer division of the language, which truncates toward zero. */
  function Truncate(a: int, b: nat): int
    requires b > 0
  {
    if a >= 0 then a / b else -(-a / b)
  }

  /** The value is an int. */
  predicate IsInt32(i: int) {
    -0x8000_0000 <= i < 0x8000_0000
  }

  /** (int)ceil(size*m_pFactor/100)-1 for a vector of n durations. The size is an
      int, and so is the product, unless it overflows. */
  function Index(n: nat, p: int): int {
    Truncate(ToInt32(n) * p, 100) - 1
  }

  /** The product does not overflow, and the index is one of the vector. */
  predicate InRange(n: nat, p: int) {
    IsInt32(ToInt32(n) * p) && 0 <= Index(n, p) < n
  }

  /** The percentile p; None when the code indexes outside the vector or its
      behaviour is undefined. */
  function Percentile(durations: seq<int>, p: int): Option<int> {
    var n, size := |durations|, ToInt32(|durations|);
    if size == 0 then Some(0)
    else if size == 1 then Some(durations[0])
    else if InRange(n, p) then
      SortSorted(durations);
      Some(Sort(durations)[Index(n, p)])
    else None
  }

  /** The index is inside the vector exactly under this condition. */
  lemma InRangeIff(n: nat, p: int)
    requires n < 0x8000_0000
    ensures InRange(n, p) <==> 100 <= n * p < 100 * (n + 1) && n * p < 0x8000_0000
  {
    var q := n * p;
    if 100 <= q {
      DivBounds(q, n);
    } else {
      NoIndex(q);
    }
  }

  lemma DivBounds(q: int, n: nat)
    requires q >= 100
    ensures Truncate(q, 100) >= 1 && (Truncate(q, 100) - 1 < n <==> q < 100 * (n + 1))
  {
  }

  lemma NoIndex(q: int)
    requires q < 100
    ensures Truncate(q, 100) <= 0
  {
  }

  /** Every vector of at most n durations has a percentile p. */
  ghost predicate DefinedUpTo(n: nat, p: int) {
    forall durations: seq<int> :: |durations| <= n ==> Percentile(durations, p).Some?
  }

  /** That holds exactly for the factors from 50 to 100 whose product with n is an
      int. */
  lemma DefinedIff(n: nat, p: int)
    requires n >= 100
    ensures DefinedUpTo(n, p) <==> 50 <= p <= 100 && n * p < 0x8000_0000
  {
    hide Percentile;
    if 50 <= p <= 100 && n * p < 0x8000_0000 {
      forall durations: seq<int> | |durations| <= n
        ensures Percentile(durations, p).Some?
      {
        MulLe(|durations|, n, p);
        DefinedFor(durations, p);
      }
    } else if p < 50 {
      UndefinedFor(2, n, p);
    } else if p > 100 {
      UndefinedFor(100, n, p);
    } else {
      var m := if n < 0x8000_0000 then n else 0x7fff_ffff;
      assert m * p >= 0x8000_0000 by {
        MulLe(50, p, 0x7fff_ffff);
      }
      UndefinedFor(m, n, p);
    }
  }

  lemma DefinedFor(durations: seq<int>, p: int)
    requires 50 <= p <= 100 && |durations| * p < 0x8000_0000
    ensures Percentile(durations, p).Some?
  {
    var n := |durations|;
    MulLe(50, p, n);
    MulLe(p, 100, n);
    if n >= 2 {
      InRangeIff(n, p);
    }
  }

  lemma UndefinedFor(m: nat, n: nat, p: int)
    requires 2 <= m <= n && m < 0x8000_0000 && (m * p < 100 || m * p >= 100 * (m + 1) || m * p >= 0x8000_0000)
    ensures !DefinedUpTo(n, p)
  {
    InRangeIff(m, p);
    hide InRange;
    var durations := seq(m, _ => 0);
    assert |durations| == m && Percentile(durations, p).None?;
  }

  /** At least floor(n*p/100) durations are no larger than the percentile, and at
      least n - floor(n*p/100) + 1 are no smaller; of a single duration it is that
      duration for every p, and of none it is 0. */
  lemma OrderStatistic(durations: seq<int>, p: int)
    requires |durations| < 0x8000_0000 && Percentile(durations, p).Some?
    ensures var n, r := |durations|, Percentile(durations, p).value;
            && (n == 0 ==> r == 0)
            && (n >= 1 ==> r in durations)
            && (n >= 2 ==> AtMost(durations, r) >= n * p / 100 && AtLeast(durations, r) >= n - n * p / 100 + 1)
  {
    if |durations| < 2 {
      return;
    }
    var s, i := Sort(durations), Index(|durations|, p);
    SortSorted(durations);
    SortedCounts(s, i, s[i]);
    SortCounts(durations, s[i]);
    assert s[i] in multiset(s);
  }

  /** The order in which the durations were recorded does not matter. */
  lemma PermutationInvariant(a: seq<int>, b: seq<int>, p: int)
    requires multiset(a) == multiset(b) && (|a| == 1 || ToInt32(|a|) != 1)
    ensures Percentile(a, p) == Percentile(b, p)
  {
    SortSorted(a);
    SortSorted(b);
    assert |multiset(a)| == |a| && |multiset(b)| == |b|;
    SortedUnique(Sort(a), Sort(b));
    if |a| == 1 {
      assert a[0] in multiset(a);
      assert a[0] in multiset(b);
    }
  }

  lemma Monotone(durations: seq<int>, p: int, q: int)
    requires |durations| < 0x8000_0000
    requires p <= q && Percentile(durations, p).Some? && Percentile(durations, q).Some?
    ensures Percentile(durations, p).value <= Percentile(durations, q).value
  {
    var n := |durations|;
    if n >= 2 {
      MulLe(p, q, n);
      DivMonotone(n * p, n * q);
      SortSorted(durations);
    }
  }

  lemma DivMonotone(a: int, b: int)
    requires a <= b
    ensures a / 100 <= b / 100
  {
  }
}
