/** The three statistics `analysis` takes of the valid values: `sorted`,
    then `statistics.mean`, `statistics.median` and `statistics.multimode`,
    over exact reals. `mean` and `median` raise `StatisticsError` on an
    empty list; `multimode` returns `[]` for one. */
module Statistics {
  import opened Wrappers

  /** `statistics.StatisticsError`, raised for an empty list. */
  datatype StatsError = EmptyData

  predicate Ascending(s: seq<real>) {
    forall i, j :: 0 <= i < j < |s| ==> s[i] <= s[j]
  }

  predicate StrictlyAscending(s: seq<real>) {
    forall i, j :: 0 <= i < j < |s| ==> s[i] < s[j]
  }

  predicate NoDuplicates(s: seq<real>) {
    forall i, j :: 0 <= i < j < |s| ==> s[i] != s[j]
  }

  /* ---------------------------------------------------------------- sorted */

  function Insert(x: real, s: seq<real>): (r: seq<real>)
    requires Ascending(s)
    ensures |r| == |s| + 1
    ensures Ascending(r)
    ensures multiset(r) == multiset(s) + multiset{x}
  {
    if s == [] || x <= s[0] then
      [x] + s
    else
      var rest := Insert(x, s[1..]);
      assert s == [s[0]] + s[1..];
      InsertBelow(x, s, rest);
      [s[0]] + rest
  }

  /** Putting the head of an ascending list back in front of its tail with
      a larger value inserted keeps the list ascending. */
  lemma InsertBelow(x: real, s: seq<real>, rest: seq<real>)
    requires s != [] && Ascending(s) && s[0] < x
    requires Ascending(rest) && multiset(rest) == multiset(s[1..]) + multiset{x}
    ensures Ascending([s[0]] + rest)
  {
    forall k | 0 <= k < |rest| ensures s[0] <= rest[k] {
      assert rest[k] in multiset(rest);
      if rest[k] != x {
        assert rest[k] in s[1..];
      }
    }
  }

  /** `sorted(values)`: a new list, in ascending order, with the same values
      as many times each. */
  function Sorted(s: seq<real>): (r: seq<real>)
    ensures |r| == |s|
    ensures Ascending(r)
    ensures multiset(r) == multiset(s)
  {
    if s == [] then []
    else
      assert s == [s[0]] + s[1..];
      Insert(s[0], Sorted(s[1..]))
  }

  /** There is only one ascending arrangement of a multiset of values, so
      `sorted` is determined by what it must promise. */
  lemma {:induction false} AscendingUnique(a: seq<real>, b: seq<real>)
    requires Ascending(a) && Ascending(b)
    requires multiset(a) == multiset(b)
    ensures a == b
  {
    if a != [] {
      assert |b| == |multiset(b)| == |multiset(a)| == |a|;
      assert a[0] in multiset(b) && b[0] in multiset(a);
      assert a[0] == b[0] by {
        var i :| 0 <= i < |b| && b[i] == a[0];
        var j :| 0 <= j < |a| && a[j] == b[0];
        assert b[0] <= a[0] && a[0] <= b[0];
      }
      TailMultiset(a, b);
      AscendingUnique(a[1..], b[1..]);
      assert a == [a[0]] + a[1..] && b == [b[0]] + b[1..];
    }
  }

  lemma TailMultiset(a: seq<real>, b: seq<real>)
    requires a != [] && b != [] && a[0] == b[0]
    requires multiset(a) == multiset(b)
    ensures multiset(a[1..]) == multiset(b[1..])
  {
    assert a == [a[0]] + a[1..];
    assert b == [b[0]] + b[1..];
    assert multiset(a) == multiset{a[0]} + multiset(a[1..]);
    assert multiset(b) == multiset{a[0]} + multiset(b[1..]);
    assert multiset(a[1..]) == multiset(a) - multiset{a[0]};
    assert multiset(b[1..]) == multiset(b) - multiset{a[0]};
  }

  /** Sorting a list that is already ascending gives it back. */
  lemma SortedAscending(s: seq<real>)
    requires Ascending(s)
    ensures Sorted(s) == s
  {
    AscendingUnique(Sorted(s), s);
  }

  /** Lists holding the same values sort to the same list. */
  lemma SortedPermutation(a: seq<real>, b: seq<real>)
    requires multiset(a) == multiset(b)
    ensures Sorted(a) == Sorted(b)
  {
    AscendingUnique(Sorted(a), Sorted(b));
  }

  /* ------------------------------------------------------------------ mean */

  function Sum(s: seq<real>): real {
    if s == [] then 0.0 else s[0] + Sum(s[1..])
  }

  lemma {:induction false} SumAppend(a: seq<real>, b: seq<real>)
    ensures Sum(a + b) == Sum(a) + Sum(b)
  {
    if a != [] {
      assert (a + b)[0] == a[0];
      assert (a + b)[1..] == a[1..] + b;
      SumAppend(a[1..], b);
      assert Sum(a + b) == a[0] + Sum(a[1..] + b);
    } else {
      assert a + b == b;
    }
  }

  /** The sum does not depend on the order of the values. */
  lemma {:induction false} SumPermutation(a: seq<real>, b: seq<real>)
    requires multiset(a) == multiset(b)
    ensures Sum(a) == Sum(b)
  {
    if a != [] {
      assert a == [a[0]] + a[1..];
      assert a[0] in multiset(b);
      var k :| 0 <= k < |b| && b[k] == a[0];
      var rest := b[..k] + b[k + 1..];
      assert b == b[..k] + [b[k]] + b[k + 1..];
      calc {
        multiset(a[1..]) + multiset{a[0]};
        multiset(a);
        multiset(b);
        multiset(b[..k]) + multiset{b[k]} + multiset(b[k + 1..]);
        multiset(rest) + multiset{a[0]};
      }
      forall y ensures multiset(a[1..])[y] == multiset(rest)[y] {
        assert multiset(a)[y] == multiset(a[1..])[y] + multiset{a[0]}[y];
        assert multiset(b)[y] == multiset(rest)[y] + multiset{a[0]}[y];
      }
      assert multiset(a[1..]) == multiset(rest);
      SumPermutation(a[1..], rest);
      SumAppend(b[..k] + [b[k]], b[k + 1..]);
      SumAppend(b[..k], [b[k]]);
      SumAppend(b[..k], b[k + 1..]);
      assert Sum([b[k]]) == b[k];
    }
  }

  /** Values between `lo` and `hi` sum to between `|s| * lo` and `|s| * hi`. */
  lemma {:induction false} SumBounds(s: seq<real>, lo: real, hi: real)
    requires forall i :: 0 <= i < |s| ==> lo <= s[i] <= hi
    ensures |s| as real * lo <= Sum(s) <= |s| as real * hi
  {
    if s != [] {
      SumBounds(s[1..], lo, hi);
    }
  }

  /** `statistics.mean`: the value that, taken `|s|` times, adds up to the
      sum of `s`; an empty list raises. */
  function Mean(s: seq<real>): (r: Result<real, StatsError>)
    ensures r.Failure? <==> s == []
    ensures r.Success? ==> r.value * |s| as real == Sum(s)
  {
    if s == [] then Failure(EmptyData) else Success(Sum(s) / |s| as real)
  }

  /** The mean lies between any lower and upper bound of the values. */
  lemma MeanWithin(s: seq<real>, lo: real, hi: real)
    requires s != []
    requires forall i :: 0 <= i < |s| ==> lo <= s[i] <= hi
    ensures lo <= Mean(s).value <= hi
  {
    SumBounds(s, lo, hi);
    var n := |s| as real;
    DivideBounds(Sum(s), n, lo, hi);
  }

  lemma DivideBounds(x: real, n: real, lo: real, hi: real)
    requires n > 0.0 && n * lo <= x <= n * hi
    ensures lo <= x / n <= hi
  {
  }

  /** Taking the mean of the sorted copy gives the mean of the values. */
  lemma MeanPermutation(a: seq<real>, b: seq<real>)
    requires multiset(a) == multiset(b)
    ensures Mean(a) == Mean(b)
  {
    SumPermutation(a, b);
    assert |a| == |multiset(a)| == |multiset(b)| == |b|;
  }

  /* ---------------------------------------------------------------- median */

  /** How many of the values are at most `m`. */
  function CountAtMost(s: seq<real>, m: real): nat {
    if s == [] then 0 else (if s[0] <= m then 1 else 0) + CountAtMost(s[1..], m)
  }

  /** How many of the values are at least `m`. */
  function CountAtLeast(s: seq<real>, m: real): nat {
    if s == [] then 0 else (if s[0] >= m then 1 else 0) + CountAtLeast(s[1..], m)
  }

  lemma {:induction false} CountAtMostPrefix(s: seq<real>, m: real, k: nat)
    requires k <= |s|
    requires forall i :: 0 <= i < k ==> s[i] <= m
    ensures CountAtMost(s, m) >= k
  {
    if k > 0 {
      CountAtMostPrefix(s[1..], m, k - 1);
    }
  }

  lemma {:induction false} CountAtLeastSuffix(s: seq<real>, m: real, k: nat)
    requires k <= |s|
    requires forall i :: |s| - k <= i < |s| ==> s[i] >= m
    ensures CountAtLeast(s, m) >= k
  {
    if s != [] {
      if k == |s| {
        CountAtLeastSuffix(s[1..], m, k - 1);
      } else {
        CountAtLeastSuffix(s[1..], m, k);
      }
    }
  }

  /** The middle of an ascending list: its middle element when its length
      is odd, the average of its two middle elements when it is even. */
  function Middle(d: seq<real>): real
    requires d != []
  {
    var n := |d|;
    if n % 2 == 1 then d[n / 2] else (d[n / 2 - 1] + d[n / 2]) / 2.0
  }

  /** The middle of an ascending list lies between its two middle elements,
      with at least half of the values on each side. */
  lemma MiddleSplits(d: seq<real>)
    requires d != [] && Ascending(d)
    ensures d[(|d| - 1) / 2] <= Middle(d) <= d[|d| / 2]
    ensures 2 * CountAtMost(d, Middle(d)) >= |d|
    ensures 2 * CountAtLeast(d, Middle(d)) >= |d|
  {
    var n := |d|;
    var m := Middle(d);
    assert d[(n - 1) / 2] <= m <= d[n / 2];
    assert forall i :: 0 <= i < (n + 1) / 2 ==> d[i] <= d[(n - 1) / 2];
    CountAtMostPrefix(d, m, (n + 1) / 2);
    assert forall i :: n / 2 <= i < n ==> d[n / 2] <= d[i];
    CountAtLeastSuffix(d, m, (n + 1) / 2);
  }

  /** `statistics.median`: it sorts its argument and takes the middle; an
      empty list raises. */
  function Median(s: seq<real>): (r: Result<real, StatsError>)
    ensures r.Failure? <==> s == []
  {
    if s == [] then Failure(EmptyData) else Success(Middle(Sorted(s)))
  }

  /** The median splits the values in halves: at least half of them are at
      most the median and at least half are at least the median, and it lies
      between the two middle elements of the sorted list. */
  lemma MedianSplits(s: seq<real>)
    requires s != []
    ensures var m, d := Median(s).value, Sorted(s);
      && d[(|d| - 1) / 2] <= m <= d[|d| / 2]
      && 2 * CountAtMost(d, m) >= |d|
      && 2 * CountAtLeast(d, m) >= |d|
  {
    MiddleSplits(Sorted(s));
  }

  /** The median of an ascending list is its middle element when its length
      is odd and the mean of its two middle elements when it is even. */
  lemma MedianOfAscending(d: seq<real>)
    requires d != [] && Ascending(d)
    ensures Median(d) == Success(if |d| % 2 == 1 then d[|d| / 2] else (d[|d| / 2 - 1] + d[|d| / 2]) / 2.0)
  {
    SortedAscending(d);
  }

  /** Lists holding the same values have the same median. */
  lemma MedianPermutation(a: seq<real>, b: seq<real>)
    requires multiset(a) == multiset(b)
    ensures Median(a) == Median(b)
  {
    SortedPermutation(a, b);
    assert |a| == |b|;
  }

  /* ------------------------------------------------------------- multimode */

  /** The distinct values of `s`, each once. The body keeps them in the order
      of their first occurrence, as the keys of a `collections.Counter` built
      from `s`; only the ascending case is proved (`DistinctAscending`). */
  function Distinct(s: seq<real>): (r: seq<real>)
    ensures forall x :: x in r <==> x in s
    ensures NoDuplicates(r)
  {
    if s == [] then []
    else
      var init := s[..|s| - 1];
      var last := s[|s| - 1];
      var d := Distinct(init);
      assert s == init + [last];
      if last in d then d else d + [last]
  }

  /** The largest count of any of the first `k` values of `s`. */
  function MaxCount(s: seq<real>, k: nat): (r: nat)
    requires k <= |s|
    ensures forall i :: 0 <= i < k ==> multiset(s)[s[i]] <= r
    ensures k > 0 ==> exists i :: 0 <= i < k && multiset(s)[s[i]] == r
  {
    if k == 0 then 0
    else
      var c := multiset(s)[s[k - 1]];
      var r := MaxCount(s, k - 1);
      if c > r then c else r
  }

  /** The values of `d` whose count in `s` is `c`, in the order of `d`. */
  function WithCount(s: seq<real>, d: seq<real>, c: nat): (r: seq<real>)
    ensures forall x :: x in r <==> x in d && multiset(s)[x] == c
    ensures StrictlyAscending(d) ==> StrictlyAscending(r)
    ensures NoDuplicates(d) ==> NoDuplicates(r)
  {
    if d == [] then []
    else
      var rest := WithCount(s, d[1..], c);
      assert d == [d[0]] + d[1..];
      assert NoDuplicates(d) ==> d[0] !in d[1..];
      assert StrictlyAscending(d) ==> forall k :: 0 <= k < |rest| ==> d[0] < rest[k] by {
        if StrictlyAscending(d) {
          forall k | 0 <= k < |rest| ensures d[0] < rest[k] {
            assert rest[k] in d[1..];
          }
        }
      }
      if multiset(s)[d[0]] == c then [d[0]] + rest else rest
  }

  /** `statistics.multimode`: every value whose count is the largest, each
      once. Of their order only the case `analysis` uses is proved: on an
      ascending list they come out strictly ascending (`MultimodeAscending`). */
  function Multimode(s: seq<real>): (r: seq<real>) {
    WithCount(s, Distinct(s), MaxCount(s, |s|))
  }

  /** A value is a mode exactly when it occurs in the list and no value
      occurs more often; the modes are listed without repeats, and there is
      one at least whenever the list is not empty. */
  lemma MultimodeModes(s: seq<real>)
    ensures forall x :: x in Multimode(s) <==>
      x in s && forall y :: y in s ==> multiset(s)[y] <= multiset(s)[x]
    ensures NoDuplicates(Multimode(s))
    ensures s != [] <==> Multimode(s) != []
  {
    var c := MaxCount(s, |s|);
    forall x
      ensures x in Multimode(s) <==>
        x in s && forall y :: y in s ==> multiset(s)[y] <= multiset(s)[x]
    {
      if x in s && forall y :: y in s ==> multiset(s)[y] <= multiset(s)[x] {
        if s != [] {
          var i :| 0 <= i < |s| && multiset(s)[s[i]] == c;
          assert multiset(s)[s[i]] <= multiset(s)[x];
        }
        var j :| 0 <= j < |s| && s[j] == x;
        assert multiset(s)[x] <= c;
      }
      if x in Multimode(s) {
        forall y | y in s ensures multiset(s)[y] <= multiset(s)[x] {
          var j :| 0 <= j < |s| && s[j] == y;
        }
      }
    }
    if s != [] {
      var i :| 0 <= i < |s| && multiset(s)[s[i]] == c;
      assert s[i] in Multimode(s);
    }
  }

  /** Distinct values of an ascending list come out strictly ascending. */
  lemma {:induction false} DistinctAscending(s: seq<real>)
    requires Ascending(s)
    ensures StrictlyAscending(Distinct(s))
  {
    if s != [] {
      var init := s[..|s| - 1];
      var last := s[|s| - 1];
      DistinctAscending(init);
      var d := Distinct(init);
      assert Distinct(s) == if last in d then d else d + [last];
      forall k | 0 <= k < |d| ensures d[k] <= last {
        assert d[k] in init;
        var j :| 0 <= j < |init| && init[j] == d[k];
      }
    }
  }

  /** The modes of a sorted list come out strictly ascending. */
  lemma MultimodeAscending(s: seq<real>)
    requires Ascending(s)
    ensures StrictlyAscending(Multimode(s))
  {
    DistinctAscending(s);
  }

  /* -------------------------------------------------------------- examples */

  lemma MeanExample()
    ensures Mean([2.0, 4.0, 6.0]) == Success(4.0)
  {
    assert Sum([2.0, 4.0, 6.0]) == 12.0;
  }
}
