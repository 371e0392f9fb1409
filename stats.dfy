/** The two numpy reductions the segmenter and the live tuner use on lists of
    reals: `np.mean` and `np.median`. Reals are exact here, so the mean is the
    sum divided by the count and the median of an even-length list is the
    average of the two middle values of its sorted copy. */
module Stats {

  function Sum(s: seq<real>): real
  {
    if s == [] then 0.0 else Sum(s[..|s| - 1]) + s[|s| - 1]
  }

  function Min(s: seq<real>): (m: real)
    requires |s| > 0
    ensures m in s
    ensures forall x :: x in s ==> m <= x
  {
    if |s| == 1 then s[0]
    else
      var rest := Min(s[..|s| - 1]);
      assert forall x :: x in s ==> x in s[..|s| - 1] || x == s[|s| - 1];
      if s[|s| - 1] < rest then s[|s| - 1] else rest
  }

  function Max(s: seq<real>): (m: real)
    requires |s| > 0
    ensures m in s
    ensures forall x :: x in s ==> x <= m
  {
    if |s| == 1 then s[0]
    else
      var rest := Max(s[..|s| - 1]);
      assert forall x :: x in s ==> x in s[..|s| - 1] || x == s[|s| - 1];
      if s[|s| - 1] > rest then s[|s| - 1] else rest
  }

  /** Every element of `s` lies in [lo, hi], so the sum lies in [n*lo, n*hi]. */
  lemma {:induction false} SumBounds(s: seq<real>, lo: real, hi: real)
    requires forall x :: x in s ==> lo <= x <= hi
    ensures (|s| as real) * lo <= Sum(s) <= (|s| as real) * hi
  {
    if s != [] {
      var init := s[..|s| - 1];
      assert forall x :: x in init ==> x in s;
      SumBounds(init, lo, hi);
      assert s[|s| - 1] in s;
      assert (|s| as real) * lo == (|init| as real) * lo + lo;
      assert (|s| as real) * hi == (|init| as real) * hi + hi;
    }
  }

  /** `np.mean` of a non-empty list. */
  function Mean(s: seq<real>): (r: real)
    requires |s| > 0
    ensures Min(s) <= r <= Max(s)
  {
    var n := |s| as real;
    SumBounds(s, Min(s), Max(s));
    MulDivBounds(Sum(s), n, Min(s), Max(s));
    Sum(s) / n
  }

  lemma MulDivBounds(total: real, n: real, lo: real, hi: real)
    requires n > 0.0
    requires n * lo <= total <= n * hi
    ensures lo <= total / n <= hi
  {
    assert total / n * n == total;
  }

  ghost predicate Sorted(s: seq<real>)
  {
    forall i, j :: 0 <= i < j < |s| ==> s[i] <= s[j]
  }

  lemma SortedCons(a: real, t: seq<real>)
    requires Sorted(t)
    requires t != [] ==> a <= t[0]
    ensures Sorted([a] + t)
  {
    var r := [a] + t;
    forall i, j | 0 <= i < j < |r|
      ensures r[i] <= r[j]
    {
      if i > 0 {
        assert r[i] == t[i - 1] && r[j] == t[j - 1];
      } else {
        assert r[j] == t[j - 1] && t[0] <= t[j - 1];
      }
    }
  }

  function Insert(x: real, s: seq<real>): (r: seq<real>)
    requires Sorted(s)
    ensures |r| == |s| + 1
    ensures r[0] == if s == [] || x <= s[0] then x else s[0]
    ensures Sorted(r)
    ensures multiset(r) == multiset(s) + multiset{x}
  {
    if s == [] then [x]
    else if x <= s[0] then
      SortedCons(x, s);
      assert multiset([x] + s) == multiset([x]) + multiset(s);
      [x] + s
    else
      var tail := Insert(x, s[1..]);
      InsertBehind(x, s, tail);
      [s[0]] + tail
  }

  /** The step of `Insert` past a head smaller than `x`. */
  lemma InsertBehind(x: real, s: seq<real>, tail: seq<real>)
    requires Sorted(s) && s != [] && s[0] < x
    requires |tail| == |s| && Sorted(tail)
    requires tail[0] == if s[1..] == [] || x <= s[1] then x else s[1]
    requires multiset(tail) == multiset(s[1..]) + multiset{x}
    ensures Sorted([s[0]] + tail)
    ensures multiset([s[0]] + tail) == multiset(s) + multiset{x}
  {
    assert s == [s[0]] + s[1..];
    assert multiset([s[0]] + tail) == multiset([s[0]]) + multiset(tail);
    SortedCons(s[0], tail);
  }

  /** The sorted copy `np.median` works on (an insertion sort). */
  function Sort(s: seq<real>): (r: seq<real>)
    ensures Sorted(r)
    ensures multiset(r) == multiset(s)
  {
    if s == [] then []
    else
      assert s == [s[0]] + s[1..];
      Insert(s[0], Sort(s[1..]))
  }

  /** `np.median` of a non-empty list: the middle element of the sorted copy,
      or the average of the two middle elements when the length is even. */
  function Median(s: seq<real>): (r: real)
    requires |s| > 0
    ensures Min(s) <= r <= Max(s)
  {
    var t := Sort(s);
    var n := |s|;
    assert |t| == |multiset(t)| == n;
    if n % 2 == 1 then
      assert t[n / 2] in multiset(t) && t[n / 2] in multiset(s);
      assert t[n / 2] in s;
      t[n / 2]
    else
      assert t[n / 2 - 1] in multiset(t) && t[n / 2] in multiset(t);
      assert t[n / 2 - 1] in multiset(s) && t[n / 2] in multiset(s);
      assert t[n / 2 - 1] in s && t[n / 2] in s;
      (t[n / 2 - 1] + t[n / 2]) / 2.0
  }
}
