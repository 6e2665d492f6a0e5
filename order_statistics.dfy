/** The reductions that the order-statistic filters apply to a window: minimum, maximum
    and median of a non-empty sequence of samples. */
module OrderStatistics {
  import opened Planes

  /** The smallest sample (numpy's min). */
  function SeqMin(s: seq<Sample>): (m: Sample)
    requires |s| > 0
    ensures m in s
    ensures forall x :: x in s ==> m <= x
  {
    if |s| == 1 then s[0]
    else
      var rest := SeqMin(s[1..]);
      assert s == [s[0]] + s[1..];
      if s[0] <= rest then s[0] else rest
  }

  /** The largest sample (numpy's max). */
  function SeqMax(s: seq<Sample>): (m: Sample)
    requires |s| > 0
    ensures m in s
    ensures forall x :: x in s ==> x <= m
  {
    if |s| == 1 then s[0]
    else
      var rest := SeqMax(s[1..]);
      assert s == [s[0]] + s[1..];
      if s[0] >= rest then s[0] else rest
  }

  predicate Sorted(s: seq<Sample>) {
    forall a, b :: 0 <= a < b < |s| ==> s[a] <= s[b]
  }

  /** Inserts `x` into the sorted sequence `t` at its place. */
  function Insert(x: Sample, t: seq<Sample>): seq<Sample> {
    if t == [] then [x]
    else if x <= t[0] then [x] + t
    else [t[0]] + Insert(x, t[1..])
  }

  /** Insertion adds exactly `x` to the samples of `t`. */
  lemma {:induction false} InsertAdds(x: Sample, t: seq<Sample>)
    ensures multiset(Insert(x, t)) == multiset(t) + multiset{x}
  {
    if t != [] && x > t[0] {
      InsertAdds(x, t[1..]);
      assert t == [t[0]] + t[1..];
      assert Insert(x, t) == [t[0]] + Insert(x, t[1..]);
    }
  }

  /** Insertion keeps a sequence sorted and adds exactly `x` to its samples. */
  lemma {:induction false} InsertSorts(x: Sample, t: seq<Sample>)
    requires Sorted(t)
    ensures Sorted(Insert(x, t))
    ensures multiset(Insert(x, t)) == multiset(t) + multiset{x}
  {
    InsertAdds(x, t);
    if t != [] && x > t[0] {
      var tail := Insert(x, t[1..]);
      SortedTail(t);
      InsertSorts(x, t[1..]);
      InsertAdds(x, t[1..]);
      BoundedBelow(t[0], x, t[1..], tail);
      ConsSorted(t[0], tail);
    }
  }

  lemma ConsSorted(x: Sample, s: seq<Sample>)
    requires Sorted(s) && forall k :: 0 <= k < |s| ==> x <= s[k]
    ensures Sorted([x] + s)
  {
    forall a, b | 0 <= a < b < |s| + 1
      ensures ([x] + s)[a] <= ([x] + s)[b]
    {
      assert ([x] + s)[b] == s[b - 1];
      if a > 0 {
        assert ([x] + s)[a] == s[a - 1];
      }
    }
  }

  /** If `lo` is below `x` and below every element of `u`, it is below every element of
      a rearrangement of `u` with `x` added. */
  lemma BoundedBelow(lo: Sample, x: Sample, u: seq<Sample>, r: seq<Sample>)
    requires lo <= x && forall k :: 0 <= k < |u| ==> lo <= u[k]
    requires multiset(r) == multiset(u) + multiset{x}
    ensures forall k :: 0 <= k < |r| ==> lo <= r[k]
  {
    forall k | 0 <= k < |r|
      ensures lo <= r[k]
    {
      assert r[k] in multiset(r);
      if r[k] != x {
        assert r[k] in multiset(u);
        var m :| 0 <= m < |u| && u[m] == r[k];
      }
    }
  }

  /** The samples of `s` in ascending order (insertion sort). */
  function Sort(s: seq<Sample>): seq<Sample> {
    if s == [] then [] else Insert(s[0], Sort(s[1..]))
  }

  /** Sorting yields a sorted rearrangement of its input. */
  lemma {:induction false} SortSorts(s: seq<Sample>)
    ensures Sorted(Sort(s))
    ensures multiset(Sort(s)) == multiset(s)
    ensures |Sort(s)| == |s|
  {
    if s != [] {
      assert s == [s[0]] + s[1..];
      SortSorts(s[1..]);
      InsertSorts(s[0], Sort(s[1..]));
    }
    assert |Sort(s)| == |multiset(Sort(s))|;
  }

  /** Two sorted sequences holding the same samples are the same sequence: the sorted
      order of a window depends only on which samples it holds, not on how it was read. */
  lemma {:induction false} SortedUnique(a: seq<Sample>, b: seq<Sample>)
    requires Sorted(a) && Sorted(b) && multiset(a) == multiset(b)
    ensures a == b
  {
    assert |a| == |multiset(a)| == |multiset(b)| == |b|;
    if a != [] {
      assert a[0] == b[0] by {
        assert a[0] in multiset(b) && b[0] in multiset(a);
        var ka :| 0 <= ka < |b| && b[ka] == a[0];
        var kb :| 0 <= kb < |a| && a[kb] == b[0];
        assert b[0] <= b[ka] && a[0] <= a[kb];
      }
      assert multiset(a[1..]) == multiset(b[1..]) by {
        assert a == [a[0]] + a[1..] && b == [b[0]] + b[1..];
        assert multiset(a) == multiset{a[0]} + multiset(a[1..]);
        assert multiset(b) == multiset{b[0]} + multiset(b[1..]);
        assert multiset(a[1..]) == multiset(a) - multiset{a[0]};
        assert multiset(b[1..]) == multiset(b) - multiset{b[0]};
      }
      SortedTail(a);
      SortedTail(b);
      SortedUnique(a[1..], b[1..]);
      assert a == [a[0]] + a[1..] && b == [b[0]] + b[1..];
    }
  }

  lemma SortedTail(s: seq<Sample>)
    requires Sorted(s) && s != []
    ensures Sorted(s[1..])
  {
    forall x, y | 0 <= x < y < |s| - 1
      ensures s[1..][x] <= s[1..][y]
    {
      assert s[1..][x] == s[x + 1] && s[1..][y] == s[y + 1];
    }
  }

  /** The median as numpy computes it: the middle sample of the sorted window when it has
      an odd number of samples, otherwise the mean of the two middle samples, truncated
      when the result is stored back as an 8-bit sample. */
  function SeqMedian(s: seq<Sample>): (m: Sample)
    requires |s| > 0
    ensures |s| == 1 ==> m == s[0]
  {
    var t := Sort(s);
    SortSorts(s);
    var n := |t|;
    if n % 2 == 1 then t[n / 2] else (t[n / 2 - 1] as int + t[n / 2] as int) / 2
  }

  /** The median lies between the smallest and the largest sample, and for a window with
      an odd number of samples it is one of them. */
  lemma MedianBounds(s: seq<Sample>)
    requires |s| > 0
    ensures SeqMin(s) <= SeqMedian(s) <= SeqMax(s)
    ensures |s| % 2 == 1 ==> SeqMedian(s) in s
  {
    var t := Sort(s);
    SortSorts(s);
    var n := |t|;
    assert t[n / 2] in multiset(s);
    assert t[n / 2] in s;
    if n % 2 == 0 {
      assert t[n / 2 - 1] in multiset(s);
      assert t[n / 2 - 1] in s;
    }
  }

  /** The median is taken from the sorted window: it is the middle element of any
      sorted rearrangement of the window (odd size), or the truncated mean of the two
      middle elements (even size). */
  lemma MedianOfSortedRearrangement(s: seq<Sample>, t: seq<Sample>)
    requires |s| > 0 && Sorted(t) && multiset(t) == multiset(s)
    ensures |t| == |s|
    ensures |s| % 2 == 1 ==> SeqMedian(s) == t[|s| / 2]
    ensures |s| % 2 == 0 ==> SeqMedian(s) == (t[|s| / 2 - 1] as int + t[|s| / 2] as int) / 2
  {
    assert |t| == |multiset(t)| == |multiset(s)| == |s|;
    SortSorts(s);
    SortedUnique(t, Sort(s));
  }

  /** A window whose samples all equal `v` has minimum, maximum and median `v`. */
  lemma ConstantWindow(s: seq<Sample>, v: Sample)
    requires |s| > 0 && forall x :: x in s ==> x == v
    ensures SeqMin(s) == v && SeqMax(s) == v && SeqMedian(s) == v
  {
    MedianBounds(s);
  }
}
