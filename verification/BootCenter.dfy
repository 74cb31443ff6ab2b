/** The windows of the boot-centre acquisition: median by insertion sort, and stability. */
module BootCenter {
  import opened Slices

  const WINDOW: nat := 31
  const SPREAD: int := 3
  const MATCH: int := 2

  // ---- Median -------------------------------------------------------------

  /** Inserts v from the right end, past the larger elements. */
  function Insert(s: seq<int>, v: int): (r: seq<int>)
    ensures |r| == |s| + 1
  {
    var n := |s| - 1;
    if s == [] || s[n] <= v then s + [v] else Insert(s[..n], v) + [s[n]]
  }

  function InsertionSort(s: seq<int>): (r: seq<int>)
    ensures |r| == |s|
  {
    if s == [] then [] else Insert(InsertionSort(s[..|s| - 1]), s[|s| - 1])
  }

  predicate Sorted(s: seq<int>) { forall i, j :: 0 <= i < j < |s| ==> s[i] <= s[j] }

  lemma {:induction false} InsertKeeps(s: seq<int>, v: int)
    ensures multiset(Insert(s, v)) == multiset(s) + multiset{v}
    ensures Sorted(s) ==> Sorted(Insert(s, v))
    ensures forall i :: 0 <= i < |s| + 1 ==> Insert(s, v)[i] == v || Insert(s, v)[i] in s
  {
    var n := |s| - 1;
    if s != [] && s[n] > v {
      InsertKeeps(s[..n], v);
      assert s == s[..n] + [s[n]];
      InsertStep(s, v);
      hide Insert;
      var t := Insert(s[..n], v);
      if Sorted(s) { SortedAppend(t, s[..n], v, s[n]); }
    } else {
      InsertHere(s, v);
      hide Insert;
    }
  }

  lemma SortedAppend(t: seq<int>, front: seq<int>, v: int, last: int)
    requires Sorted(t) && v <= last && Sorted(front + [last])
    requires forall i :: 0 <= i < |t| ==> t[i] == v || t[i] in front
    ensures Sorted(t + [last])
  {
    forall i | 0 <= i < |t| ensures t[i] <= last {
      if t[i] in front {
        var k :| 0 <= k < |front| && front[k] == t[i];
        assert (front + [last])[k] <= (front + [last])[|front|];
      }
    }
  }

  lemma InsertStep(s: seq<int>, v: int)
    requires s != [] && s[|s| - 1] > v
    ensures Insert(s, v) == Insert(s[..|s| - 1], v) + [s[|s| - 1]]
  {
  }

  lemma InsertHere(s: seq<int>, v: int)
    requires s != [] ==> s[|s| - 1] <= v
    ensures Insert(s, v) == s + [v]
  {
  }

  /** The sort behind the median orders a window and loses no sample. */
  lemma {:induction false} SortIsSort(s: seq<int>)
    ensures Sorted(InsertionSort(s)) && multiset(InsertionSort(s)) == multiset(s)
  {
    if s != [] {
      var n := |s| - 1;
      SortIsSort(s[..n]);
      InsertKeeps(InsertionSort(s[..n]), s[n]);
      assert s == s[..n] + [s[n]];
    }
  }

  function Median(s: seq<int>): int
    requires s != []
  {
    InsertionSort(s)[|s| / 2]
  }

  lemma MedianIsSample(s: seq<int>)
    requires s != []
    ensures Median(s) in s
  {
    SortIsSort(s);
    assert InsertionSort(s)[|s| / 2] in multiset(s);
  }

  /** How many samples are at most m, and at least m. */
  function AtMost(s: seq<int>, m: int): nat {
    if s == [] then 0 else AtMost(s[..|s| - 1], m) + if s[|s| - 1] <= m then 1 else 0
  }

  function AtLeast(s: seq<int>, m: int): nat {
    if s == [] then 0 else AtLeast(s[..|s| - 1], m) + if s[|s| - 1] >= m then 1 else 0
  }

  lemma CountsAppend(s: seq<int>, v: int, m: int)
    ensures AtMost(s + [v], m) == AtMost(s, m) + if v <= m then 1 else 0
    ensures AtLeast(s + [v], m) == AtLeast(s, m) + if v >= m then 1 else 0
  {
    assert (s + [v])[..|s|] == s;
  }

  lemma {:induction false} CountsInsert(s: seq<int>, v: int, m: int)
    ensures AtMost(Insert(s, v), m) == AtMost(s, m) + if v <= m then 1 else 0
    ensures AtLeast(Insert(s, v), m) == AtLeast(s, m) + if v >= m then 1 else 0
  {
    var n := |s| - 1;
    if s != [] && s[n] > v {
      CountsInsert(s[..n], v, m);
      InsertStep(s, v);
      CountsAppend(Insert(s[..n], v), s[n], m);
    } else {
      InsertHere(s, v);
      CountsAppend(s, v, m);
    }
  }

  lemma {:induction false} CountsSort(s: seq<int>, m: int)
    ensures AtMost(InsertionSort(s), m) == AtMost(s, m) && AtLeast(InsertionSort(s), m) == AtLeast(s, m)
  {
    if s != [] {
      CountsSort(s[..|s| - 1], m);
      CountsInsert(InsertionSort(s[..|s| - 1]), s[|s| - 1], m);
    }
  }

  /** In an ordered list at least k + 1 elements are at most the k-th, and at least the rest and it are no smaller. */
  lemma {:induction false} CountsSorted(t: seq<int>, m: int, k: nat, n: nat)
    requires n <= |t| && k < |t| && Sorted(t) && m == t[k]
    ensures AtMost(t[..n], m) >= (if n <= k then n else k + 1) && AtLeast(t[..n], m) >= (if n <= k then 0 else n - k)
  {
    if n > 0 {
      CountsSorted(t, m, k, n - 1);
      CountsAppend(t[..n - 1], t[n - 1], m);
      assert t[..n] == t[..n - 1] + [t[n - 1]];
    }
  }

  /** At least half of the samples are at or below the median, and at least half at or above it. */
  lemma MedianIsMiddle(s: seq<int>)
    requires s != []
    ensures AtMost(s, Median(s)) >= |s| / 2 + 1 && AtLeast(s, Median(s)) >= |s| - |s| / 2
  {
    hide InsertionSort, AtMost, AtLeast, Sorted;
    var t := InsertionSort(s);
    SortIsSort(s);
    CountsSort(s, Median(s));
    CountsSorted(t, Median(s), |s| / 2, |t|);
    assert t[..|t|] == t;
  }

  /** mf_median: insertion sort in place on a copy. */
  method ComputeMedian(src: seq<int>) returns (m: int)
    requires src != []
    ensures m == Median(src)
  {
    var tmp := new int[|src|](i requires 0 <= i < |src| => src[i]);
    assert tmp[..1] == [src[0]] == InsertionSort(src[..1]);
    var i := 1;
    while i < |src|
      invariant 1 <= i <= |src|
      invariant tmp[..i] == InsertionSort(src[..i]) && tmp[i..] == src[i..]
    {
      InsertAt(tmp, i);
      assert src[..i + 1][..i] == src[..i];
      i := i + 1;
    }
    assert src[..|src|] == src && tmp[..|src|] == tmp[..];
    m := tmp[|src| / 2];
  }

  /** Insertion puts v behind the last element that is not larger. */
  lemma {:induction false} InsertSplits(s: seq<int>, v: int, j: nat)
    requires j <= |s| && (j > 0 ==> s[j - 1] <= v) && forall k :: j <= k < |s| ==> s[k] > v
    ensures Insert(s, v) == s[..j] + [v] + s[j..]
    decreases |s|
  {
    if j == |s| {
      InsertHere(s, v);
    } else {
      var n := |s| - 1;
      InsertStep(s, v);
      InsertSplits(s[..n], v, j);
      hide Insert;
      assert s[..n][..j] == s[..j] && s[..n][j..] + [s[n]] == s[j..];
      Associates(s[..j] + [v], s[..n][j..], [s[n]]);
    }
  }

  /** The inner loop: moves the element at i down to its place among the first i. */
  method InsertAt(a: array<int>, i: nat)
    requires 1 <= i < a.Length
    modifies a
    ensures a[..i + 1] == Insert(old(a[..i]), old(a[i])) && a[i + 1..] == old(a[i + 1..])
  {
    hide Insert;
    var v := a[i];
    var j := i;
    ghost var before := a[..i];
    while j > 0 && a[j - 1] > v
      invariant 0 <= j <= i
      invariant forall k :: 0 <= k < j ==> a[k] == before[k]
      invariant forall k :: j < k <= i ==> a[k] == before[k - 1]
      invariant forall k :: j <= k < i ==> before[k] > v
      invariant forall k :: i < k < a.Length ==> a[k] == old(a[k])
    {
      a[j] := a[j - 1];
      j := j - 1;
    }
    a[j] := v;
    InsertSplits(before, v, j);
    assert a[..i + 1] == before[..j] + [v] + before[j..];
  }

  // ---- Stability ----------------------------------------------------------

  predicate Near(a: int, b: int, d: int) { -d <= a - b <= d }

  /** All samples of the window are within the spread of each other. */
  predicate Stable(s: seq<int>) {
    forall i, j :: 0 <= i < |s| && 0 <= j < |s| ==> Near(s[i], s[j], SPREAD)
  }

  lemma StableAroundMedian(s: seq<int>, i: nat)
    requires Stable(s) && i < |s|
    ensures Near(s[i], Median(s), SPREAD)
  {
    MedianIsSample(s);
    var k :| 0 <= k < |s| && s[k] == Median(s);
  }

  /** mf_window_stable */
  method WindowStable(samples: seq<int>) returns (stable: bool, median: int)
    requires samples != [] && forall i :: 0 <= i < |samples| ==> 0 <= samples[i] <= 255
    ensures stable == Stable(samples)
    ensures stable ==> median == Median(samples)
  {
    var lo, hi := 255, 0;
    ghost var atLo, atHi := 0, 0;
    var s := 0;
    while s < |samples|
      invariant 0 <= s <= |samples|
      invariant forall i :: 0 <= i < s ==> lo <= samples[i] <= hi
      invariant s > 0 ==> 0 <= atLo < s && samples[atLo] == lo && 0 <= atHi < s && samples[atHi] == hi
      invariant s == 0 ==> lo == 255 && hi == 0
    {
      if samples[s] < lo {
        lo := samples[s];
      }
      if samples[s] > hi {
        hi := samples[s];
      }
      atLo := if samples[s] == lo then s else atLo;
      atHi := if samples[s] == hi then s else atHi;
      s := s + 1;
    }
    if hi - lo > SPREAD {
      assert !Near(samples[atHi], samples[atLo], SPREAD);
      return false, 0;
    }
    median := ComputeMedian(samples);
    stable := true;
  }
}
