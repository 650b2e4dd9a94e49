/**
 * The two-pointer exercises of `leetcode.rs` that rewrite a vector in place:
 * merging two sorted arrays, removing a value, removing duplicates (keeping
 * one or two copies) and rotating. Each method is proved against a function
 * on sequences, and what the exercise promises is proved about that function.
 */
module LeetcodeInPlace {

  import opened Common

  ghost predicate StrictlyIncreasing(s: seq<int>) {
    forall i, j :: 0 <= i < j < |s| ==> s[i] < s[j]
  }

  lemma SortedConcat(a: seq<int>, b: seq<int>)
    requires Sorted(a) && Sorted(b)
    requires a != [] && b != [] ==> a[|a| - 1] <= b[0]
    ensures Sorted(a + b)
  {
    var c := a + b;
    forall i, j | 0 <= i < j < |c| ensures InOrder(c, i, j) {
      if j < |a| {
        SortedAt(a, i, j);
      } else if i >= |a| {
        SortedAt(b, i - |a|, j - |a|);
      } else {
        SortedAt(a, i, |a| - 1);
        SortedAt(b, 0, j - |a|);
      }
    }
  }

  /** Appending an element no smaller than any other keeps a sequence sorted. */
  lemma SortedSnoc(s: seq<int>, x: int)
    requires Sorted(s) && forall i :: 0 <= i < |s| ==> s[i] <= x
    ensures Sorted(s + [x])
  {
    forall i, j | 0 <= i < j < |s| + 1 ensures InOrder(s + [x], i, j) {
      if j < |s| {
        SortedAt(s, i, j);
      }
    }
  }

  // ---------------------------------------------------------------------------
  // 88. Merge Sorted Array
  // ---------------------------------------------------------------------------

  /**
   * The merge of `a[..i]` and `b[..j]` built from the back, as the source
   * does: the larger of the two last elements goes last, and on a tie the
   * element of `b` does.
   */
  function MergedPrefix(a: seq<int>, b: seq<int>, i: nat, j: nat): (r: seq<int>)
    requires i <= |a| && j <= |b|
    ensures |r| == i + j
    decreases i + j
  {
    if j == 0 then a[..i]
    else if i > 0 && a[i - 1] > b[j - 1] then MergedPrefix(a, b, i - 1, j) + [a[i - 1]]
    else MergedPrefix(a, b, i, j - 1) + [b[j - 1]]
  }

  /** The merge of the whole of `a` and `b`. */
  function Merged(a: seq<int>, b: seq<int>): seq<int> {
    MergedPrefix(a, b, |a|, |b|)
  }

  /** The merge holds exactly the elements of both prefixes. */
  lemma {:induction false} MergedPermutation(a: seq<int>, b: seq<int>, i: nat, j: nat)
    requires i <= |a| && j <= |b|
    ensures multiset(MergedPrefix(a, b, i, j)) == multiset(a[..i]) + multiset(b[..j])
    decreases i + j
  {
    if j > 0 {
      assert b[..j] == b[..j - 1] + [b[j - 1]];
      if i > 0 && a[i - 1] > b[j - 1] {
        MergedPermutation(a, b, i - 1, j);
        assert a[..i] == a[..i - 1] + [a[i - 1]];
      } else {
        MergedPermutation(a, b, i, j - 1);
      }
    }
  }

  /** Every merged element is bounded by a bound on the last elements of both sorted prefixes. */
  lemma MergedBounded(a: seq<int>, b: seq<int>, i: nat, j: nat, x: int)
    requires i <= |a| && j <= |b|
    requires Sorted(a) && Sorted(b)
    requires i > 0 ==> a[i - 1] <= x
    requires j > 0 ==> b[j - 1] <= x
    ensures forall p :: 0 <= p < |MergedPrefix(a, b, i, j)| ==> MergedPrefix(a, b, i, j)[p] <= x
  {
    MergedPermutation(a, b, i, j);
    var m := MergedPrefix(a, b, i, j);
    forall p | 0 <= p < |m| ensures m[p] <= x {
      assert m[p] in multiset(a[..i]) + multiset(b[..j]);
      if m[p] in a[..i] {
        var q :| 0 <= q < i && a[q] == m[p];
        SortedAt(a, q, i - 1);
      } else {
        var q :| 0 <= q < j && b[q] == m[p];
        SortedAt(b, q, j - 1);
      }
    }
  }

  /** Merging two sorted prefixes gives a sorted sequence. */
  lemma {:induction false} MergedSorted(a: seq<int>, b: seq<int>, i: nat, j: nat)
    requires i <= |a| && j <= |b|
    requires Sorted(a) && Sorted(b)
    ensures Sorted(MergedPrefix(a, b, i, j))
    decreases i + j
  {
    if j == 0 {
      assert Sorted(a[..i]) by {
        forall p, q | 0 <= p < q < i ensures InOrder(a[..i], p, q) {
          SortedAt(a, p, q);
        }
      }
    } else if i > 0 && a[i - 1] > b[j - 1] {
      MergedSorted(a, b, i - 1, j);
      if i >= 2 {
        SortedAt(a, i - 2, i - 1);
      }
      MergedBounded(a, b, i - 1, j, a[i - 1]);
      SortedSnoc(MergedPrefix(a, b, i - 1, j), a[i - 1]);
    } else {
      MergedSorted(a, b, i, j - 1);
      if j >= 2 {
        SortedAt(b, j - 2, j - 1);
      }
      MergedBounded(a, b, i, j - 1, b[j - 1]);
      SortedSnoc(MergedPrefix(a, b, i, j - 1), b[j - 1]);
    }
  }

  /**
   * Merges `nums2[..n]` into `nums1`, whose first `m` elements hold the other
   * run, filling `nums1[..m + n]` from the back.
   */
  method Merge(nums1: array<int>, m: int, nums2: array<int>, n: int)
    requires 0 <= m && 0 <= n && m + n <= nums1.Length && n <= nums2.Length
    requires nums1 != nums2
    modifies nums1
    ensures nums1[..m + n] == Merged(old(nums1[..m]), nums2[..n])
    ensures nums1[m + n..] == old(nums1[m + n..])
  {
    ghost var o := nums1[..];
    ghost var a := nums1[..m];
    ghost var b := nums2[..n];
    ghost var placed: seq<int> := [];
    var i, j, k := m, n, m + n;
    while j > 0
      invariant 0 <= i <= m && 0 <= j <= n && k == i + j && |placed| == m + n - k
      invariant nums1[..] == Layout(o, k, m + n, placed)
      invariant Merged(a, b) == MergedPrefix(a, b, i, j) + placed
      decreases k
    {
      ghost var i', j', y := MergeLoopStep(a, b, i, j, placed);
      ghost var before := nums1[..];
      assert nums2[j - 1] == b[j - 1];
      if i > 0 {
        ArrayStateAt(o, k, m + n, placed, i - 1);
        assert nums1[i - 1] == before[i - 1] == a[i - 1];
      }
      k := k - 1;
      var x;
      if i > 0 && nums1[i - 1] > nums2[j - 1] {
        x := nums1[i - 1];
        i := i - 1;
      } else {
        x := nums2[j - 1];
        j := j - 1;
      }
      assert i == i' && j == j' && x == y;
      nums1[k] := x;
      ArrayStateWrite(o, k + 1, m + n, placed, x);
      assert nums1[..] == before[k := x];
      placed := [x] + placed;
    }
    ArrayStateFinal(o, k, m + n, placed);
  }

  /** The array during the merge: untouched up to `k`, then the placed suffix, then untouched from `t`. */
  function Layout(o: seq<int>, k: nat, t: nat, placed: seq<int>): seq<int>
    requires k <= t <= |o|
  {
    o[..k] + placed + o[t..]
  }

  lemma ArrayStateAt(o: seq<int>, k: nat, t: nat, placed: seq<int>, p: nat)
    requires p < k <= t <= |o|
    ensures Layout(o, k, t, placed)[p] == o[p]
  {
  }

  /** Writing just below the placed suffix extends it by one element. */
  lemma ArrayStateWrite(o: seq<int>, k: nat, t: nat, placed: seq<int>, x: int)
    requires 0 < k <= t <= |o|
    ensures Layout(o, k, t, placed)[k - 1 := x] == Layout(o, k - 1, t, [x] + placed)
  {
    assert o[..k] == o[..k - 1] + [o[k - 1]];
  }

  /** When the placed suffix reaches back to `k`, the array splits at `t` into it and the tail. */
  lemma ArrayStateFinal(o: seq<int>, k: nat, t: nat, placed: seq<int>)
    requires k <= t <= |o| && |placed| == t - k
    ensures Layout(o, k, t, placed)[..t] == o[..k] + placed
    ensures Layout(o, k, t, placed)[t..] == o[t..]
  {
  }

  /**
   * One iteration of the merge loop: the larger of `a[i - 1]` and `b[j - 1]`
   * (the latter on a tie) moves to the front of the placed suffix.
   */
  lemma MergeLoopStep(a: seq<int>, b: seq<int>, i: nat, j: nat, placed: seq<int>)
      returns (i': nat, j': nat, x: int)
    requires i <= |a| && 0 < j <= |b|
    requires Merged(a, b) == MergedPrefix(a, b, i, j) + placed
    ensures i > 0 && a[i - 1] > b[j - 1] ==> i' == i - 1 && j' == j && x == a[i - 1]
    ensures !(i > 0 && a[i - 1] > b[j - 1]) ==> i' == i && j' == j - 1 && x == b[j - 1]
    ensures i' <= |a| && j' <= |b| && Merged(a, b) == MergedPrefix(a, b, i', j') + ([x] + placed)
  {
    if i > 0 && a[i - 1] > b[j - 1] {
      i', j', x := i - 1, j, a[i - 1];
    } else {
      i', j', x := i, j - 1, b[j - 1];
    }
    var rest := MergedPrefix(a, b, i', j');
    assert MergedPrefix(a, b, i, j) == rest + [x];
    assert (rest + [x]) + placed == rest + ([x] + placed);
  }

  /**
   * When both runs are sorted, the merge fills `nums1[..m + n]` with a sorted
   * permutation of the two runs.
   */
  lemma MergeSortsBothRuns(a: seq<int>, b: seq<int>)
    requires Sorted(a) && Sorted(b)
    ensures Sorted(Merged(a, b))
    ensures multiset(Merged(a, b)) == multiset(a) + multiset(b)
    ensures |Merged(a, b)| == |a| + |b|
  {
    MergedSorted(a, b, |a|, |b|);
    MergedPermutation(a, b, |a|, |b|);
    assert a[..|a|] == a && b[..|b|] == b;
    assert |multiset(Merged(a, b))| == |Merged(a, b)|;
  }

  // ---------------------------------------------------------------------------
  // 27. Remove Element
  // ---------------------------------------------------------------------------

  /** `s[..n]` with every occurrence of `v` removed, the rest in its original order. */
  function WithoutPrefix(s: seq<int>, v: int, n: nat): seq<int>
    requires n <= |s|
  {
    if n == 0 then []
    else WithoutPrefix(s, v, n - 1) + (if s[n - 1] == v then [] else [s[n - 1]])
  }

  function Without(s: seq<int>, v: int): seq<int> {
    WithoutPrefix(s, v, |s|)
  }

  /**
   * Removing `v` keeps every other value `y` as often as it occurs and drops
   * all copies of `v`.
   */
  lemma {:induction false} WithoutCount(s: seq<int>, v: int, n: nat, y: int)
    requires n <= |s|
    ensures multiset(WithoutPrefix(s, v, n))[y] == if y == v then 0 else multiset(s[..n])[y]
  {
    if n > 0 {
      WithoutCount(s, v, n - 1, y);
      var x := s[n - 1];
      assert s[..n] == s[..n - 1] + [x];
      assert multiset(s[..n]) == multiset(s[..n - 1]) + multiset{x};
    }
  }

  /** Removing `v` shortens the prefix by the number of `v`s in it. */
  lemma {:induction false} WithoutLength(s: seq<int>, v: int, n: nat)
    requires n <= |s|
    ensures |WithoutPrefix(s, v, n)| == n - multiset(s[..n])[v]
  {
    if n > 0 {
      WithoutLength(s, v, n - 1);
      var x := s[n - 1];
      assert s[..n] == s[..n - 1] + [x];
      assert multiset(s[..n]) == multiset(s[..n - 1]) + multiset{x};
    }
  }

  /** The whole-vector form: no `v` is left and every other value keeps its count. */
  lemma WithoutSpec(s: seq<int>, v: int)
    ensures v !in Without(s, v)
    ensures forall y :: y != v ==> multiset(Without(s, v))[y] == multiset(s)[y]
    ensures |Without(s, v)| == |s| - multiset(s)[v]
  {
    assert s[..|s|] == s;
    WithoutCount(s, v, |s|, v);
    forall y | y != v ensures multiset(Without(s, v))[y] == multiset(s)[y] {
      WithoutCount(s, v, |s|, y);
    }
    WithoutLength(s, v, |s|);
  }

  /** Copies every element different from `val` to the front; returns how many there are. */
  method RemoveElement(nums: array<int>, val: int) returns (r: int)
    modifies nums
    ensures 0 <= r <= nums.Length
    ensures nums[..r] == Without(old(nums[..]), val)
    ensures nums[r..] == old(nums[r..])
  {
    ghost var a := nums[..];
    var slow := 0;
    for fast := 0 to nums.Length
      invariant 0 <= slow <= fast
      invariant nums[..slow] == WithoutPrefix(a, val, fast)
      invariant forall p :: slow <= p < nums.Length ==> nums[p] == a[p]
    {
      ghost var kept := nums[..slow];
      if nums[fast] != val {
        nums[slow] := nums[fast];
        assert nums[..slow + 1] == kept + [a[fast]];
        slow := slow + 1;
      }
    }
    assert nums[slow..] == a[slow..];
    r := slow;
  }

  // ---------------------------------------------------------------------------
  // 26. Remove Duplicates from Sorted Array
  // ---------------------------------------------------------------------------

  /** `s[..n]` with each run of equal neighbours collapsed to one element. */
  function DedupPrefix(s: seq<int>, n: nat): seq<int>
    requires n <= |s|
  {
    if n == 0 then []
    else if n >= 2 && s[n - 2] == s[n - 1] then DedupPrefix(s, n - 1)
    else DedupPrefix(s, n - 1) + [s[n - 1]]
  }

  function Dedup(s: seq<int>): seq<int> {
    DedupPrefix(s, |s|)
  }

  lemma {:induction false} DedupLast(s: seq<int>, n: nat)
    requires 0 < n <= |s|
    ensures DedupPrefix(s, n) != [] && DedupPrefix(s, n)[|DedupPrefix(s, n)| - 1] == s[n - 1]
  {
    if n >= 2 && s[n - 2] == s[n - 1] {
      DedupLast(s, n - 1);
    }
  }

  /** The distinct values of a sequence, as a set. */
  function Values(s: seq<int>): set<int> {
    set x | x in s
  }

  lemma {:induction false} DistinctValues(s: seq<int>)
    requires StrictlyIncreasing(s)
    ensures |Values(s)| == |s|
  {
    if s != [] {
      var t := s[..|s| - 1];
      var x := s[|s| - 1];
      assert Values(s) == Values(t) + {x};
      assert x !in Values(t);
      DistinctValues(t);
    }
  }

  /**
   * On sorted input the collapsed prefix is strictly increasing and holds
   * exactly the prefix's values.
   */
  lemma {:induction false} DedupPrefixOfSorted(s: seq<int>, n: nat)
    requires n <= |s| && Sorted(s)
    ensures StrictlyIncreasing(DedupPrefix(s, n))
    ensures Values(DedupPrefix(s, n)) == Values(s[..n])
  {
    if n > 0 {
      var x := s[n - 1];
      var d := DedupPrefix(s, n - 1);
      DedupPrefixOfSorted(s, n - 1);
      assert Values(s[..n]) == Values(s[..n - 1]) + {x} by {
        assert s[..n] == s[..n - 1] + [x];
      }
      if n >= 2 && s[n - 2] == x {
        assert x in Values(s[..n - 1]);
      } else {
        assert Values(d + [x]) == Values(d) + {x};
        if n >= 2 {
          DedupLast(s, n - 1);
          assert d[|d| - 1] < x by {
            SortedAt(s, n - 2, n - 1);
          }
        }
        forall i, j | 0 <= i < j < |d| + 1 ensures (d + [x])[i] < (d + [x])[j] {
          if j == |d| {
            assert d[i] <= d[|d| - 1];
          }
        }
      }
    }
  }

  /**
   * On sorted input the deduplicated sequence is strictly increasing, holds
   * exactly the input's values, and has one element per distinct value.
   */
  lemma DedupOfSorted(s: seq<int>)
    requires Sorted(s)
    ensures StrictlyIncreasing(Dedup(s))
    ensures Values(Dedup(s)) == Values(s)
    ensures |Dedup(s)| == |Values(s)|
  {
    DedupPrefixOfSorted(s, |s|);
    assert s[..|s|] == s;
    DistinctValues(Dedup(s));
  }

  /** Keeps the first element of each run of equal neighbours; returns how many are kept. */
  method RemoveDuplicates(nums: array<int>) returns (r: int)
    modifies nums
    ensures 0 <= r <= nums.Length
    ensures nums[..r] == Dedup(old(nums[..]))
    ensures nums[r..] == old(nums[r..])
  {
    if nums.Length == 0 {
      return 0;
    }
    ghost var a := nums[..];
    var slow := 0;
    for fast := 1 to nums.Length
      invariant 0 <= slow < fast
      invariant nums[..slow + 1] == DedupPrefix(a, fast)
      invariant forall p :: slow < p < nums.Length ==> nums[p] == a[p]
    {
      DedupLast(a, fast);
      ghost var kept := nums[..slow + 1];
      assert nums[slow] == kept[slow];
      if nums[fast] != nums[slow] {
        slow := slow + 1;
        nums[slow] := nums[fast];
        assert nums[..slow + 1] == kept + [a[fast]];
      }
    }
    assert nums[slow + 1..] == a[slow + 1..];
    r := slow + 1;
  }

  // ---------------------------------------------------------------------------
  // 80. Remove Duplicates from Sorted Array II
  // ---------------------------------------------------------------------------

  /** `s[..n]` scanned left to right, dropping an element equal to the last-but-one kept one. */
  function Keep2Prefix(s: seq<int>, n: nat): (k: seq<int>)
    requires n <= |s|
    ensures |k| <= n
  {
    if n == 0 then []
    else
      var kept := Keep2Prefix(s, n - 1);
      if |kept| >= 2 && kept[|kept| - 2] == s[n - 1] then kept else kept + [s[n - 1]]
  }

  function Keep2(s: seq<int>): seq<int> {
    Keep2Prefix(s, |s|)
  }

  /** Prefixes of length at most two are kept whole, as the early return of the source does. */
  lemma Keep2Short(s: seq<int>, n: nat)
    requires n <= |s| && n <= 2
    ensures Keep2Prefix(s, n) == s[..n]
  {
    if n == 2 {
      assert Keep2Prefix(s, 1) == [s[0]];
    }
  }

  /** In a sorted sequence bounded by `x`, two copies of `x` must sit at the end. */
  lemma TwoCopiesAtEnd(k: seq<int>, x: int)
    requires Sorted(k) && (forall i :: 0 <= i < |k| ==> k[i] <= x)
    requires multiset(k)[x] >= 2
    ensures |k| >= 2 && k[|k| - 2] == x
  {
    assert |k| >= 2 by {
      assert multiset(k)[x] <= |multiset(k)|;
    }
    var front := k[..|k| - 1];
    assert k == front + [k[|k| - 1]];
    assert x in front;
    var j :| 0 <= j < |front| && front[j] == x;
    SortedAt(k, j, |k| - 2);
  }

  /** A count capped at two. */
  function AtMostTwo(c: nat): nat {
    if c < 2 then c else 2
  }

  /** On sorted input the kept prefix is sorted and ends with the prefix's last element. */
  lemma {:induction false} Keep2PrefixSorted(s: seq<int>, n: nat)
    requires n <= |s| && Sorted(s)
    ensures Sorted(Keep2Prefix(s, n))
    ensures n > 0 ==> Keep2Prefix(s, n) != [] && Keep2Prefix(s, n)[|Keep2Prefix(s, n)| - 1] == s[n - 1]
    ensures forall i :: 0 <= i < |Keep2Prefix(s, n)| ==> Keep2Prefix(s, n)[i] <= s[n - 1]
  {
    if n > 0 {
      var x := s[n - 1];
      Keep2PrefixSorted(s, n - 1);
      var kept := Keep2Prefix(s, n - 1);
      if n >= 2 {
        SortedAt(s, n - 2, n - 1);
      }
      if |kept| >= 2 && kept[|kept| - 2] == x {
        SortedAt(kept, |kept| - 2, |kept| - 1);
      } else {
        SortedSnoc(kept, x);
      }
    }
  }

  /** The last two kept elements of a sorted prefix are in order, and the last is the prefix's. */
  lemma Keep2PrefixTail(s: seq<int>, n: nat)
    requires 1 <= n <= |s| && Sorted(s)
    ensures var k := Keep2Prefix(s, n);
      k != [] && k[|k| - 1] == s[n - 1] && (|k| >= 2 ==> k[|k| - 2] <= k[|k| - 1])
  {
    Keep2PrefixSorted(s, n);
  }

  /** A value at least as large as the whole sorted prefix, kept twice, sits at the end. */
  lemma Keep2PrefixTwoAtEnd(s: seq<int>, n: nat, x: int)
    requires 1 <= n <= |s| && Sorted(s) && s[n - 1] <= x
    requires multiset(Keep2Prefix(s, n))[x] >= 2
    ensures var k := Keep2Prefix(s, n); |k| >= 2 && k[|k| - 2] == x
  {
    Keep2PrefixSorted(s, n);
    TwoCopiesAtEnd(Keep2Prefix(s, n), x);
  }

  lemma LastTwoCount(k: seq<int>, x: int)
    requires |k| >= 2 && k[|k| - 2] == x && k[|k| - 1] == x
    ensures multiset(k)[x] >= 2
  {
    assert k == k[..|k| - 2] + [x, x];
  }

  /** In the sorted kept prefix, a dropped element already occurs twice. */
  lemma Keep2DropHasTwo(s: seq<int>, n: nat)
    requires 2 <= n <= |s| && Sorted(s)
    requires var kept := Keep2Prefix(s, n - 1); |kept| >= 2 && kept[|kept| - 2] == s[n - 1]
    ensures multiset(Keep2Prefix(s, n - 1))[s[n - 1]] >= 2
  {
    Keep2PrefixTail(s, n - 1);
    SortedAt(s, n - 2, n - 1);
    LastTwoCount(Keep2Prefix(s, n - 1), s[n - 1]);
  }

  /** In the sorted kept prefix, a kept element occurs at most once before. */
  lemma Keep2KeepHasFew(s: seq<int>, n: nat)
    requires 1 <= n <= |s| && Sorted(s)
    requires var kept := Keep2Prefix(s, n - 1); !(|kept| >= 2 && kept[|kept| - 2] == s[n - 1])
    requires multiset(Keep2Prefix(s, n - 1))[s[n - 1]] == AtMostTwo(multiset(s[..n - 1])[s[n - 1]])
    ensures multiset(s[..n - 1])[s[n - 1]] <= 1
  {
    if multiset(s[..n - 1])[s[n - 1]] >= 2 {
      SortedAt(s, n - 2, n - 1);
      Keep2PrefixTwoAtEnd(s, n - 1, s[n - 1]);
      assert false;
    }
  }

  /** How one more input element changes the count of `v` in the input prefix and in the kept prefix. */
  lemma Keep2Step(s: seq<int>, n: nat, v: int)
    requires 0 < n <= |s|
    ensures multiset(s[..n])[v] == multiset(s[..n - 1])[v] + (if v == s[n - 1] then 1 else 0)
    ensures var kept := Keep2Prefix(s, n - 1);
      var dropped := |kept| >= 2 && kept[|kept| - 2] == s[n - 1];
      multiset(Keep2Prefix(s, n))[v] == multiset(kept)[v] + (if dropped || v != s[n - 1] then 0 else 1)
  {
    assert s[..n] == s[..n - 1] + [s[n - 1]];
  }

  /** The step of the count argument for the value just read. */
  lemma Keep2CountAtLast(s: seq<int>, n: nat)
    requires 0 < n <= |s| && Sorted(s)
    requires multiset(Keep2Prefix(s, n - 1))[s[n - 1]] == AtMostTwo(multiset(s[..n - 1])[s[n - 1]])
    ensures multiset(Keep2Prefix(s, n))[s[n - 1]] == AtMostTwo(multiset(s[..n])[s[n - 1]])
  {
    var kept := Keep2Prefix(s, n - 1);
    Keep2Step(s, n, s[n - 1]);
    if |kept| >= 2 && kept[|kept| - 2] == s[n - 1] {
      Keep2DropHasTwo(s, n);
    } else {
      Keep2KeepHasFew(s, n);
    }
  }

  /** On sorted input the kept prefix holds each value `v` of the prefix at most twice. */
  lemma {:induction false} Keep2PrefixCount(s: seq<int>, n: nat, v: int)
    requires n <= |s| && Sorted(s)
    ensures multiset(Keep2Prefix(s, n))[v] == AtMostTwo(multiset(s[..n])[v])
  {
    if n > 0 {
      Keep2PrefixCount(s, n - 1, v);
      if v == s[n - 1] {
        Keep2CountAtLast(s, n);
      } else {
        Keep2Step(s, n, v);
      }
    }
  }

  lemma Keep2OfSorted(s: seq<int>)
    requires Sorted(s)
    ensures Sorted(Keep2(s))
    ensures forall v :: multiset(Keep2(s))[v] == AtMostTwo(multiset(s)[v])
  {
    Keep2PrefixSorted(s, |s|);
    assert s[..|s|] == s;
    forall v ensures multiset(Keep2(s))[v] == AtMostTwo(multiset(s)[v]) {
      Keep2PrefixCount(s, |s|, v);
    }
  }

  /** Keeps at most two copies of each run, as `Keep2`; returns how many are kept. */
  method RemoveDuplicatesII(nums: array<int>) returns (r: int)
    modifies nums
    ensures 0 <= r <= nums.Length
    ensures nums[..r] == Keep2(old(nums[..]))
    ensures nums[r..] == old(nums[r..])
    ensures nums.Length <= 2 ==> r == nums.Length && nums[..] == old(nums[..])
  {
    if nums.Length <= 2 {
      Keep2Short(nums[..], nums.Length);
      return nums.Length;
    }
    ghost var a := nums[..];
    var slow := 2;
    Keep2Short(a, 2);
    for fast := 2 to nums.Length
      invariant 2 <= slow <= fast
      invariant nums[..slow] == Keep2Prefix(a, fast)
      invariant forall p :: slow <= p < nums.Length ==> nums[p] == a[p]
    {
      ghost var kept := nums[..slow];
      assert nums[slow - 2] == kept[slow - 2];
      if nums[fast] != nums[slow - 2] {
        nums[slow] := nums[fast];
        assert nums[..slow + 1] == kept + [a[fast]];
        slow := slow + 1;
      }
    }
    assert nums[slow..] == a[slow..];
    r := slow;
  }

  // ---------------------------------------------------------------------------
  // 189. Rotate Array
  // ---------------------------------------------------------------------------

  function Reversed(s: seq<int>): (r: seq<int>)
    ensures |r| == |s|
  {
    if s == [] then [] else Reversed(s[1..]) + [s[0]]
  }

  lemma {:induction false} ReversedAt(s: seq<int>, i: nat)
    requires i < |s|
    ensures Reversed(s)[i] == s[|s| - 1 - i]
  {
    if i < |s| - 1 {
      ReversedAt(s[1..], i);
    }
  }

  lemma ReversedTwice(s: seq<int>)
    ensures Reversed(Reversed(s)) == s
  {
    forall i | 0 <= i < |s| ensures Reversed(Reversed(s))[i] == s[i] {
      ReversedAt(Reversed(s), i);
      ReversedAt(s, |s| - 1 - i);
    }
  }

  lemma ReversedAppend(a: seq<int>, b: seq<int>)
    ensures Reversed(a + b) == Reversed(b) + Reversed(a)
  {
    var l := Reversed(a + b);
    var r := Reversed(b) + Reversed(a);
    forall i | 0 <= i < |l| ensures l[i] == r[i] {
      ReversedAt(a + b, i);
      if i < |b| {
        ReversedAt(b, i);
      } else {
        ReversedAt(a, i - |b|);
      }
    }
  }

  /** Element `p` of `s` once `[lo, hi)` is mirrored. */
  function Mirrored(s: seq<int>, lo: int, hi: int, p: int): int
    requires 0 <= lo <= hi <= |s| && 0 <= p < |s|
  {
    if lo <= p < hi then s[lo + hi - 1 - p] else s[p]
  }

  /** Element `p` of `s` once only the outer parts `[lo, i)` and `(j, hi)` are mirrored. */
  function PartlyMirrored(s: seq<int>, lo: int, hi: int, i: int, j: int, p: int): int
    requires 0 <= lo <= i <= hi <= |s| && lo - 1 <= j < hi && 0 <= p < |s|
  {
    if lo <= p < i || j < p < hi then s[lo + hi - 1 - p] else s[p]
  }

  /** `s` with the slice `[lo, hi)` reversed. */
  function ReversedIn(s: seq<int>, lo: int, hi: int): seq<int>
    requires 0 <= lo <= hi <= |s|
  {
    s[..lo] + Reversed(s[lo..hi]) + s[hi..]
  }

  /** Reverses `a[lo..hi]` in place by swapping from both ends. */
  method ReverseRange(a: array<int>, lo: int, hi: int)
    requires 0 <= lo <= hi <= a.Length
    modifies a
    ensures a[..] == ReversedIn(old(a[..]), lo, hi)
  {
    ghost var s := a[..];
    var i, j := lo, hi - 1;
    while i < j
      invariant lo <= i <= hi && lo - 1 <= j < hi && i - lo == hi - 1 - j && i <= j + 1
      invariant forall p :: 0 <= p < a.Length ==> a[p] == PartlyMirrored(s, lo, hi, i, j, p)
    {
      a[i], a[j] := a[j], a[i];
      i, j := i + 1, j - 1;
    }
    forall p | 0 <= p < a.Length ensures a[..][p] == Mirrored(s, lo, hi, p) {
      assert a[p] == PartlyMirrored(s, lo, hi, i, j, p);
    }
    ReversedRangeFromIndices(s, a[..], lo, hi);
  }

  /** A sequence that mirrors `s` on `[lo, hi)` and agrees with it elsewhere. */
  lemma ReversedRangeFromIndices(s: seq<int>, t: seq<int>, lo: int, hi: int)
    requires 0 <= lo <= hi <= |s| == |t|
    requires forall p :: 0 <= p < |t| ==> t[p] == Mirrored(s, lo, hi, p)
    ensures t == ReversedIn(s, lo, hi)
  {
    var r := s[..lo] + Reversed(s[lo..hi]) + s[hi..];
    forall p | 0 <= p < |t| ensures t[p] == r[p] {
      if lo <= p < hi {
        ReversedAt(s[lo..hi], p - lo);
        assert r[p] == Reversed(s[lo..hi])[p - lo];
      } else if p >= hi {
        assert r[p] == s[hi..][p - hi];
      }
    }
  }

  /** Rust's `k as usize` on an `i32`: negative values wrap around modulo 2^64. */
  function UsizeOf(k: int): nat
    requires -0x8000_0000 <= k < 0x8000_0000
  {
    if k >= 0 then k else k + 0x1_0000_0000_0000_0000
  }

  /** `s` rotated right by `r` places. */
  function RotatedRight(s: seq<int>, r: nat): seq<int>
    requires r <= |s|
  {
    s[|s| - r..] + s[..|s| - r]
  }

  /** Each element moves `r` places to the right, wrapping around; nothing is lost. */
  lemma RotatedRightAt(s: seq<int>, r: nat, i: nat)
    requires r < |s| && i < |s|
    ensures |RotatedRight(s, r)| == |s|
    ensures RotatedRight(s, r)[(i + r) % |s|] == s[i]
    ensures multiset(RotatedRight(s, r)) == multiset(s)
  {
    var n := |s|;
    var t := RotatedRight(s, r);
    if i + r < n {
      ModOfBounded(i + r, n, 0);
      assert t[i + r] == s[..n - r][i];
    } else {
      ModOfBounded(i + r, n, 1);
      assert t[i + r - n] == s[n - r..][i + r - n];
    }
    assert multiset(t) == multiset(s) by {
      assert s == s[..n - r] + s[n - r..];
    }
  }

  lemma ReversedInWhole(s: seq<int>)
    ensures ReversedIn(s, 0, |s|) == Reversed(s)
  {
    assert s[..0] == [] && s[0..|s|] == s && s[|s|..] == [];
  }

  lemma ReversedInPrefix(s: seq<int>, r: nat)
    requires r <= |s|
    ensures ReversedIn(s, 0, r) == Reversed(s[..r]) + s[r..]
  {
    assert s[..0] == [] && s[0..r] == s[..r];
  }

  lemma ReversedInSuffix(s: seq<int>, r: nat)
    requires r <= |s|
    ensures ReversedIn(s, r, |s|) == s[..r] + Reversed(s[r..])
  {
    assert s[r..|s|] == s[r..] && s[|s|..] == [];
  }

  /** Reversing the whole, then the first `r` and then the rest rotates right by `r`. */
  lemma ReversalsRotate(s: seq<int>, r: nat)
    requires r <= |s|
    ensures var n := |s|;
      ReversedIn(ReversedIn(ReversedIn(s, 0, n), 0, r), r, n) == RotatedRight(s, r)
  {
    var n := |s|;
    var t := ReversedIn(s, 0, n);
    ReversedInWhole(s);
    var u := ReversedIn(t, 0, r);
    ReversedInPrefix(t, r);
    ReversedInSuffix(u, r);
    assert u[..r] == Reversed(t[..r]);
    assert u[r..] == t[r..];
    assert s == s[..n - r] + s[n - r..];
    ReversedAppend(s[..n - r], s[n - r..]);
    assert t[..r] == Reversed(s[n - r..]);
    assert t[r..] == Reversed(s[..n - r]);
    ReversedTwice(s[n - r..]);
    ReversedTwice(s[..n - r]);
  }

  lemma {:induction false} MulNonneg(a: int, b: int)
    ensures a >= 0 && b >= 0 ==> a * b >= 0
    decreases if a < 0 then 0 else a
  {
    if a > 0 {
      MulNonneg(a - 1, b);
      assert a * b == (a - 1) * b + b;
    }
  }

  /** The remainder of `x` by `n` when `x` lies in the `q`-th block of `n`. */
  lemma ModOfBounded(x: int, n: int, q: int)
    requires n > 0 && q * n <= x < q * n + n
    ensures x % n == x - q * n
  {
    var q0 := x / n;
    assert x == q0 * n + x % n;
    MulNonneg(q0 - q - 1, n);
    assert q0 * n == (q0 - q - 1) * n + q * n + n;
    MulNonneg(q - q0 - 1, n);
    assert q * n == (q - q0 - 1) * n + q0 * n + n;
  }

  /** Rotating by `k` and by `k % n` is the same, for non-negative `k`. */
  lemma ModShift(i: nat, k: nat, n: nat)
    requires n > 0
    ensures (i + k) % n == (i + k % n) % n
  {
    var q := k / n;
    var r := k % n;
    assert k == q * n + r;
    var q2 := (i + r) / n;
    assert i + r == q2 * n + (i + r) % n;
    assert (q + q2) * n == q * n + q2 * n;
    ModOfBounded(i + k, n, q + q2);
  }

  /**
   * Rotates right by `k` places with three reversals. `k as usize % n` panics
   * when the vector is empty, hence the precondition.
   */
  method Rotate(nums: array<int>, k: int)
    requires nums.Length > 0
    requires -0x8000_0000 <= k < 0x8000_0000
    modifies nums
    ensures nums[..] == RotatedRight(old(nums[..]), UsizeOf(k) % nums.Length)
  {
    ghost var s := nums[..];
    var n := nums.Length;
    var r := UsizeOf(k) % n;
    ReverseRange(nums, 0, n);
    ReverseRange(nums, 0, r);
    ReverseRange(nums, r, n);
    ReversalsRotate(s, r);
  }

  /**
   * Element `i` ends up at `(i + k as usize) % n`, which for non-negative `k`
   * is `(i + k) % n`, and the result is a permutation of the input.
   */
  lemma RotateMovesEachElement(s: seq<int>, k: int, i: nat)
    requires -0x8000_0000 <= k < 0x8000_0000 && i < |s|
    ensures var t := RotatedRight(s, UsizeOf(k) % |s|);
      t[(i + UsizeOf(k)) % |s|] == s[i] && multiset(t) == multiset(s)
    ensures k >= 0 ==> (i + UsizeOf(k)) % |s| == (i + k) % |s|
  {
    RotatedRightAt(s, UsizeOf(k) % |s|, i);
    ModShift(i, UsizeOf(k), |s|);
  }
}
