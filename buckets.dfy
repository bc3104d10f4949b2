/**
 * One pass of American flag sort over a work item, shared by the string and
 * the int variants: count the digit of every key in the range, turn the
 * counts into bucket starts (pushing a work item for every bucket that still
 * needs sorting), copy the starts into the cursor table, permute the range in
 * place so that every key lands in its bucket, and clear both tables.
 *
 * The pass is generic over the key type T and a bucket function b: the count
 * slot of a key at the current depth (for strings CharAt + 1, for ints the
 * byte itself). The tables have nb + 1 entries, nb being the number of slots.
 */
module Buckets {

  /** A pending range a[lo..hi] whose keys agree on their digits before depth d. */
  datatype WorkItem = WorkItem(lo: int, hi: int, d: nat)

  // ---------------------------------------------------------------------
  // Counting keys by bucket
  // ---------------------------------------------------------------------

  /** Every key of s has a slot in 0..nb-1. */
  ghost predicate SlotsIn<T>(s: seq<T>, b: T -> int, nb: nat)
  {
    forall i :: 0 <= i < |s| ==> 0 <= b(s[i]) < nb
  }

  /** Number of keys of s in bucket c. */
  function Occ<T>(s: seq<T>, b: T -> int, c: int): (n: nat)
    ensures n <= |s|
  {
    if s == [] then 0
    else Occ(s[..|s| - 1], b, c) + (if b(s[|s| - 1]) == c then 1 else 0)
  }

  /** Number of keys of s in a bucket below c. */
  function Before<T>(s: seq<T>, b: T -> int, c: int): (n: nat)
    ensures n <= |s|
  {
    if s == [] then 0
    else Before(s[..|s| - 1], b, c) + (if b(s[|s| - 1]) < c then 1 else 0)
  }

  lemma {:induction false} OccConcat<T>(s: seq<T>, t: seq<T>, b: T -> int, c: int)
    ensures Occ(s + t, b, c) == Occ(s, b, c) + Occ(t, b, c)
    decreases |t|
  {
    if t == [] {
      assert s + t == s;
    } else {
      assert (s + t)[..|s + t| - 1] == s + t[..|t| - 1];
      OccConcat(s, t[..|t| - 1], b, c);
    }
  }

  /** Keys of s all in bucket c: s contributes |s| to that bucket. */
  lemma {:induction false} OccUniform<T>(s: seq<T>, b: T -> int, c: int)
    requires forall i :: 0 <= i < |s| ==> b(s[i]) == c
    ensures Occ(s, b, c) == |s|
  {
    if s != [] {
      OccUniform(s[..|s| - 1], b, c);
    }
  }

  /** The bucket sizes depend only on the multiset of keys. */
  lemma {:induction false} OccPermutation<T>(s: seq<T>, t: seq<T>, b: T -> int, c: int)
    requires multiset(s) == multiset(t)
    ensures Occ(s, b, c) == Occ(t, b, c)
    decreases |s|
  {
    if s == [] {
      assert |t| == |multiset(t)| == 0;
    } else {
      var x := s[|s| - 1];
      var s' := s[..|s| - 1];
      assert s == s' + [x];
      assert x in multiset(t);
      var i :| 0 <= i < |t| && t[i] == x;
      var t' := t[..i] + t[i + 1..];
      assert t == t[..i] + [x] + t[i + 1..];
      assert multiset(t) == multiset(t[..i]) + multiset{x} + multiset(t[i + 1..]);
      assert multiset(s) == multiset(s') + multiset{x};
      assert multiset(t') == multiset(t[..i]) + multiset(t[i + 1..]);
      assert multiset(t') == multiset(t) - multiset{x};
      assert multiset(s') == multiset(s) - multiset{x};
      OccPermutation(s', t', b, c);
      OccConcat(t[..i], [x], b, c);
      OccConcat(t[..i] + [x], t[i + 1..], b, c);
      OccConcat(t[..i], t[i + 1..], b, c);
      assert Occ([x], b, c) == (if b(x) == c then 1 else 0) by {
        assert [x][..0] == [];
      }
    }
  }

  /** Keys in slots below c + 1 are those below c plus those in c. */
  lemma {:induction false} BeforeStep<T>(s: seq<T>, b: T -> int, c: int)
    ensures Before(s, b, c + 1) == Before(s, b, c) + Occ(s, b, c)
  {
    if s != [] {
      BeforeStep(s[..|s| - 1], b, c);
    }
  }

  lemma {:induction false} BeforeMonotone<T>(s: seq<T>, b: T -> int, c: int, c': int)
    requires c <= c'
    ensures Before(s, b, c) <= Before(s, b, c')
  {
    if s != [] {
      BeforeMonotone(s[..|s| - 1], b, c, c');
    }
  }

  /** With every slot in 0..nb-1, nothing is below 0 and everything is below nb. */
  lemma {:induction false} BeforeEnds<T>(s: seq<T>, b: T -> int, nb: nat)
    requires SlotsIn(s, b, nb)
    ensures Before(s, b, 0) == 0 && Before(s, b, nb) == |s|
  {
    if s != [] {
      BeforeEnds(s[..|s| - 1], b, nb);
    }
  }

  /** Entries i and j of f, when both exist and i <= j, are in order. */
  ghost predicate Ordered(f: seq<int>, i: int, j: int)
  {
    0 <= i <= j < |f| ==> f[i] <= f[j]
  }

  /**
   * Non-decreasing integer table. The pairs are instantiated only where a
   * proof names them (through Ordered or MonotoneAt), which keeps the
   * quantifier from firing on every pair of entries in large contexts.
   */
  ghost predicate Monotone(f: seq<int>)
  {
    forall i, j :: Ordered(f, i, j)
  }

  lemma MonotoneAt(f: seq<int>, i: int, j: int)
    requires Monotone(f) && 0 <= i <= j < |f|
    ensures f[i] <= f[j]
  {
    assert Ordered(f, i, j);
  }

  /**
   * The bucket-start table of the keys s placed at lo: starts at lo, is
   * non-decreasing, ends at lo + |s|, and bucket c spans exactly its keys.
   */
  lemma BucketStarts<T>(f: seq<int>, s: seq<T>, b: T -> int, lo: int, nb: nat)
    requires |f| == nb + 1 && SlotsIn(s, b, nb)
    requires forall c :: 0 <= c <= nb ==> f[c] == lo + Before(s, b, c)
    ensures f[0] == lo && f[nb] == lo + |s|
    ensures Monotone(f)
    ensures forall c {:trigger Occ(s, b, c)} :: 0 <= c < nb ==> f[c + 1] - f[c] == Occ(s, b, c)
  {
    BeforeEnds(s, b, nb);
    forall i, j ensures Ordered(f, i, j) {
      if 0 <= i <= j < |f| {
        BeforeMonotone(s, b, i, j);
      }
    }
    forall c | 0 <= c < nb ensures f[c + 1] - f[c] == Occ(s, b, c) {
      BeforeStep(s, b, c);
    }
  }

  /** Once every key is in its bucket, the range is ordered by slot. */
  lemma SlotsInOrder<T>(s: seq<T>, lo: int, hi: int, f: seq<int>, b: T -> int, nb: nat, p: int, q: int)
    requires Monotone(f) && InBuckets(s, lo, hi, f, b, nb) && lo <= p <= q <= hi
    ensures b(s[p]) <= b(s[q])
  {
    BucketsInOrder(f, b(s[p]), b(s[q]), p, q);
  }

  /** Of two positions in buckets of a non-decreasing start table, the earlier is in the lower bucket. */
  lemma BucketsInOrder(f: seq<int>, c1: int, c2: int, p: int, q: int)
    requires Monotone(f) && 0 <= c1 < |f| - 1 && 0 <= c2 < |f| - 1
    requires f[c1] <= p < f[c1 + 1] && f[c2] <= q < f[c2 + 1] && p <= q
    ensures c1 <= c2
  {
    if c2 < c1 {
      MonotoneAt(f, c2 + 1, c1);
    }
  }

  /** A position lies in at most one bucket of a non-decreasing start table. */
  lemma RegionUnique(f: seq<int>, c1: int, c2: int, p: int)
    requires Monotone(f) && 0 <= c1 < |f| - 1 && 0 <= c2 < |f| - 1
    requires f[c1] <= p < f[c1 + 1] && f[c2] <= p < f[c2 + 1]
    ensures c1 == c2
  {
    BucketsInOrder(f, c1, c2, p, p);
    BucketsInOrder(f, c2, c1, p, p);
  }

  /** A bucket holding a key of s is not empty. */
  lemma {:induction false} OccPositive<T>(s: seq<T>, b: T -> int, c: int, i: int)
    requires 0 <= i < |s| && b(s[i]) == c
    ensures Occ(s, b, c) >= 1
  {
    if i < |s| - 1 {
      OccPositive(s[..|s| - 1], b, c, i);
    }
  }

  /** A bucket holding y - x keys at positions x..y-1 and one more elsewhere has more than y - x keys. */
  lemma OccAtLeast<T>(s: seq<T>, b: T -> int, c: int, x: int, y: int, k: int)
    requires 0 <= x <= y <= |s| && 0 <= k < |s| && !(x <= k < y)
    requires forall p :: x <= p < y ==> b(s[p]) == c
    requires b(s[k]) == c
    ensures Occ(s, b, c) >= y - x + 1
  {
    var sy, w := s[..y], s[y..];
    var u, v := sy[..x], sy[x..];
    assert sy == u + v;
    assert s == sy + w;
    forall i | 0 <= i < |v| ensures b(v[i]) == c {
      assert v[i] == s[x + i];
    }
    OccUniform(v, b, c);
    OccConcat(sy, w, b, c);
    OccConcat(u, v, b, c);
    if k < x {
      assert u[k] == s[k];
      OccPositive(u, b, c, k);
    } else {
      assert w[k - y] == s[k];
      OccPositive(w, b, c, k - y);
    }
  }

  // ---------------------------------------------------------------------
  // Work items pushed by a pass
  // ---------------------------------------------------------------------

  /**
   * The work items pushed while scanning buckets 0..n-1 of the start table f,
   * in push order: bucket c gets item (f[c], f[c+1]-1, d+1) when the pass may
   * go deeper, c is at least minBucket and the bucket holds two keys or more.
   */
  function Subproblems(f: seq<int>, n: nat, minBucket: nat, deeper: bool, d: nat): (S: seq<WorkItem>)
    requires n < |f|
  {
    if n == 0 then []
    else
      var c := n - 1;
      Subproblems(f, c, minBucket, deeper, d) +
      (if deeper && minBucket <= c && f[c + 1] - 1 > f[c] then [WorkItem(f[c], f[c + 1] - 1, d + 1)] else [])
  }

  /** The items pushed for buckets 0..n-1 do not depend on entries after n. */
  lemma {:induction false} SubproblemsUpdate(f: seq<int>, i: int, v: int, n: nat, minBucket: nat, deeper: bool, d: nat)
    requires n < i < |f|
    ensures Subproblems(f[i := v], n, minBucket, deeper, d) == Subproblems(f, n, minBucket, deeper, d)
  {
    if n > 0 {
      SubproblemsUpdate(f, i, v, n - 1, minBucket, deeper, d);
    }
  }

  /** Every item of S has two or more positions inside from..to-1, at depth d. */
  ghost predicate ItemsWithin(S: seq<WorkItem>, from: int, to: int, d: nat)
  {
    forall t :: 0 <= t < |S| ==> from <= S[t].lo < S[t].hi < to && S[t].d == d
  }

  /** The items of S cover increasing, pairwise disjoint ranges. */
  ghost predicate Ascending(S: seq<WorkItem>)
  {
    forall t1, t2 :: 0 <= t1 < t2 < |S| ==> S[t1].hi < S[t2].lo
  }

  /** The items pushed while scanning buckets 0..n-1: those for 0..n-2, then possibly bucket n-1. */
  lemma SubproblemsLast(f: seq<int>, n: nat, minBucket: nat, deeper: bool, d: nat)
    requires 0 < n < |f|
    ensures var c := n - 1;
      Subproblems(f, n, minBucket, deeper, d) == Subproblems(f, c, minBucket, deeper, d) +
        (if deeper && minBucket <= c && f[c + 1] - 1 > f[c] then [WorkItem(f[c], f[c + 1] - 1, d + 1)] else [])
  {
  }

  /** Pushed items hold two or more positions inside the scanned buckets, at depth d + 1. */
  lemma {:induction false} SubproblemsWithin(f: seq<int>, n: nat, minBucket: nat, deeper: bool, d: nat)
    requires n < |f| && Monotone(f)
    ensures ItemsWithin(Subproblems(f, n, minBucket, deeper, d), f[0], f[n], d + 1)
  {
    if n > 0 {
      SubproblemsWithin(f, n - 1, minBucket, deeper, d);
      SubproblemsLast(f, n, minBucket, deeper, d);
      var S' := Subproblems(f, n - 1, minBucket, deeper, d);
      var S := Subproblems(f, n, minBucket, deeper, d);
      MonotoneAt(f, 0, n - 1);
      MonotoneAt(f, n - 1, n);
      forall t | 0 <= t < |S| ensures f[0] <= S[t].lo < S[t].hi < f[n] && S[t].d == d + 1 {
        if t < |S'| {
          assert S[t] == S'[t];
        }
      }
    }
  }

  /** Pushed items cover increasing, pairwise disjoint ranges. */
  lemma {:induction false} SubproblemsAscending(f: seq<int>, n: nat, minBucket: nat, deeper: bool, d: nat)
    requires n < |f| && Monotone(f)
    ensures Ascending(Subproblems(f, n, minBucket, deeper, d))
  {
    if n > 0 {
      SubproblemsAscending(f, n - 1, minBucket, deeper, d);
      SubproblemsWithin(f, n - 1, minBucket, deeper, d);
      SubproblemsLast(f, n, minBucket, deeper, d);
      var S' := Subproblems(f, n - 1, minBucket, deeper, d);
      var S := Subproblems(f, n, minBucket, deeper, d);
      forall t1, t2 | 0 <= t1 < t2 < |S| ensures S[t1].hi < S[t2].lo {
        assert S[t1] == S'[t1];
        if t2 < |S'| {
          assert S[t2] == S'[t2];
        }
      }
    }
  }

  /** Nothing is pushed when the pass may not go deeper. */
  lemma {:induction false} SubproblemsNone(f: seq<int>, n: nat, minBucket: nat, d: nat)
    requires n < |f|
    ensures Subproblems(f, n, minBucket, false, d) == []
  {
    if n > 0 {
      SubproblemsNone(f, n - 1, minBucket, d);
    }
  }

  /** Each pushed item is exactly one bucket c >= minBucket of the table. */
  lemma {:induction false} SubproblemBucket(f: seq<int>, n: nat, minBucket: nat, deeper: bool, d: nat, t: int)
    returns (c: nat)
    requires n < |f|
    requires 0 <= t < |Subproblems(f, n, minBucket, deeper, d)|
    ensures minBucket <= c < n
    ensures Subproblems(f, n, minBucket, deeper, d)[t] == WorkItem(f[c], f[c + 1] - 1, d + 1)
  {
    var S' := Subproblems(f, n - 1, minBucket, deeper, d);
    if t < |S'| {
      c := SubproblemBucket(f, n - 1, minBucket, deeper, d, t);
    } else {
      c := n - 1;
    }
  }

  /** Every bucket c >= minBucket with two or more keys is pushed, when the pass may go deeper. */
  lemma {:induction false} SubproblemsComplete(f: seq<int>, n: nat, minBucket: nat, deeper: bool, d: nat, c: nat)
    requires n < |f| && deeper && minBucket <= c < n && f[c + 1] - 1 > f[c]
    ensures WorkItem(f[c], f[c + 1] - 1, d + 1) in Subproblems(f, n, minBucket, deeper, d)
  {
    if c < n - 1 {
      SubproblemsComplete(f, n - 1, minBucket, deeper, d, c);
    }
  }

  // ---------------------------------------------------------------------
  // Termination measure of the work list
  // ---------------------------------------------------------------------

  /** size * rest, written as repeated addition so that the solver treats it as a plain function. */
  ghost function Scaled(size: int, rest: nat): (r: int)
    ensures size >= 0 ==> r >= 0
  {
    if rest == 0 then 0 else Scaled(size, rest - 1) + size
  }

  /** Scaling distributes over adding sizes. */
  lemma {:induction false} ScaledAdd(x: int, y: int, rest: nat)
    ensures Scaled(x, rest) + Scaled(y, rest) == Scaled(x + y, rest)
  {
    if rest > 0 {
      ScaledAdd(x, y, rest - 1);
    }
  }

  /** Positions of an item times the depths it may still descend, below height. */
  ghost function Weight(it: WorkItem, height: nat): (w: nat)
  {
    if it.lo <= it.hi + 1 && it.d <= height then Scaled(it.hi - it.lo + 1, height - it.d) else 0
  }

  /** An item with keys left to sort weighs its size more one level down. */
  lemma WeightDrop(it: WorkItem, height: nat)
    requires it.lo <= it.hi + 1 && it.d < height
    ensures Weight(it, height) == Scaled(it.hi - it.lo + 1, height - it.d - 1) + (it.hi - it.lo + 1)
  {
  }

  ghost function Measure(stack: seq<WorkItem>, height: nat): (m: nat)
  {
    if stack == [] then 0
    else Measure(stack[..|stack| - 1], height) + Weight(stack[|stack| - 1], height)
  }

  lemma {:induction false} MeasureConcat(s: seq<WorkItem>, t: seq<WorkItem>, height: nat)
    ensures Measure(s + t, height) == Measure(s, height) + Measure(t, height)
    decreases |t|
  {
    if t == [] {
      assert s + t == s;
    } else {
      assert (s + t)[..|s + t| - 1] == s + t[..|t| - 1];
      MeasureConcat(s, t[..|t| - 1], height);
    }
  }

  /** A single item's measure is its weight. */
  lemma MeasureSingle(it: WorkItem, height: nat)
    ensures Measure([it], height) == Weight(it, height)
  {
    assert [it][..0] == [];
  }

  /** Scanning bucket n-1 adds at most its positions, one level down, to the measure. */
  lemma PushedMeasure(f: seq<int>, n: nat, minBucket: nat, deeper: bool, d: nat, height: nat)
    requires 0 < n < |f| && f[n - 1] <= f[n] && d + 1 <= height
    ensures Measure(Subproblems(f, n, minBucket, deeper, d), height)
         <= Measure(Subproblems(f, n - 1, minBucket, deeper, d), height) + Scaled(f[n] - f[n - 1], height - d - 1)
  {
    SubproblemsLast(f, n, minBucket, deeper, d);
    var c := n - 1;
    var last := if deeper && minBucket <= c && f[c + 1] - 1 > f[c] then [WorkItem(f[c], f[c + 1] - 1, d + 1)] else [];
    MeasureConcat(Subproblems(f, c, minBucket, deeper, d), last, height);
    if last != [] {
      MeasureSingle(last[0], height);
    }
  }

  /** The items pushed for buckets 0..n-1 weigh at most the scanned positions one level down. */
  lemma {:induction false} SubproblemsMeasure(f: seq<int>, n: nat, minBucket: nat, deeper: bool, d: nat, height: nat)
    requires n < |f| && Monotone(f) && d + 1 <= height
    ensures Measure(Subproblems(f, n, minBucket, deeper, d), height) <= Scaled(f[n] - f[0], height - d - 1)
  {
    if n > 0 {
      SubproblemsMeasure(f, n - 1, minBucket, deeper, d, height);
      MonotoneAt(f, 0, n - 1);
      MonotoneAt(f, n - 1, n);
      PushedMeasure(f, n, minBucket, deeper, d, height);
      ScaledAdd(f[n - 1] - f[0], f[n] - f[n - 1], height - d - 1);
    }
  }

  /**
   * A pass over a non-empty item replaces it by items of smaller total
   * measure: they cover at most its positions, one level deeper.
   */
  lemma PassMeasure(stack: seq<WorkItem>, it: WorkItem, f: seq<int>, nb: nat, minBucket: nat, deeper: bool, height: nat)
    requires |f| == nb + 1 && Monotone(f) && f[0] == it.lo && f[nb] == it.hi + 1
    requires it.lo <= it.hi && it.d < height
    ensures Measure(stack + Subproblems(f, nb, minBucket, deeper, it.d), height) < Measure(stack + [it], height)
  {
    var pushed := Subproblems(f, nb, minBucket, deeper, it.d);
    PushedBelowItem(it, f, nb, minBucket, deeper, height);
    MeasureConcat(stack, pushed, height);
    MeasureConcat(stack, [it], height);
  }

  /** The items pushed by a pass over a non-empty item weigh less than it. */
  lemma PushedBelowItem(it: WorkItem, f: seq<int>, nb: nat, minBucket: nat, deeper: bool, height: nat)
    requires |f| == nb + 1 && Monotone(f) && f[0] == it.lo && f[nb] == it.hi + 1
    requires it.lo <= it.hi && it.d < height
    ensures Measure(Subproblems(f, nb, minBucket, deeper, it.d), height) < Measure([it], height)
  {
    MeasureSingle(it, height);
    SubproblemsMeasure(f, nb, minBucket, deeper, it.d, height);
    WeightDrop(it, height);
  }

  // ---------------------------------------------------------------------
  // The pass, phase by phase
  // ---------------------------------------------------------------------

  /** Exchange a[i] and a[j]. */
  method Exch<T>(a: array<T>, i: int, j: int)
    requires 0 <= i < a.Length && 0 <= j < a.Length
    modifies a
    ensures a[..] == old(a[..])[i := old(a[j])][j := old(a[i])]
    ensures multiset(a[..]) == old(multiset(a[..]))
  {
    var temp := a[i];
    a[i] := a[j];
    a[j] := temp;
  }

  /** An exchange inside lo..hi keeps the keys of that range and of the whole array. */
  lemma ExchKeepsRange<T>(s: seq<T>, t: seq<T>, i: int, j: int, lo: int, hi: int)
    requires 0 <= lo <= i <= hi < |s| && lo <= j <= hi
    requires t == s[i := s[j]][j := s[i]]
    ensures multiset(t[lo..hi + 1]) == multiset(s[lo..hi + 1])
  {
  }

  /** A key of a rearranged range is a key the range held before. */
  lemma PermMember<T>(s: seq<T>, t: seq<T>, lo: int, hi: int, p: int) returns (q: int)
    requires 0 <= lo <= hi + 1 <= |s| && |t| == |s|
    requires multiset(t[lo..hi + 1]) == multiset(s[lo..hi + 1])
    requires lo <= p <= hi
    ensures lo <= q <= hi && s[q] == t[p]
  {
    assert t[p] == t[lo..hi + 1][p - lo];
    assert t[p] in multiset(s[lo..hi + 1]);
    var i :| 0 <= i < hi + 1 - lo && s[lo..hi + 1][i] == t[p];
    q := lo + i;
  }

  /**
   * Frequency counts: first[c + 1] becomes the number of keys of a[lo..hi]
   * in slot c (the tables start out all zero).
   */
  method Count<T>(a: array<T>, lo: int, hi: int, first: array<int>, b: T -> int, nb: nat)
    requires 0 <= lo <= hi + 1 <= a.Length
    requires first.Length == nb + 1 && a as object != first
    requires SlotsIn(a[lo..hi + 1], b, nb)
    requires forall c :: 0 <= c <= nb ==> first[c] == 0
    modifies first
    ensures first[0] == 0
    ensures forall c :: 1 <= c <= nb ==> first[c] == Occ(a[lo..hi + 1], b, c - 1)
  {
    var i := lo;
    while i <= hi
      invariant lo <= i <= hi + 1
      invariant first[0] == 0
      invariant forall c :: 1 <= c <= nb ==> first[c] == Occ(a[lo..i], b, c - 1)
    {
      assert a[i] == a[lo..hi + 1][i - lo];
      var c := b(a[i]);
      first[c + 1] := first[c + 1] + 1;
      assert a[lo..i + 1][..i - lo] == a[lo..i];
      i := i + 1;
    }
    assert a[lo..i] == a[lo..hi + 1];
  }

  /**
   * Prefix sums: first[c] becomes the start of bucket c, i.e. lo plus the
   * number of keys in lower slots. While scanning, every bucket c >= minBucket
   * holding two or more keys is pushed as (first[c], first[c+1]-1, d+1),
   * provided the pass may go deeper.
   */
  method PrefixSums<T>(first: array<int>, ghost s: seq<T>, b: T -> int, nb: nat, lo: int,
                       d: nat, minBucket: nat, deeper: bool, stack: seq<WorkItem>)
    returns (stack': seq<WorkItem>)
    requires first.Length == nb + 1 && SlotsIn(s, b, nb)
    requires forall c :: 1 <= c <= nb ==> first[c] == Occ(s, b, c - 1)
    modifies first
    ensures forall c :: 0 <= c <= nb ==> first[c] == lo + Before(s, b, c)
    ensures first[0] == lo && first[nb] == lo + |s| && Monotone(first[..])
    ensures stack' == stack + Subproblems(first[..], nb, minBucket, deeper, d)
  {
    BeforeEnds(s, b, nb);
    first[0] := lo;
    stack' := stack;
    var c := 0;
    while c < nb
      invariant 0 <= c <= nb
      invariant Summing(first[..], s, b, lo, c)
      invariant stack' == stack + Subproblems(first[..], c, minBucket, deeper, d)
    {
      stack' := SumStep(first, c, s, b, lo, d, minBucket, deeper, stack, stack');
      c := c + 1;
    }
    BucketStarts(first[..], s, b, lo, nb);
  }

  /**
   * One step of the prefix sums: first[c + 1] += first[c], then push bucket c
   * when it qualifies.
   */
  method SumStep<T>(first: array<int>, c: int, ghost s: seq<T>, b: T -> int, lo: int, d: nat,
                    minBucket: nat, deeper: bool, ghost stack: seq<WorkItem>, stack0: seq<WorkItem>)
    returns (stack': seq<WorkItem>)
    requires Summing(first[..], s, b, lo, c) && c + 1 < first.Length
    requires stack0 == stack + Subproblems(first[..], c, minBucket, deeper, d)
    modifies first
    ensures Summing(first[..], s, b, lo, c + 1)
    ensures stack' == stack + Subproblems(first[..], c + 1, minBucket, deeper, d)
  {
    ghost var before := first[..];
    first[c + 1] := first[c + 1] + first[c];
    SummingStep(before, first[..], s, b, lo, c, minBucket, deeper, d);
    ghost var pushed := Subproblems(before, c, minBucket, deeper, d);
    stack' := stack0;
    if minBucket <= c && deeper && first[c + 1] - 1 > first[c] {
      var item := WorkItem(first[c], first[c + 1] - 1, d + 1);
      PushAssoc(stack, pushed, item);
      stack' := stack' + [item];
    } else {
      assert pushed + [] == pushed;
    }
  }

  lemma PushAssoc(stack: seq<WorkItem>, pushed: seq<WorkItem>, item: WorkItem)
    ensures stack + pushed + [item] == stack + (pushed + [item])
  {
  }

  /**
   * The table while the prefix sums are formed up to slot c: entries 0..c
   * are bucket starts, the later ones still the counts they were given.
   */
  ghost predicate Summing<T>(t: seq<int>, s: seq<T>, b: T -> int, lo: int, c: int)
  {
    0 <= c < |t|
    && (forall c' :: 0 <= c' <= c ==> t[c'] == lo + Before(s, b, c'))
    && (forall c' :: c < c' < |t| ==> t[c'] == Occ(s, b, c' - 1))
  }

  /** Adding start c to count c turns entry c + 1 into the next start, and the scan pushes at most bucket c. */
  lemma SummingStep<T>(t: seq<int>, t': seq<int>, s: seq<T>, b: T -> int, lo: int, c: int,
                       minBucket: nat, deeper: bool, d: nat)
    requires Summing(t, s, b, lo, c) && c + 1 < |t|
    requires t' == t[c + 1 := t[c + 1] + t[c]]
    ensures Summing(t', s, b, lo, c + 1)
    ensures Subproblems(t', c + 1, minBucket, deeper, d) ==
      Subproblems(t, c, minBucket, deeper, d) +
      (if deeper && minBucket <= c && t'[c + 1] - 1 > t'[c] then [WorkItem(t'[c], t'[c + 1] - 1, d + 1)] else [])
  {
    BeforeStep(s, b, c);
    SubproblemsUpdate(t, c + 1, t'[c + 1], c, minBucket, deeper, d);
  }

  /** next[c] = first[c] for every slot: the cursors start at the bucket starts. */
  method CopyCursors(first: array<int>, next: array<int>)
    requires first.Length == next.Length && first != next
    modifies next
    ensures forall c :: 0 <= c < first.Length ==> next[c] == first[c]
  {
    var c := 0;
    while c < first.Length
      invariant 0 <= c <= first.Length
      invariant forall c' :: 0 <= c' < c ==> next[c'] == first[c']
    {
      next[c] := first[c];
      c := c + 1;
    }
  }

  /** Both tables back to all zero, ready for the next pass. */
  method Clear(first: array<int>, next: array<int>)
    requires first.Length == next.Length && first != next
    modifies first, next
    ensures forall c :: 0 <= c < first.Length ==> first[c] == 0 && next[c] == 0
  {
    var c := 0;
    while c < first.Length
      invariant 0 <= c <= first.Length
      invariant forall c' :: 0 <= c' < c ==> first[c'] == 0 && next[c'] == 0
    {
      first[c] := 0;
      next[c] := 0;
      c := c + 1;
    }
  }

  /** Unfilled places of the buckets still ahead of position k (termination measure). */
  ghost function Unfilled(first: seq<int>, next: seq<int>, k: int, n: nat): nat
    requires n < |first| && n <= |next|
  {
    if n == 0 then 0
    else Unfilled(first, next, k, n - 1) +
         (if k < first[n - 1] && next[n - 1] <= first[n] then first[n] - next[n - 1] else 0)
  }

  /** Advancing the cursor of a bucket ahead of k that is not yet full fills one more place. */
  lemma {:induction false} UnfilledAdvance(first: seq<int>, next: seq<int>, next': seq<int>, k: int, n: nat, c: int)
    requires n < |first| && n <= |next| && 0 <= c < n
    requires k < first[c] && next[c] < first[c + 1]
    requires next' == next[c := next[c] + 1]
    ensures Unfilled(first, next', k, n) == Unfilled(first, next, k, n) - 1
  {
    if c < n - 1 {
      UnfilledAdvance(first, next, next', k, n - 1, c);
    } else {
      UnfilledSame(first, next, next', k, n - 1);
    }
  }

  lemma {:induction false} UnfilledSame(first: seq<int>, next: seq<int>, next': seq<int>, k: int, n: nat)
    requires n < |first| && n <= |next| && n <= |next'| && next[..n] == next'[..n]
    ensures Unfilled(first, next', k, n) == Unfilled(first, next, k, n)
  {
    if n > 0 {
      assert next[n - 1] == next[..n][n - 1] && next'[n - 1] == next'[..n][n - 1];
      assert next[..n - 1] == next[..n][..n - 1] && next'[..n - 1] == next'[..n][..n - 1];
      UnfilledSame(first, next, next', k, n - 1);
    }
  }

  /** s and t have the same length and agree outside positions lo..hi. */
  ghost predicate SameOutside<T>(s: seq<T>, t: seq<T>, lo: int, hi: int)
  {
    |s| == |t| && forall p :: 0 <= p < |s| && !(lo <= p <= hi) ==> s[p] == t[p]
  }

  /** Every key of s[lo..hi] has a slot below nb and lies inside that slot's bucket of f. */
  ghost predicate InBuckets<T>(s: seq<T>, lo: int, hi: int, f: seq<int>, b: T -> int, nb: nat)
  {
    0 <= lo && hi < |s| && |f| == nb + 1
    && forall p :: lo <= p <= hi ==> 0 <= b(s[p]) < nb && f[b(s[p])] <= p < f[b(s[p]) + 1]
  }

  /**
   * State of the permutation loop at position k: positions lo..k-1 hold keys
   * of their own bucket, and every bucket that starts after k has its cursor
   * inside it, with only keys of that bucket below the cursor.
   */
  ghost predicate Placing<T>(s: seq<T>, lo: int, hi: int, f: seq<int>, nx: seq<int>, b: T -> int, nb: nat, k: int)
  {
    0 <= lo <= k <= hi + 1 <= |s| && |f| == nb + 1 && |nx| == nb + 1 && Monotone(f)
    && (forall c :: 0 <= c <= nb ==> lo <= f[c] <= hi + 1)
    && (forall p :: lo <= p <= hi ==> 0 <= b(s[p]) < nb)
    && InBuckets(s, lo, k - 1, f, b, nb)
    && (forall c :: 0 <= c < nb && k < f[c] ==> f[c] <= nx[c])
    && (forall c, e {:trigger nx[c], f[e]} :: 0 <= c < nb && e == c + 1 && k < f[c] ==> nx[c] <= f[e])
    && (forall c, p :: 0 <= c < nb && k < f[c] && f[c] <= p < nx[c] && p <= hi ==> b(s[p]) == c)
  }

  /** The bucket-start table f of the keys s0 placed at lo. */
  ghost predicate StartsOf<T>(f: seq<int>, s0: seq<T>, b: T -> int, lo: int, nb: nat)
  {
    |f| == nb + 1 && f[0] == lo && f[nb] == lo + |s0|
    && forall c {:trigger Occ(s0, b, c)} :: 0 <= c < nb ==> f[c + 1] - f[c] == Occ(s0, b, c)
  }

  /**
   * Exchanging the key at k (which belongs to a bucket starting after k)
   * with the key under that bucket's cursor, then advancing the cursor,
   * keeps the loop state.
   */
  lemma SwapKeepsPlacing<T>(s: seq<T>, t: seq<T>, lo: int, hi: int, f: seq<int>, nx: seq<int>, nx': seq<int>,
                            b: T -> int, nb: nat, k: int, c: int)
    requires Placing(s, lo, hi, f, nx, b, nb, k) && k <= hi
    requires c == b(s[k]) && k < f[c] && nx[c] < f[c + 1]
    requires t == s[k := s[nx[c]]][nx[c] := s[k]]
    requires nx' == nx[c := nx[c] + 1]
    ensures Placing(t, lo, hi, f, nx', b, nb, k)
  {
    SwapKeepsSlots(s, t, lo, hi, b, nb, k, nx[c]);
    SwapKeepsFilled(s, t, lo, hi, f, nx, nx', b, nb, k, c);
  }

  /** Exchanging two keys of lo..hi keeps every key of lo..hi in a slot below nb. */
  lemma SwapKeepsSlots<T>(s: seq<T>, t: seq<T>, lo: int, hi: int, b: T -> int, nb: nat, k: int, j: int)
    requires 0 <= lo <= k <= hi < |s| && lo <= j <= hi
    requires forall p :: lo <= p <= hi ==> 0 <= b(s[p]) < nb
    requires t == s[k := s[j]][j := s[k]]
    ensures forall p :: lo <= p <= hi ==> 0 <= b(t[p]) < nb
  {
    forall p | lo <= p <= hi ensures 0 <= b(t[p]) < nb {
      assert t[p] == s[p] || t[p] == s[j] || t[p] == s[k];
    }
  }

  /** After the swap, every bucket after k still holds only its own keys below its cursor. */
  lemma SwapKeepsFilled<T>(s: seq<T>, t: seq<T>, lo: int, hi: int, f: seq<int>, nx: seq<int>, nx': seq<int>,
                           b: T -> int, nb: nat, k: int, c: int)
    requires Placing(s, lo, hi, f, nx, b, nb, k) && k <= hi
    requires c == b(s[k]) && k < f[c] && nx[c] < f[c + 1]
    requires t == s[k := s[nx[c]]][nx[c] := s[k]]
    requires nx' == nx[c := nx[c] + 1]
    ensures forall c', p :: 0 <= c' < nb && k < f[c'] && f[c'] <= p < nx'[c'] && p <= hi ==> b(t[p]) == c'
  {
    var j := nx[c];
    forall c', p | 0 <= c' < nb && k < f[c'] && f[c'] <= p < nx'[c'] && p <= hi ensures b(t[p]) == c' {
      if c' != c && p == j {
        assert nx[c'] <= f[c' + 1];
        RegionUnique(f, c, c', j);
      }
    }
  }

  /** A key at k that already lies in its bucket is passed over, advancing its cursor. */
  lemma AdvanceKeepsPlacing<T>(s: seq<T>, lo: int, hi: int, f: seq<int>, nx: seq<int>, nx': seq<int>,
                               b: T -> int, nb: nat, k: int, c: int)
    requires Placing(s, lo, hi, f, nx, b, nb, k) && k <= hi
    requires c == b(s[k]) && f[c] <= k < f[c + 1]
    requires nx' == nx[c := nx[c] + 1]
    ensures Placing(s, lo, hi, f, nx', b, nb, k + 1)
  {
  }

  /**
   * The body of the cycle: the key at k belongs to bucket c, which starts
   * after k and whose cursor is not yet at its end; exchange it with the key
   * under the cursor and advance the cursor.
   */
  method SwapIn<T>(a: array<T>, lo: int, hi: int, ghost f: seq<int>, next: array<int>, b: T -> int, nb: nat,
                   k: int, c: int, ghost s0: seq<T>)
    requires a as object != next && next.Length == nb + 1
    requires Placing(a[..], lo, hi, f, next[..], b, nb, k) && k <= hi
    requires c == b(a[k]) && k < f[c] && next[c] < f[c + 1]
    requires multiset(a[lo..hi + 1]) == multiset(s0)
    modifies a, next
    ensures Placing(a[..], lo, hi, f, next[..], b, nb, k)
    ensures multiset(a[lo..hi + 1]) == multiset(s0)
    ensures SameOutside(a[..], old(a[..]), lo, hi)
    ensures Unfilled(f, next[..], k, nb) < Unfilled(f, old(next[..]), k, nb)
  {
    ghost var before, cursors := a[..], next[..];
    var j := next[c];
    Exch(a, k, j);
    next[c] := next[c] + 1;
    SwapKeepsPlacing(before, a[..], lo, hi, f, cursors, next[..], b, nb, k, c);
    ExchKeepsRange(before, a[..], k, j, lo, hi);
    UnfilledAdvance(f, cursors, next[..], k, nb, c);
    assert a[lo..hi + 1] == a[..][lo..hi + 1];
  }

  /**
   * One step of the permutation, for position k: while the key at k belongs
   * to a bucket c that starts after k, swap it into that bucket; then the
   * key at k is in its own bucket, whose cursor advances past it.
   */
  method PlaceAt<T>(a: array<T>, lo: int, hi: int, first: array<int>, next: array<int>, b: T -> int, nb: nat,
                    k: int, ghost f: seq<int>, ghost s0: seq<T>)
    requires first.Length == nb + 1 && next.Length == nb + 1 && first[..] == f
    requires a as object != first && a as object != next && first != next
    requires Placing(a[..], lo, hi, f, next[..], b, nb, k) && k <= hi
    requires StartsOf(f, s0, b, lo, nb) && |s0| == hi + 1 - lo
    requires multiset(a[lo..hi + 1]) == multiset(s0)
    modifies a, next
    ensures Placing(a[..], lo, hi, f, next[..], b, nb, k + 1)
    ensures multiset(a[lo..hi + 1]) == multiset(s0)
    ensures SameOutside(a[..], old(a[..]), lo, hi)
  {
    var c := b(a[k]);
    while first[c] > k
      invariant Placing(a[..], lo, hi, f, next[..], b, nb, k)
      invariant multiset(a[lo..hi + 1]) == multiset(s0)
      invariant SameOutside(a[..], old(a[..]), lo, hi)
      invariant c == b(a[k]) && 0 <= c < nb
      decreases Unfilled(f, next[..], k, nb)
    {
      CursorInsideBucket(a[..], lo, hi, s0, b, nb, f, next[..], c, k);
      SwapIn(a, lo, hi, f, next, b, nb, k, c, s0);
      c := b(a[k]);
    }
    Advance(a, lo, hi, f, next, b, nb, k, c, s0);
  }

  /** The key at k is in its own bucket c: advance that bucket's cursor past it. */
  method Advance<T>(a: array<T>, lo: int, hi: int, ghost f: seq<int>, next: array<int>, b: T -> int, nb: nat,
                    k: int, c: int, ghost s0: seq<T>)
    requires a as object != next && next.Length == nb + 1
    requires Placing(a[..], lo, hi, f, next[..], b, nb, k) && k <= hi
    requires c == b(a[k]) && f[c] <= k
    requires StartsOf(f, s0, b, lo, nb) && |s0| == hi + 1 - lo
    requires multiset(a[lo..hi + 1]) == multiset(s0)
    modifies next
    ensures Placing(a[..], lo, hi, f, next[..], b, nb, k + 1)
  {
    InsideOwnBucket(a[..], lo, hi, s0, b, nb, f, next[..], c, k);
    ghost var cursors := next[..];
    next[c] := next[c] + 1;
    assert next[..] == cursors[c := cursors[c] + 1];
    AdvanceKeepsPlacing(a[..], lo, hi, f, cursors, next[..], b, nb, k, c);
  }

  /**
   * The in-place permutation: with first holding the bucket starts of
   * a[lo..hi] and next a copy of it, every key is moved into its bucket by
   * cyclic exchanges. Afterwards a[lo..hi] holds the same keys, each at a
   * position p with first[c] <= p < first[c + 1] for its slot c, and nothing
   * outside lo..hi has moved.
   */
  method Permute<T>(a: array<T>, lo: int, hi: int, first: array<int>, next: array<int>, b: T -> int, nb: nat)
    requires 0 <= lo <= hi + 1 <= a.Length
    requires first.Length == nb + 1 && next.Length == nb + 1 && first != next
    requires a as object != first && a as object != next
    requires SlotsIn(a[lo..hi + 1], b, nb)
    requires StartsOf(first[..], a[lo..hi + 1], b, lo, nb) && Monotone(first[..])
    requires forall c :: 0 <= c <= nb ==> next[c] == first[c]
    modifies a, next
    ensures multiset(a[lo..hi + 1]) == old(multiset(a[lo..hi + 1]))
    ensures SameOutside(a[..], old(a[..]), lo, hi)
    ensures InBuckets(a[..], lo, hi, first[..], b, nb)
  {
    ghost var s0 := a[lo..hi + 1];
    ghost var f := first[..];
    assert s0 == a[..][lo..hi + 1];
    PlacingStart(a[..], lo, hi, f, next[..], b, nb);
    var k := lo;
    while k <= hi
      invariant first[..] == f
      invariant Placing(a[..], lo, hi, f, next[..], b, nb, k)
      invariant multiset(a[lo..hi + 1]) == multiset(s0)
      invariant SameOutside(a[..], old(a[..]), lo, hi)
    {
      PlaceAt(a, lo, hi, first, next, b, nb, k, f, s0);
      k := k + 1;
    }
  }

  /** Before the first step: nothing settled, every cursor at its bucket's start. */
  lemma PlacingStart<T>(s: seq<T>, lo: int, hi: int, f: seq<int>, nx: seq<int>, b: T -> int, nb: nat)
    requires 0 <= lo <= hi + 1 <= |s| && |nx| == |f| && forall c :: 0 <= c < |f| ==> nx[c] == f[c]
    requires SlotsIn(s[lo..hi + 1], b, nb)
    requires StartsOf(f, s[lo..hi + 1], b, lo, nb) && Monotone(f)
    ensures Placing(s, lo, hi, f, nx, b, nb, lo)
  {
    var s0 := s[lo..hi + 1];
    forall p | lo <= p <= hi ensures 0 <= b(s[p]) < nb {
      assert s[p] == s0[p - lo];
    }
    forall c | 0 <= c <= nb ensures lo <= f[c] <= hi + 1 {
      MonotoneAt(f, 0, c);
      MonotoneAt(f, c, nb);
    }
    forall c | 0 <= c < nb ensures f[c] <= f[c + 1] {
      MonotoneAt(f, c, c + 1);
    }
  }

  /** The cursor of a bucket that starts after k cannot be full while a key of that bucket sits at k. */
  lemma CursorInsideBucket<T>(a: seq<T>, lo: int, hi: int, s0: seq<T>, b: T -> int, nb: nat,
                              f: seq<int>, nx: seq<int>, c: int, k: int)
    requires Placing(a, lo, hi, f, nx, b, nb, k) && k <= hi
    requires StartsOf(f, s0, b, lo, nb) && |s0| == hi + 1 - lo && multiset(a[lo..hi + 1]) == multiset(s0)
    requires c == b(a[k]) && k < f[c]
    ensures nx[c] < f[c + 1]
  {
    var s := a[lo..hi + 1];
    OccPermutation(s, s0, b, c);
    if nx[c] == f[c + 1] {
      forall q | f[c] - lo <= q < nx[c] - lo ensures b(s[q]) == c {
        assert s[q] == a[q + lo];
      }
      assert s[k - lo] == a[k];
      OccAtLeast(s, b, c, f[c] - lo, nx[c] - lo, k - lo);
    }
  }

  /** Once every position before k is settled, the key at k sits in its own bucket. */
  lemma InsideOwnBucket<T>(a: seq<T>, lo: int, hi: int, s0: seq<T>, b: T -> int, nb: nat,
                           f: seq<int>, nx: seq<int>, c: int, k: int)
    requires Placing(a, lo, hi, f, nx, b, nb, k) && k <= hi
    requires StartsOf(f, s0, b, lo, nb) && |s0| == hi + 1 - lo && multiset(a[lo..hi + 1]) == multiset(s0)
    requires c == b(a[k]) && f[c] <= k
    ensures k < f[c + 1]
  {
    var s := a[lo..hi + 1];
    if f[c + 1] <= k {
      forall q | f[c] - lo <= q < f[c + 1] - lo ensures b(s[q]) == c {
        assert s[q] == a[q + lo];
        RegionUnique(f, b(a[q + lo]), c, q + lo);
      }
      assert s[k - lo] == a[k];
      OccPermutation(s, s0, b, c);
      OccAtLeast(s, b, c, f[c] - lo, f[c + 1] - lo, k - lo);
    }
  }

  // ---------------------------------------------------------------------
  // A whole pass
  // ---------------------------------------------------------------------

  /**
   * One pass over the work item (lo, hi, d), with both tables all zero on
   * entry: count, form the bucket starts f while pushing the subproblems,
   * copy the cursors, permute, and clear the tables. Afterwards a[lo..hi]
   * holds the same keys, each inside its bucket of f, nothing outside lo..hi
   * has moved, and the tables are all zero again.
   */
  method Pass<T>(a: array<T>, lo: int, hi: int, first: array<int>, next: array<int>, b: T -> int, nb: nat,
                 d: nat, minBucket: nat, deeper: bool, stack: seq<WorkItem>)
    returns (stack': seq<WorkItem>, ghost f: seq<int>)
    requires 0 <= lo <= hi + 1 <= a.Length
    requires first.Length == nb + 1 && next.Length == nb + 1 && first != next
    requires a as object != first && a as object != next
    requires SlotsIn(a[lo..hi + 1], b, nb)
    requires forall c :: 0 <= c <= nb ==> first[c] == 0 && next[c] == 0
    modifies a, first, next
    ensures |f| == nb + 1 && forall c :: 0 <= c <= nb ==> f[c] == lo + Before(old(a[lo..hi + 1]), b, c)
    ensures StartsOf(f, old(a[lo..hi + 1]), b, lo, nb)
    ensures stack' == stack + Subproblems(f, nb, minBucket, deeper, d)
    ensures multiset(a[lo..hi + 1]) == old(multiset(a[lo..hi + 1]))
    ensures SameOutside(a[..], old(a[..]), lo, hi)
    ensures InBuckets(a[..], lo, hi, f, b, nb)
    ensures forall c :: 0 <= c <= nb ==> first[c] == 0 && next[c] == 0
  {
    ghost var s := a[lo..hi + 1];
    Count(a, lo, hi, first, b, nb);
    stack' := PrefixSums(first, s, b, nb, lo, d, minBucket, deeper, stack);
    f := first[..];
    BucketStarts(f, s, b, lo, nb);
    CopyCursors(first, next);
    Permute(a, lo, hi, first, next, b, nb);
    Clear(first, next);
  }
}
