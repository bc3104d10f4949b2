/**
 * American flag sort of extended-ASCII strings: a non-recursive MSD radix
 * sort with an explicit stack of work items (lo, hi, d). Small items are
 * finished by insertion sort from character d; larger ones get one in-place
 * pass on character d, which pushes one item per non-sentinel bucket holding
 * two keys or more.
 */
module StringSort {
  import opened StringKeys
  import opened Buckets
  import opened Worklist

  /** The slot function of a pass at depth d: CharAt + 1, so the sentinel takes slot 0. */
  function Digit(d: nat): (b: Key -> int)
  {
    s => Bucket(s, d)
  }

  /** The order the sort establishes: less from the first character on. */
  ghost predicate Below(v: Key, w: Key)
  {
    Less(v, w, 0)
  }

  /** Keys lo..hi are extended ASCII and shorter than height. */
  ghost predicate Fit(s: seq<Key>, lo: int, hi: int, height: nat)
  {
    0 <= lo && hi < |s| && forall p :: lo <= p <= hi ==> ExtendedAscii(s[p]) && |s[p]| < height
  }

  /** Keys lo..hi have at least d characters. */
  ghost predicate Reaches(s: seq<Key>, lo: int, hi: int, d: nat)
  {
    0 <= lo && hi < |s| && forall p :: lo <= p <= hi ==> d <= |s[p]|
  }

  /** No key of lo..hi is less, from character d on, than a key before it. */
  ghost predicate SortedFrom(s: seq<Key>, lo: int, hi: int, d: nat)
    requires 0 <= lo && hi < |s|
  {
    forall p, q :: lo <= p < q <= hi ==> !Less(s[q], s[p], d)
  }

  /** A length exceeding every key of s. */
  function MaxLength(s: seq<Key>): (m: nat)
    ensures forall i :: 0 <= i < |s| ==> |s[i]| <= m
  {
    if s == [] then 0
    else
      var m := MaxLength(s[..|s| - 1]);
      var n := |s[|s| - 1]|;
      if m < n then n else m
  }

  // ---------------------------------------------------------------------
  // Insertion sort from character d
  // ---------------------------------------------------------------------

  /**
   * Insertion sort of a[lo..hi] comparing from character d: each a[i] is
   * exchanged downwards while it is less than its left neighbour. Every key
   * has at least d characters.
   */
  method Insertion(a: array<Key>, lo: int, hi: int, d: nat)
    requires 0 <= lo <= hi + 1 <= a.Length
    requires Reaches(a[..], lo, hi, d)
    modifies a
    ensures SortedFrom(a[..], lo, hi, d)
    ensures multiset(a[lo..hi + 1]) == old(multiset(a[lo..hi + 1]))
    ensures SameOutside(a[..], old(a[..]), lo, hi)
  {
    var i := lo;
    while i <= hi
      invariant lo <= i <= hi + 1
      invariant SortedFrom(a[..], lo, i - 1, d)
      invariant Reaches(a[..], lo, hi, d)
      invariant multiset(a[lo..hi + 1]) == old(multiset(a[lo..hi + 1]))
      invariant SameOutside(a[..], old(a[..]), lo, hi)
    {
      Sink(a, lo, hi, i, d);
      i := i + 1;
    }
  }

  /**
   * While a[j] sinks: the keys of lo..i other than the one at j are in order,
   * and that one is less than every key after it up to i.
   */
  ghost predicate Sinking(s: seq<Key>, lo: int, i: int, j: int, d: nat)
  {
    0 <= lo <= j <= i < |s|
    && (forall p, q :: lo <= p < q <= i && p != j && q != j ==> !Less(s[q], s[p], d))
    && (forall q :: j < q <= i ==> Less(s[j], s[q], d))
  }

  /** An exchange of the sinking key with a greater left neighbour keeps Sinking one place down. */
  lemma SinkStep(s: seq<Key>, t: seq<Key>, lo: int, i: int, j: int, d: nat)
    requires Sinking(s, lo, i, j, d) && lo < j
    requires Less(s[j], s[j - 1], d)
    requires t == s[j := s[j - 1]][j - 1 := s[j]]
    ensures Sinking(t, lo, i, j - 1, d)
  {
  }

  /** Sinking stops at lo or below a key that is not greater: then lo..i is in order. */
  lemma SinkDone(s: seq<Key>, lo: int, i: int, j: int, d: nat)
    requires Sinking(s, lo, i, j, d)
    requires Reaches(s, lo, i, d)
    requires j == lo || !Less(s[j], s[j - 1], d)
    ensures SortedFrom(s, lo, i, d)
  {
    forall p, q | lo <= p < q <= i ensures !Less(s[q], s[p], d) {
      if p == j {
        LessAsymmetric(s[p], s[q], d);
      } else if q == j && p < j - 1 {
        LessNotBelowTransitive(s[p], s[j - 1], s[j], d);
      }
    }
  }

  /** The inner loop of insertion sort: move a[i] down into the sorted a[lo..i-1]. */
  method Sink(a: array<Key>, lo: int, hi: int, i: int, d: nat)
    requires 0 <= lo <= i <= hi < a.Length
    requires Reaches(a[..], lo, hi, d)
    requires SortedFrom(a[..], lo, i - 1, d)
    modifies a
    ensures SortedFrom(a[..], lo, i, d)
    ensures Reaches(a[..], lo, hi, d)
    ensures multiset(a[lo..hi + 1]) == old(multiset(a[lo..hi + 1]))
    ensures SameOutside(a[..], old(a[..]), lo, hi)
  {
    var j := i;
    while j > lo
      invariant Sinking(a[..], lo, i, j, d)
      invariant Reaches(a[..], lo, hi, d)
      invariant multiset(a[lo..hi + 1]) == old(multiset(a[lo..hi + 1]))
      invariant SameOutside(a[..], old(a[..]), lo, hi)
    {
      var less := IsLess(a[j], a[j - 1], d);
      if !less {
        break;
      }
      SwapDown(a, lo, hi, i, j, d);
      j := j - 1;
    }
    SinkDone(a[..], lo, i, j, d);
  }

  /** One exchange of insertion sort: a[j] is less than a[j - 1], swap them. */
  method SwapDown(a: array<Key>, lo: int, hi: int, i: int, j: int, d: nat)
    requires i <= hi < a.Length && lo < j
    requires Sinking(a[..], lo, i, j, d) && Less(a[j], a[j - 1], d)
    requires Reaches(a[..], lo, hi, d)
    modifies a
    ensures Sinking(a[..], lo, i, j - 1, d)
    ensures Reaches(a[..], lo, hi, d)
    ensures multiset(a[lo..hi + 1]) == old(multiset(a[lo..hi + 1]))
    ensures SameOutside(a[..], old(a[..]), lo, hi)
  {
    ghost var before := a[..];
    Exch(a, j, j - 1);
    SinkStep(before, a[..], lo, i, j, d);
    ExchKeepsRange(before, a[..], j, j - 1, lo, hi);
    ExchKeepsReach(before, a[..], j, j - 1, lo, hi, d);
  }

  lemma ExchKeepsReach(s: seq<Key>, t: seq<Key>, i: int, j: int, lo: int, hi: int, d: nat)
    requires Reaches(s, lo, hi, d) && lo <= i <= hi && lo <= j <= hi
    requires t == s[i := s[j]][j := s[i]]
    ensures Reaches(t, lo, hi, d)
  {
  }

  // ---------------------------------------------------------------------
  // The sort
  // ---------------------------------------------------------------------

  /**
   * Sort a[lo..hi]: starting from the item (lo, hi, 0), repeatedly pop an
   * item; finish it by insertion sort when it holds at most CUTOFF + 1 keys,
   * else run a pass on character d, which pushes one item at depth d + 1 for
   * every non-sentinel bucket with two keys or more. Afterwards no key of
   * lo..hi is less than a key before it, lo..hi holds the same keys, and
   * nothing outside lo..hi has moved.
   */
  method SortRange(a: array<Key>, lo: int, hi: int)
    requires 0 <= lo <= hi + 1 <= a.Length
    requires forall p :: lo <= p <= hi ==> ExtendedAscii(a[p])
    modifies a
    ensures forall p, q :: lo <= p < q <= hi ==> !Less(a[q], a[p], 0)
    ensures multiset(a[lo..hi + 1]) == old(multiset(a[lo..hi + 1]))
    ensures SameOutside(a[..], old(a[..]), lo, hi)
  {
    ghost var s0 := a[..];
    ghost var height := MaxLength(a[lo..hi + 1]) + 1;
    var first := new int[R + 2](_ => 0);
    var next := new int[R + 2](_ => 0);
    var st := [WorkItem(lo, hi, 0)];
    SortingStart(s0, lo, hi, height);
    while st != []
      invariant Sorting(a[..], s0, lo, hi, st, height)
      invariant forall c :: 0 <= c < R + 2 ==> first[c] == 0 && next[c] == 0
      decreases Measure(st, height), |st|
    {
      var it := st[|st| - 1];
      ghost var whole := st;
      st := st[..|st| - 1];
      assert whole == st + [it];
      if it.hi <= it.lo + CUTOFF {
        ghost var t := Finish(a, lo, hi, st, it, height, s0, a[..]);
        MeasureConcat(st, [it], height);
      } else {
        ghost var t;
        st, t := Distribute(a, lo, hi, first, next, st, it, height, s0, a[..]);
      }
    }
    SortingDone(a[..], s0, lo, hi, height);
    assert a[lo..hi + 1] == a[..][lo..hi + 1];
  }

  /**
   * Rearrange a in lexicographic order; an array that is already in order
   * comes back unchanged.
   */
  method Sort(a: array<Key>)
    requires forall p :: 0 <= p < a.Length ==> ExtendedAscii(a[p])
    modifies a
    ensures forall p, q :: 0 <= p < q < a.Length ==> !Less(a[q], a[p], 0)
    ensures multiset(a[..]) == old(multiset(a[..]))
    ensures (forall p, q :: 0 <= p < q < a.Length ==> !Less(old(a[q]), old(a[p]), 0)) ==> a[..] == old(a[..])
  {
    ghost var s0 := a[..];
    SortRange(a, 0, a.Length - 1);
    assert a[..] == a[0..a.Length];
    assert s0 == s0[0..a.Length];
    if forall p, q :: 0 <= p < q < a.Length ==> !Less(s0[q], s0[p], 0) {
      SortedUnique(s0, a[..]);
    }
  }

  /**
   * Two arrangements of the same keys that are both in lexicographic order
   * are equal: the sorted order of a multiset of strings is unique.
   */
  lemma SortedUnique(s: seq<Key>, t: seq<Key>)
    requires multiset(s) == multiset(t)
    requires forall p, q :: 0 <= p < q < |s| ==> !Less(s[q], s[p], 0)
    requires forall p, q :: 0 <= p < q < |t| ==> !Less(t[q], t[p], 0)
    ensures s == t
  {
    forall v, w | v in s && w in s && !Below(v, w) && !Below(w, v) ensures v == w {
      LessTotal(v, w, 0);
      assert v == v[0..] && w == w[0..];
    }
    SameKeysSameOrder(s, t, Below);
  }

  /**
   * The loop invariant of SortRange, s0 being the array on entry: the work
   * list is pending, the keys of lo..hi fit, and s rearranges s0 within lo..hi.
   */
  ghost predicate Sorting(s: seq<Key>, s0: seq<Key>, lo: int, hi: int, st: seq<WorkItem>, height: nat)
  {
    0 <= lo <= hi + 1 <= |s| && |s| == |s0|
    && Pending(s, lo, hi, st, height, AgreeBelow, Below) && Fit(s, lo, hi, height)
    && SameOutside(s, s0, lo, hi) && multiset(s[lo..hi + 1]) == multiset(s0[lo..hi + 1])
  }

  /** The single item (lo, hi, 0) starts the loop. */
  lemma SortingStart(s0: seq<Key>, lo: int, hi: int, height: nat)
    requires 0 <= lo <= hi + 1 <= |s0|
    requires forall p :: lo <= p <= hi ==> ExtendedAscii(s0[p])
    requires height == MaxLength(s0[lo..hi + 1]) + 1
    ensures Sorting(s0, s0, lo, hi, [WorkItem(lo, hi, 0)], height)
  {
    forall p | lo <= p <= hi ensures |s0[p]| < height {
      assert s0[p] == s0[lo..hi + 1][p - lo];
    }
    PendingStart(s0, lo, hi, height, AgreeBelow, Below);
  }

  /** With the work list empty, lo..hi is in order. */
  lemma SortingDone(s: seq<Key>, s0: seq<Key>, lo: int, hi: int, height: nat)
    requires Sorting(s, s0, lo, hi, [], height)
    ensures forall p, q :: lo <= p < q <= hi ==> !Less(s[q], s[p], 0)
  {
    PendingDone(s, lo, hi, height, AgreeBelow, Below);
  }

  /** A popped item of at most CUTOFF + 1 keys: insertion sort from its depth. */
  method Finish(a: array<Key>, lo: int, hi: int, st: seq<WorkItem>, it: WorkItem, ghost height: nat,
                ghost s0: seq<Key>, ghost s: seq<Key>)
    returns (ghost t: seq<Key>)
    requires a[..] == s && Sorting(s, s0, lo, hi, st + [it], height)
    modifies a
    ensures a[..] == t && Sorting(t, s0, lo, hi, st, height)
  {
    SmallReady(s, s0, lo, hi, st, it, height);
    Insertion(a, it.lo, it.hi, it.d);
    t := a[..];
    SmallDone(s0, s, t, lo, hi, st, it, height);
  }

  /** The popped item is inside the range and its keys reach its depth. */
  lemma SmallReady(s: seq<Key>, s0: seq<Key>, lo: int, hi: int, st: seq<WorkItem>, it: WorkItem, height: nat)
    requires Sorting(s, s0, lo, hi, st + [it], height)
    ensures 0 <= lo <= it.lo <= it.hi + 1 <= hi + 1 <= |s|
    ensures Reaches(s, it.lo, it.hi, it.d)
  {
    TopItem(s, lo, hi, st, it, height, AgreeBelow, Below);
    ItemReaches(s, it);
  }

  /** After insertion sort of the popped item, the invariant holds for the rest of the stack. */
  lemma SmallDone(s0: seq<Key>, s: seq<Key>, t: seq<Key>, lo: int, hi: int, st: seq<WorkItem>, it: WorkItem, height: nat)
    requires Sorting(s, s0, lo, hi, st + [it], height) && |t| == |s|
    requires 0 <= it.lo <= it.hi + 1 <= |s|
    requires SortedFrom(t, it.lo, it.hi, it.d)
    requires multiset(t[it.lo..it.hi + 1]) == multiset(s[it.lo..it.hi + 1])
    requires SameOutside(t, s, it.lo, it.hi)
    ensures Sorting(t, s0, lo, hi, st, height)
  {
    TopItem(s, lo, hi, st, it, height, AgreeBelow, Below);
    InsertionStep(s, t, it, height);
    assert st + [] == st;
    StepDone(s0, s, t, lo, hi, st, it, [], height);
  }

  /**
   * A popped item of more than CUTOFF + 1 keys: one pass on its depth d,
   * pushing an item for every non-sentinel bucket with two keys or more.
   * The stack's measure decreases.
   */
  method Distribute(a: array<Key>, lo: int, hi: int, first: array<int>, next: array<int>,
                    st: seq<WorkItem>, it: WorkItem, ghost height: nat, ghost s0: seq<Key>, ghost s: seq<Key>)
    returns (st': seq<WorkItem>, ghost t: seq<Key>)
    requires first.Length == R + 2 && next.Length == R + 2 && first != next
    requires a as object != first && a as object != next
    requires a[..] == s && Sorting(s, s0, lo, hi, st + [it], height)
    requires forall c :: 0 <= c < R + 2 ==> first[c] == 0 && next[c] == 0
    requires it.lo + CUTOFF < it.hi
    modifies a, first, next
    ensures a[..] == t && Sorting(t, s0, lo, hi, st', height)
    ensures forall c :: 0 <= c < R + 2 ==> first[c] == 0 && next[c] == 0
    ensures Measure(st', height) < Measure(st + [it], height)
  {
    LargeReady(s, s0, lo, hi, st, it, height);
    ghost var f;
    st', f := Pass(a, it.lo, it.hi, first, next, Digit(it.d), R + 1, it.d, 1, true, st);
    t := a[..];
    LargeDone(s0, s, t, lo, hi, st, it, f, height);
  }

  /** The popped item is inside the range and its keys have slots 0..R. */
  lemma LargeReady(s: seq<Key>, s0: seq<Key>, lo: int, hi: int, st: seq<WorkItem>, it: WorkItem, height: nat)
    requires Sorting(s, s0, lo, hi, st + [it], height)
    ensures 0 <= lo <= it.lo <= it.hi + 1 <= hi + 1 <= |s|
    ensures SlotsIn(s[it.lo..it.hi + 1], Digit(it.d), R + 1)
  {
    TopItem(s, lo, hi, st, it, height, AgreeBelow, Below);
    ItemSlots(s, lo, hi, it, height);
  }

  /** After the pass, the invariant holds for the stack with the pushed items, whose measure is smaller. */
  lemma LargeDone(s0: seq<Key>, s: seq<Key>, t: seq<Key>, lo: int, hi: int, st: seq<WorkItem>, it: WorkItem,
                  f: seq<int>, height: nat)
    requires Sorting(s, s0, lo, hi, st + [it], height) && |t| == |s|
    requires 0 <= it.lo && it.lo + CUTOFF < it.hi < |s|
    requires multiset(t[it.lo..it.hi + 1]) == multiset(s[it.lo..it.hi + 1])
    requires SameOutside(t, s, it.lo, it.hi)
    requires SlotsIn(s[it.lo..it.hi + 1], Digit(it.d), R + 1)
    requires |f| == R + 2 && forall c :: 0 <= c <= R + 1 ==> f[c] == it.lo + Before(s[it.lo..it.hi + 1], Digit(it.d), c)
    requires InBuckets(t, it.lo, it.hi, f, Digit(it.d), R + 1)
    ensures Sorting(t, s0, lo, hi, st + Subproblems(f, R + 1, 1, true, it.d), height)
    ensures Measure(st + Subproblems(f, R + 1, 1, true, it.d), height) < Measure(st + [it], height)
  {
    BucketStarts(f, s[it.lo..it.hi + 1], Digit(it.d), it.lo, R + 1);
    TopItem(s, lo, hi, st, it, height, AgreeBelow, Below);
    PassStep(s, t, lo, hi, it, f, height);
    PassMeasure(st, it, f, R + 1, 1, true, height);
    StepDone(s0, s, t, lo, hi, st, it, Subproblems(f, R + 1, 1, true, it.d), height);
  }

  /** After either kind of step the loop invariant holds for the new stack. */
  lemma StepDone(s0: seq<Key>, s: seq<Key>, t: seq<Key>, lo: int, hi: int, st: seq<WorkItem>, it: WorkItem,
                 pushed: seq<WorkItem>, height: nat)
    requires Sorting(s, s0, lo, hi, st + [it], height)
    requires StepResult(s, t, it, pushed, height, AgreeBelow, Below)
    ensures Sorting(t, s0, lo, hi, st + pushed, height)
  {
    StepKeepsPending(s, t, lo, hi, st, it, pushed, height, AgreeBelow, Below);
    TopItem(s, lo, hi, st, it, height, AgreeBelow, Below);
    FitKept(s, t, lo, hi, it, height);
  }

  /** The keys of an item have at least as many characters as its depth. */
  lemma ItemReaches(s: seq<Key>, it: WorkItem)
    requires 0 <= it.lo <= it.hi + 1 <= |s|
    requires forall p, q {:trigger AgreeBelow(s[p], s[q], it.d)} :: it.lo <= p <= it.hi && it.lo <= q <= it.hi ==> AgreeBelow(s[p], s[q], it.d)
    ensures Reaches(s, it.lo, it.hi, it.d)
  {
    forall p | it.lo <= p <= it.hi ensures it.d <= |s[p]| {
      assert AgreeBelow(s[p], s[p], it.d);
    }
  }

  /** The keys of an item have slots 0..R at its depth. */
  lemma ItemSlots(s: seq<Key>, lo: int, hi: int, it: WorkItem, height: nat)
    requires lo <= it.lo <= it.hi + 1 <= hi + 1 && Fit(s, lo, hi, height)
    requires forall p, q {:trigger AgreeBelow(s[p], s[q], it.d)} :: it.lo <= p <= it.hi && it.lo <= q <= it.hi ==> AgreeBelow(s[p], s[q], it.d)
    ensures SlotsIn(s[it.lo..it.hi + 1], Digit(it.d), R + 1)
  {
    var r := s[it.lo..it.hi + 1];
    forall i | 0 <= i < |r| ensures 0 <= Digit(it.d)(r[i]) < R + 1 {
      var p := it.lo + i;
      assert r[i] == s[p];
      assert AgreeBelow(s[p], s[p], it.d);
      BucketRange(s[p], it.d);
    }
  }

  /** Rearranging the keys of an item keeps every key of lo..hi fitting. */
  lemma FitKept(s: seq<Key>, t: seq<Key>, lo: int, hi: int, it: WorkItem, height: nat)
    requires Fit(s, lo, hi, height) && lo <= it.lo <= it.hi + 1 <= hi + 1
    requires SameOutside(t, s, it.lo, it.hi)
    requires multiset(t[it.lo..it.hi + 1]) == multiset(s[it.lo..it.hi + 1])
    ensures Fit(t, lo, hi, height)
  {
    forall p | lo <= p <= hi ensures ExtendedAscii(t[p]) && |t[p]| < height {
      if it.lo <= p <= it.hi {
        var p' := PermMember(s, t, it.lo, it.hi, p);
      }
    }
  }

  /** Insertion sort from the item's depth puts its keys in order. */
  lemma InsertionStep(s: seq<Key>, t: seq<Key>, it: WorkItem, height: nat)
    requires 0 <= it.lo <= it.hi + 1 <= |s| && |t| == |s|
    requires forall p, q {:trigger AgreeBelow(s[p], s[q], it.d)} :: it.lo <= p <= it.hi && it.lo <= q <= it.hi ==> AgreeBelow(s[p], s[q], it.d)
    requires SortedFrom(t, it.lo, it.hi, it.d)
    requires multiset(t[it.lo..it.hi + 1]) == multiset(s[it.lo..it.hi + 1])
    requires SameOutside(t, s, it.lo, it.hi)
    ensures StepResult(s, t, it, [], height, AgreeBelow, Below)
  {
    AgreeKept(s, t, it.lo, it.hi, it.d, AgreeBelow);
    forall p, q | it.lo <= p < q <= it.hi ensures !Below(t[q], t[p]) {
      assert AgreeBelow(t[q], t[p], it.d);
      LessSkipsCommonPrefix(t[q], t[p], it.d);
    }
  }

  /**
   * After a pass on the item's depth d, with every key in its bucket: keys in
   * different buckets are in order, sentinel keys are equal, and each other
   * bucket with two keys or more is a pushed item whose keys share d + 1
   * characters.
   */
  lemma PassStep(s: seq<Key>, t: seq<Key>, lo: int, hi: int, it: WorkItem, f: seq<int>, height: nat)
    requires lo <= it.lo <= it.hi + 1 <= hi + 1 && Fit(s, lo, hi, height) && it.d < height && |t| == |s|
    requires forall p, q {:trigger AgreeBelow(s[p], s[q], it.d)} :: it.lo <= p <= it.hi && it.lo <= q <= it.hi ==> AgreeBelow(s[p], s[q], it.d)
    requires multiset(t[it.lo..it.hi + 1]) == multiset(s[it.lo..it.hi + 1])
    requires SameOutside(t, s, it.lo, it.hi)
    requires StartsOf(f, s[it.lo..it.hi + 1], Digit(it.d), it.lo, R + 1) && Monotone(f)
    requires InBuckets(t, it.lo, it.hi, f, Digit(it.d), R + 1)
    ensures StepResult(s, t, it, Subproblems(f, R + 1, 1, true, it.d), height, AgreeBelow, Below)
  {
    var d, pushed := it.d, Subproblems(f, R + 1, 1, true, it.d);
    AgreeKept(s, t, it.lo, it.hi, d, AgreeBelow);
    FitKept(s, t, lo, hi, it, height);
    SubproblemsWithin(f, R + 1, 1, true, d);
    SubproblemsAscending(f, R + 1, 1, true, d);
    PushedItems(t, lo, hi, it, f, height);
    PassOrder(t, lo, hi, it, f, height);
  }

  /** The pushed items: inside the item, one level deeper, below height, keys sharing d + 1 characters. */
  lemma PushedItems(t: seq<Key>, lo: int, hi: int, it: WorkItem, f: seq<int>, height: nat)
    requires lo <= it.lo <= it.hi + 1 <= hi + 1 && Fit(t, lo, hi, height)
    requires forall p, q {:trigger AgreeBelow(t[p], t[q], it.d)} :: it.lo <= p <= it.hi && it.lo <= q <= it.hi ==> AgreeBelow(t[p], t[q], it.d)
    requires |f| == R + 2 && Monotone(f) && f[0] == it.lo && f[R + 1] == it.hi + 1
    requires InBuckets(t, it.lo, it.hi, f, Digit(it.d), R + 1)
    ensures ItemsInside(Subproblems(f, R + 1, 1, true, it.d), it.lo, it.hi, height)
    ensures ItemsAgree(t, Subproblems(f, R + 1, 1, true, it.d), AgreeBelow)
  {
    PushedDeeper(t, lo, hi, it, f, height);
    PushedAgree(t, it, f);
  }

  /** Every pushed item lies inside the popped one and is shallower than height. */
  lemma PushedDeeper(t: seq<Key>, lo: int, hi: int, it: WorkItem, f: seq<int>, height: nat)
    requires lo <= it.lo <= it.hi + 1 <= hi + 1 && Fit(t, lo, hi, height)
    requires forall p, q {:trigger AgreeBelow(t[p], t[q], it.d)} :: it.lo <= p <= it.hi && it.lo <= q <= it.hi ==> AgreeBelow(t[p], t[q], it.d)
    requires |f| == R + 2 && Monotone(f) && f[0] == it.lo && f[R + 1] == it.hi + 1
    requires InBuckets(t, it.lo, it.hi, f, Digit(it.d), R + 1)
    ensures ItemsInside(Subproblems(f, R + 1, 1, true, it.d), it.lo, it.hi, height)
  {
    var d, pushed := it.d, Subproblems(f, R + 1, 1, true, it.d);
    SubproblemsWithin(f, R + 1, 1, true, d);
    forall t0 | 0 <= t0 < |pushed| ensures pushed[t0].d < height {
      var c := SubproblemBucket(f, R + 1, 1, true, d, t0);
      BucketDeeper(t, lo, hi, it, f, height, c);
    }
  }

  /** The keys of every pushed item share d + 1 characters. */
  lemma PushedAgree(t: seq<Key>, it: WorkItem, f: seq<int>)
    requires 0 <= it.lo && it.hi < |t|
    requires forall p, q {:trigger AgreeBelow(t[p], t[q], it.d)} :: it.lo <= p <= it.hi && it.lo <= q <= it.hi ==> AgreeBelow(t[p], t[q], it.d)
    requires forall p :: it.lo <= p <= it.hi ==> ExtendedAscii(t[p])
    requires |f| == R + 2 && Monotone(f) && f[0] == it.lo && f[R + 1] == it.hi + 1
    requires InBuckets(t, it.lo, it.hi, f, Digit(it.d), R + 1)
    ensures ItemsAgree(t, Subproblems(f, R + 1, 1, true, it.d), AgreeBelow)
  {
    var d, pushed := it.d, Subproblems(f, R + 1, 1, true, it.d);
    SubproblemsWithin(f, R + 1, 1, true, d);
    forall t0 | 0 <= t0 < |pushed|
      ensures forall p, q {:trigger AgreeBelow(t[p], t[q], pushed[t0].d)} :: pushed[t0].lo <= p <= pushed[t0].hi && pushed[t0].lo <= q <= pushed[t0].hi ==> AgreeBelow(t[p], t[q], pushed[t0].d)
    {
      var c := SubproblemBucket(f, R + 1, 1, true, d, t0);
      BucketAgree(t, it, f, c, pushed[t0]);
    }
  }

  /** The keys of the item w pushed for non-sentinel bucket c share d + 1 characters. */
  lemma BucketAgree(t: seq<Key>, it: WorkItem, f: seq<int>, c: int, w: WorkItem)
    requires 0 <= it.lo && it.hi < |t|
    requires forall p, q {:trigger AgreeBelow(t[p], t[q], it.d)} :: it.lo <= p <= it.hi && it.lo <= q <= it.hi ==> AgreeBelow(t[p], t[q], it.d)
    requires forall p :: it.lo <= p <= it.hi ==> ExtendedAscii(t[p])
    requires |f| == R + 2 && Monotone(f) && InBuckets(t, it.lo, it.hi, f, Digit(it.d), R + 1)
    requires 1 <= c <= R && it.lo <= f[c] && f[c + 1] <= it.hi + 1
    requires w == WorkItem(f[c], f[c + 1] - 1, it.d + 1)
    ensures forall p, q {:trigger AgreeBelow(t[p], t[q], w.d)} :: w.lo <= p <= w.hi && w.lo <= q <= w.hi ==> AgreeBelow(t[p], t[q], w.d)
  {
    forall p, q | w.lo <= p <= w.hi && w.lo <= q <= w.hi ensures AgreeBelow(t[p], t[q], w.d) {
      BucketPair(t, it, f, c, p, q);
    }
  }

  /** A key at position p of bucket c of the table has slot c. */
  lemma InBucket(t: seq<Key>, it: WorkItem, f: seq<int>, c: int, p: int)
    requires |f| == R + 2 && Monotone(f) && InBuckets(t, it.lo, it.hi, f, Digit(it.d), R + 1)
    requires 0 <= c <= R && it.lo <= p <= it.hi && f[c] <= p < f[c + 1]
    ensures Bucket(t[p], it.d) == c
  {
    RegionUnique(f, Digit(it.d)(t[p]), c, p);
  }

  /** A non-sentinel bucket c holding keys means their length, and so height, exceeds d + 1. */
  lemma BucketDeeper(t: seq<Key>, lo: int, hi: int, it: WorkItem, f: seq<int>, height: nat, c: int)
    requires lo <= it.lo <= it.hi + 1 <= hi + 1 && Fit(t, lo, hi, height)
    requires forall p, q {:trigger AgreeBelow(t[p], t[q], it.d)} :: it.lo <= p <= it.hi && it.lo <= q <= it.hi ==> AgreeBelow(t[p], t[q], it.d)
    requires |f| == R + 2 && Monotone(f) && InBuckets(t, it.lo, it.hi, f, Digit(it.d), R + 1)
    requires 1 <= c <= R && it.lo <= f[c] < f[c + 1] <= it.hi + 1
    ensures it.d + 1 < height
  {
    var p := f[c];
    InBucket(t, it, f, c, p);
    assert AgreeBelow(t[p], t[p], it.d);
  }

  /** Two keys of a non-sentinel bucket c share d + 1 characters. */
  lemma BucketPair(t: seq<Key>, it: WorkItem, f: seq<int>, c: int, p: int, q: int)
    requires 0 <= it.lo && it.hi < |t|
    requires forall p, q {:trigger AgreeBelow(t[p], t[q], it.d)} :: it.lo <= p <= it.hi && it.lo <= q <= it.hi ==> AgreeBelow(t[p], t[q], it.d)
    requires forall p :: it.lo <= p <= it.hi ==> ExtendedAscii(t[p])
    requires |f| == R + 2 && Monotone(f) && InBuckets(t, it.lo, it.hi, f, Digit(it.d), R + 1)
    requires 1 <= c <= R && it.lo <= f[c] && f[c + 1] <= it.hi + 1
    requires f[c] <= p < f[c + 1] && f[c] <= q < f[c + 1]
    ensures AgreeBelow(t[p], t[q], it.d + 1)
  {
    InBucket(t, it, f, c, p);
    InBucket(t, it, f, c, q);
    AgreeOneMore(t[p], t[q], it.d);
  }

  /** Pairs of the item's keys that no pushed item covers are in order. */
  lemma PassOrder(t: seq<Key>, lo: int, hi: int, it: WorkItem, f: seq<int>, height: nat)
    requires lo <= it.lo <= it.hi + 1 <= hi + 1 && Fit(t, lo, hi, height)
    requires forall p, q {:trigger AgreeBelow(t[p], t[q], it.d)} :: it.lo <= p <= it.hi && it.lo <= q <= it.hi ==> AgreeBelow(t[p], t[q], it.d)
    requires |f| == R + 2 && Monotone(f) && f[0] == it.lo && f[R + 1] == it.hi + 1
    requires InBuckets(t, it.lo, it.hi, f, Digit(it.d), R + 1)
    ensures Settled(t, it.lo, it.hi, Subproblems(f, R + 1, 1, true, it.d), Below)
  {
    var pushed := Subproblems(f, R + 1, 1, true, it.d);
    forall p, q | it.lo <= p < q <= it.hi && !Together(pushed, p, q) ensures !Below(t[q], t[p]) {
      assert AgreeBelow(t[p], t[q], it.d) && ExtendedAscii(t[p]) && ExtendedAscii(t[q]);
      PairOrder(t, it, f, p, q);
    }
  }

  /** Two keys of the item at p < q that no pushed item covers are in order. */
  lemma PairOrder(t: seq<Key>, it: WorkItem, f: seq<int>, p: int, q: int)
    requires 0 <= it.lo <= p < q <= it.hi < |t|
    requires AgreeBelow(t[p], t[q], it.d) && ExtendedAscii(t[p]) && ExtendedAscii(t[q])
    requires |f| == R + 2 && Monotone(f) && f[0] == it.lo && f[R + 1] == it.hi + 1
    requires InBuckets(t, it.lo, it.hi, f, Digit(it.d), R + 1)
    requires !Together(Subproblems(f, R + 1, 1, true, it.d), p, q)
    ensures !Below(t[q], t[p])
  {
    var d := it.d;
    var cp, cq := Bucket(t[p], d), Bucket(t[q], d);
    assert Digit(d)(t[p]) == cp && Digit(d)(t[q]) == cq;
    SlotsInOrder(t, it.lo, it.hi, f, Digit(d), R + 1, p, q);
    if cp < cq {
      LowerBucketIsLess(t[p], t[q], d);
      LessAsymmetric(t[p], t[q], 0);
    } else if cp == cq == 0 {
      SentinelKeysEqual(t[p], t[q], d);
      LessIrreflexive(t[q], 0);
    } else if cp == cq {
      SubproblemsComplete(f, R + 1, 1, true, d, cp);
    }
  }
}
