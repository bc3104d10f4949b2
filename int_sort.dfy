/**
 * American flag sort of 32-bit ints: the same non-recursive MSD radix sort
 * as for strings, with the four bytes of an int as its digits, most
 * significant first. Small items are finished by insertion sort from byte
 * d; larger ones get one in-place pass on byte d, which pushes one item per
 * bucket holding two keys or more while d < 3. Once all four bytes agree the
 * keys are equal, so nothing is pushed after byte 3.
 */
module IntSort {
  import opened IntKeys
  import opened Buckets
  import opened Worklist

  /** Bytes are digits 0..3, so every item is shallower than 4. */
  const HEIGHT: nat := 4

  /** The slot function of a pass on byte d: (x >> Shift(d)) & 0xFF. */
  function Digit(d: nat): (b: int -> int)
    requires d < 4
  {
    x => Byte(x, d)
  }

  /** The order the sort establishes: less from byte 0 on. */
  ghost predicate Below(v: int, w: int)
  {
    Less(v, w, 0)
  }

  /** No key of lo..hi is less, from byte d on, than a key before it. */
  ghost predicate SortedFrom(s: seq<int>, lo: int, hi: int, d: nat)
    requires 0 <= lo && hi < |s|
  {
    forall p, q :: lo <= p < q <= hi ==> !Less(s[q], s[p], d)
  }

  // ---------------------------------------------------------------------
  // Insertion sort from byte d
  // ---------------------------------------------------------------------

  /**
   * Insertion sort of a[lo..hi] comparing from byte d: each a[i] is
   * exchanged downwards while it is less than its left neighbour.
   */
  method Insertion(a: array<int>, lo: int, hi: int, d: nat)
    requires 0 <= lo <= hi + 1 <= a.Length
    modifies a
    ensures SortedFrom(a[..], lo, hi, d)
    ensures multiset(a[lo..hi + 1]) == old(multiset(a[lo..hi + 1]))
    ensures SameOutside(a[..], old(a[..]), lo, hi)
  {
    var i := lo;
    while i <= hi
      invariant lo <= i <= hi + 1
      invariant SortedFrom(a[..], lo, i - 1, d)
      invariant multiset(a[lo..hi + 1]) == old(multiset(a[lo..hi + 1]))
      invariant SameOutside(a[..], old(a[..]), lo, hi)
    {
      Sink(a, lo, hi, i, d);
      i := i + 1;
    }
  }

  /**
   * While a[j] sinks: the keys of lo..i other than the one at j are in order,
   * and that one is less than every key after it up to i.
   */
  ghost predicate Sinking(s: seq<int>, lo: int, i: int, j: int, d: nat)
  {
    0 <= lo <= j <= i < |s|
    && (forall p, q :: lo <= p < q <= i && p != j && q != j ==> !Less(s[q], s[p], d))
    && (forall q :: j < q <= i ==> Less(s[j], s[q], d))
  }

  /** An exchange of the sinking key with a greater left neighbour keeps Sinking one place down. */
  lemma SinkStep(s: seq<int>, t: seq<int>, lo: int, i: int, j: int, d: nat)
    requires Sinking(s, lo, i, j, d) && lo < j
    requires Less(s[j], s[j - 1], d)
    requires t == s[j := s[j - 1]][j - 1 := s[j]]
    ensures Sinking(t, lo, i, j - 1, d)
  {
  }

  /** Sinking stops at lo or below a key that is not greater: then lo..i is in order. */
  lemma SinkDone(s: seq<int>, lo: int, i: int, j: int, d: nat)
    requires Sinking(s, lo, i, j, d)
    requires j == lo || !Less(s[j], s[j - 1], d)
    ensures SortedFrom(s, lo, i, d)
  {
    forall p, q | lo <= p < q <= i ensures !Less(s[q], s[p], d) {
      if p == j {
        LessAsymmetric(s[p], s[q], d);
      } else if q == j && p < j - 1 {
        LessNotBelowTransitive(s[p], s[j - 1], s[j], d);
      }
    }
  }

  /** The inner loop of insertion sort: move a[i] down into the sorted a[lo..i-1]. */
  method Sink(a: array<int>, lo: int, hi: int, i: int, d: nat)
    requires 0 <= lo <= i <= hi < a.Length
    requires SortedFrom(a[..], lo, i - 1, d)
    modifies a
    ensures SortedFrom(a[..], lo, i, d)
    ensures multiset(a[lo..hi + 1]) == old(multiset(a[lo..hi + 1]))
    ensures SameOutside(a[..], old(a[..]), lo, hi)
  {
    var j := i;
    while j > lo
      invariant Sinking(a[..], lo, i, j, d)
      invariant multiset(a[lo..hi + 1]) == old(multiset(a[lo..hi + 1]))
      invariant SameOutside(a[..], old(a[..]), lo, hi)
    {
      var less := IsLess(a[j], a[j - 1], d);
      if !less {
        break;
      }
      SwapDown(a, lo, hi, i, j, d);
      j := j - 1;
    }
    SinkDone(a[..], lo, i, j, d);
  }

  /** One exchange of insertion sort: a[j] is less than a[j - 1], swap them. */
  method SwapDown(a: array<int>, lo: int, hi: int, i: int, j: int, d: nat)
    requires i <= hi < a.Length && lo < j
    requires Sinking(a[..], lo, i, j, d) && Less(a[j], a[j - 1], d)
    modifies a
    ensures Sinking(a[..], lo, i, j - 1, d)
    ensures multiset(a[lo..hi + 1]) == old(multiset(a[lo..hi + 1]))
    ensures SameOutside(a[..], old(a[..]), lo, hi)
  {
    ghost var before := a[..];
    Exch(a, j, j - 1);
    SinkStep(before, a[..], lo, i, j, d);
    ExchKeepsRange(before, a[..], j, j - 1, lo, hi);
  }

  // ---------------------------------------------------------------------
  // The sort
  // ---------------------------------------------------------------------

  /**
   * Sort a[lo..hi]: starting from the item (lo, hi, 0), repeatedly pop an
   * item; finish it by insertion sort when it holds at most CUTOFF + 1 keys,
   * else run a pass on byte d, which, while d < 3, pushes one item at depth
   * d + 1 for every bucket with two keys or more. Afterwards no key of
   * lo..hi is less than a key before it, lo..hi holds the same keys, and
   * nothing outside lo..hi has moved.
   */
  method SortRange(a: array<int>, lo: int, hi: int)
    requires 0 <= lo <= hi + 1 <= a.Length
    modifies a
    ensures forall p, q :: lo <= p < q <= hi ==> !Less(a[q], a[p], 0)
    ensures multiset(a[lo..hi + 1]) == old(multiset(a[lo..hi + 1]))
    ensures SameOutside(a[..], old(a[..]), lo, hi)
  {
    ghost var s0 := a[..];
    var first := new int[R + 1](_ => 0);
    var next := new int[R + 1](_ => 0);
    var st := [WorkItem(lo, hi, 0)];
    SortingStart(s0, lo, hi);
    while st != []
      invariant Sorting(a[..], s0, lo, hi, st)
      invariant forall c :: 0 <= c < R + 1 ==> first[c] == 0 && next[c] == 0
      decreases Measure(st, HEIGHT), |st|
    {
      var it := st[|st| - 1];
      ghost var whole := st;
      st := st[..|st| - 1];
      assert whole == st + [it];
      if it.hi <= it.lo + CUTOFF {
        ghost var t := Finish(a, lo, hi, st, it, s0, a[..]);
        MeasureConcat(st, [it], HEIGHT);
      } else {
        ghost var t;
        st, t := Distribute(a, lo, hi, first, next, st, it, s0, a[..]);
      }
    }
    SortingDone(a[..], s0, lo, hi);
    assert a[lo..hi + 1] == a[..][lo..hi + 1];
  }

  /**
   * Rearrange a in ascending order of the keys' unsigned 32-bit values;
   * when every key is a non-negative int this is ascending numeric order.
   * An array of Java ints that is already in order comes back unchanged.
   */
  method Sort(a: array<int>)
    modifies a
    ensures forall p, q :: 0 <= p < q < a.Length ==> !Less(a[q], a[p], 0)
    ensures forall p, q :: 0 <= p < q < a.Length ==> Unsigned(a[p]) <= Unsigned(a[q])
    ensures multiset(a[..]) == old(multiset(a[..]))
    ensures (forall p :: 0 <= p < a.Length ==> IsInt32(old(a[p])))
            && (forall p, q :: 0 <= p < q < a.Length ==> !Less(old(a[q]), old(a[p]), 0))
            ==> a[..] == old(a[..])
  {
    ghost var s0 := a[..];
    SortRange(a, 0, a.Length - 1);
    assert a[..] == a[0..a.Length];
    assert s0 == s0[0..a.Length];
    forall p, q | 0 <= p < q < a.Length ensures Unsigned(a[p]) <= Unsigned(a[q]) {
      LessIsUnsignedOrder(a[q], a[p]);
    }
    if (forall p :: 0 <= p < a.Length ==> IsInt32(s0[p]))
       && (forall p, q :: 0 <= p < q < a.Length ==> !Less(s0[q], s0[p], 0))
    {
      SortedUnique(s0, a[..]);
    }
  }

  /**
   * Two arrangements of the same Java ints that are both in byte-wise order
   * are equal: the sorted order of a multiset of ints is unique.
   */
  lemma SortedUnique(s: seq<int>, t: seq<int>)
    requires forall p :: 0 <= p < |s| ==> IsInt32(s[p])
    requires multiset(s) == multiset(t)
    requires forall p, q :: 0 <= p < q < |s| ==> !Less(s[q], s[p], 0)
    requires forall p, q :: 0 <= p < q < |t| ==> !Less(t[q], t[p], 0)
    ensures s == t
  {
    forall v, w | v in s && w in s && !Below(v, w) && !Below(w, v) ensures v == w {
      LessTotalOnInt32(v, w);
    }
    SameKeysSameOrder(s, t, Below);
  }

  /**
   * The loop invariant of SortRange, s0 being the array on entry: the work
   * list is pending and s rearranges s0 within lo..hi.
   */
  ghost predicate Sorting(s: seq<int>, s0: seq<int>, lo: int, hi: int, st: seq<WorkItem>)
  {
    0 <= lo <= hi + 1 <= |s| && |s| == |s0|
    && Pending(s, lo, hi, st, HEIGHT, AgreeBytes, Below)
    && SameOutside(s, s0, lo, hi) && multiset(s[lo..hi + 1]) == multiset(s0[lo..hi + 1])
  }

  /** The single item (lo, hi, 0) starts the loop. */
  lemma SortingStart(s0: seq<int>, lo: int, hi: int)
    requires 0 <= lo <= hi + 1 <= |s0|
    ensures Sorting(s0, s0, lo, hi, [WorkItem(lo, hi, 0)])
  {
    PendingStart(s0, lo, hi, HEIGHT, AgreeBytes, Below);
  }

  /** With the work list empty, lo..hi is in order. */
  lemma SortingDone(s: seq<int>, s0: seq<int>, lo: int, hi: int)
    requires Sorting(s, s0, lo, hi, [])
    ensures forall p, q :: lo <= p < q <= hi ==> !Less(s[q], s[p], 0)
  {
    PendingDone(s, lo, hi, HEIGHT, AgreeBytes, Below);
  }

  /** A popped item of at most CUTOFF + 1 keys: insertion sort from its depth. */
  method Finish(a: array<int>, lo: int, hi: int, st: seq<WorkItem>, it: WorkItem,
                ghost s0: seq<int>, ghost s: seq<int>)
    returns (ghost t: seq<int>)
    requires a[..] == s && Sorting(s, s0, lo, hi, st + [it])
    modifies a
    ensures a[..] == t && Sorting(t, s0, lo, hi, st)
  {
    SmallReady(s, s0, lo, hi, st, it);
    Insertion(a, it.lo, it.hi, it.d);
    t := a[..];
    SmallDone(s0, s, t, lo, hi, st, it);
  }

  /** The popped item is inside the range. */
  lemma SmallReady(s: seq<int>, s0: seq<int>, lo: int, hi: int, st: seq<WorkItem>, it: WorkItem)
    requires Sorting(s, s0, lo, hi, st + [it])
    ensures 0 <= lo <= it.lo <= it.hi + 1 <= hi + 1 <= |s|
  {
    TopItem(s, lo, hi, st, it, HEIGHT, AgreeBytes, Below);
  }

  /** After insertion sort of the popped item, the invariant holds for the rest of the stack. */
  lemma SmallDone(s0: seq<int>, s: seq<int>, t: seq<int>, lo: int, hi: int, st: seq<WorkItem>, it: WorkItem)
    requires Sorting(s, s0, lo, hi, st + [it]) && |t| == |s|
    requires 0 <= it.lo <= it.hi + 1 <= |s|
    requires SortedFrom(t, it.lo, it.hi, it.d)
    requires multiset(t[it.lo..it.hi + 1]) == multiset(s[it.lo..it.hi + 1])
    requires SameOutside(t, s, it.lo, it.hi)
    ensures Sorting(t, s0, lo, hi, st)
  {
    TopItem(s, lo, hi, st, it, HEIGHT, AgreeBytes, Below);
    InsertionStep(s, t, it);
    assert st + [] == st;
    StepDone(s0, s, t, lo, hi, st, it, []);
  }

  /**
   * A popped item of more than CUTOFF + 1 keys: one pass on its byte d,
   * pushing, while d < 3, an item for every bucket with two keys or more.
   * The stack's measure decreases.
   */
  method Distribute(a: array<int>, lo: int, hi: int, first: array<int>, next: array<int>,
                    st: seq<WorkItem>, it: WorkItem, ghost s0: seq<int>, ghost s: seq<int>)
    returns (st': seq<WorkItem>, ghost t: seq<int>)
    requires first.Length == R + 1 && next.Length == R + 1 && first != next
    requires a as object != first && a as object != next
    requires a[..] == s && Sorting(s, s0, lo, hi, st + [it])
    requires forall c :: 0 <= c < R + 1 ==> first[c] == 0 && next[c] == 0
    requires it.lo + CUTOFF < it.hi
    modifies a, first, next
    ensures a[..] == t && Sorting(t, s0, lo, hi, st')
    ensures forall c :: 0 <= c < R + 1 ==> first[c] == 0 && next[c] == 0
    ensures Measure(st', HEIGHT) < Measure(st + [it], HEIGHT)
  {
    LargeReady(s, s0, lo, hi, st, it);
    ghost var f;
    st', f := Pass(a, it.lo, it.hi, first, next, Digit(it.d), R, it.d, 0, it.d < 3, st);
    t := a[..];
    LargeDone(s0, s, t, lo, hi, st, it, f);
  }

  /** The popped item is inside the range, its byte exists and its keys have slots 0..R-1. */
  lemma LargeReady(s: seq<int>, s0: seq<int>, lo: int, hi: int, st: seq<WorkItem>, it: WorkItem)
    requires Sorting(s, s0, lo, hi, st + [it])
    ensures 0 <= lo <= it.lo <= it.hi + 1 <= hi + 1 <= |s| && it.d < 4
    ensures SlotsIn(s[it.lo..it.hi + 1], Digit(it.d), R)
  {
    TopItem(s, lo, hi, st, it, HEIGHT, AgreeBytes, Below);
  }

  /** After the pass, the invariant holds for the stack with the pushed items, whose measure is smaller. */
  lemma LargeDone(s0: seq<int>, s: seq<int>, t: seq<int>, lo: int, hi: int, st: seq<WorkItem>, it: WorkItem,
                  f: seq<int>)
    requires Sorting(s, s0, lo, hi, st + [it]) && |t| == |s| && it.d < 4
    requires 0 <= it.lo && it.lo + CUTOFF < it.hi < |s|
    requires multiset(t[it.lo..it.hi + 1]) == multiset(s[it.lo..it.hi + 1])
    requires SameOutside(t, s, it.lo, it.hi)
    requires SlotsIn(s[it.lo..it.hi + 1], Digit(it.d), R)
    requires |f| == R + 1 && forall c :: 0 <= c <= R ==> f[c] == it.lo + Before(s[it.lo..it.hi + 1], Digit(it.d), c)
    requires InBuckets(t, it.lo, it.hi, f, Digit(it.d), R)
    ensures Sorting(t, s0, lo, hi, st + Subproblems(f, R, 0, it.d < 3, it.d))
    ensures Measure(st + Subproblems(f, R, 0, it.d < 3, it.d), HEIGHT) < Measure(st + [it], HEIGHT)
  {
    BucketStarts(f, s[it.lo..it.hi + 1], Digit(it.d), it.lo, R);
    TopItem(s, lo, hi, st, it, HEIGHT, AgreeBytes, Below);
    PassStep(s, t, it, f);
    PassMeasure(st, it, f, R, 0, it.d < 3, HEIGHT);
    StepDone(s0, s, t, lo, hi, st, it, Subproblems(f, R, 0, it.d < 3, it.d));
  }

  /** After either kind of step the loop invariant holds for the new stack. */
  lemma StepDone(s0: seq<int>, s: seq<int>, t: seq<int>, lo: int, hi: int, st: seq<WorkItem>, it: WorkItem,
                 pushed: seq<WorkItem>)
    requires Sorting(s, s0, lo, hi, st + [it])
    requires StepResult(s, t, it, pushed, HEIGHT, AgreeBytes, Below)
    ensures Sorting(t, s0, lo, hi, st + pushed)
  {
    StepKeepsPending(s, t, lo, hi, st, it, pushed, HEIGHT, AgreeBytes, Below);
    TopItem(s, lo, hi, st, it, HEIGHT, AgreeBytes, Below);
  }

  /** Insertion sort from the item's byte puts its keys in order. */
  lemma InsertionStep(s: seq<int>, t: seq<int>, it: WorkItem)
    requires 0 <= it.lo <= it.hi + 1 <= |s| && |t| == |s|
    requires forall p, q {:trigger AgreeBytes(s[p], s[q], it.d)} :: it.lo <= p <= it.hi && it.lo <= q <= it.hi ==> AgreeBytes(s[p], s[q], it.d)
    requires SortedFrom(t, it.lo, it.hi, it.d)
    requires multiset(t[it.lo..it.hi + 1]) == multiset(s[it.lo..it.hi + 1])
    requires SameOutside(t, s, it.lo, it.hi)
    ensures StepResult(s, t, it, [], HEIGHT, AgreeBytes, Below)
  {
    AgreeKept(s, t, it.lo, it.hi, it.d, AgreeBytes);
    forall p, q | it.lo <= p < q <= it.hi ensures !Below(t[q], t[p]) {
      assert AgreeBytes(t[q], t[p], it.d);
      LessSkipsAgreedBytes(t[q], t[p], 0, it.d);
    }
  }

  /**
   * After a pass on the item's byte d, with every key in its bucket: keys in
   * different buckets are in order, keys agreeing on all four bytes are
   * equal, and for d < 3 each bucket with two keys or more is a pushed item
   * whose keys agree on bytes 0..d.
   */
  lemma PassStep(s: seq<int>, t: seq<int>, it: WorkItem, f: seq<int>)
    requires 0 <= it.lo <= it.hi + 1 <= |s| && it.d < 4 && |t| == |s|
    requires forall p, q {:trigger AgreeBytes(s[p], s[q], it.d)} :: it.lo <= p <= it.hi && it.lo <= q <= it.hi ==> AgreeBytes(s[p], s[q], it.d)
    requires multiset(t[it.lo..it.hi + 1]) == multiset(s[it.lo..it.hi + 1])
    requires SameOutside(t, s, it.lo, it.hi)
    requires StartsOf(f, s[it.lo..it.hi + 1], Digit(it.d), it.lo, R) && Monotone(f)
    requires InBuckets(t, it.lo, it.hi, f, Digit(it.d), R)
    ensures StepResult(s, t, it, Subproblems(f, R, 0, it.d < 3, it.d), HEIGHT, AgreeBytes, Below)
  {
    var d, pushed := it.d, Subproblems(f, R, 0, it.d < 3, it.d);
    AgreeKept(s, t, it.lo, it.hi, d, AgreeBytes);
    SubproblemsWithin(f, R, 0, d < 3, d);
    SubproblemsAscending(f, R, 0, d < 3, d);
    PushedItems(t, it, f);
    PassOrder(t, it, f);
  }

  /** The pushed items: inside the item, at depth d + 1 <= 3, keys agreeing on bytes 0..d. */
  lemma PushedItems(t: seq<int>, it: WorkItem, f: seq<int>)
    requires 0 <= it.lo <= it.hi + 1 <= |t| && it.d < 4
    requires forall p, q {:trigger AgreeBytes(t[p], t[q], it.d)} :: it.lo <= p <= it.hi && it.lo <= q <= it.hi ==> AgreeBytes(t[p], t[q], it.d)
    requires |f| == R + 1 && Monotone(f) && f[0] == it.lo && f[R] == it.hi + 1
    requires InBuckets(t, it.lo, it.hi, f, Digit(it.d), R)
    ensures ItemsInside(Subproblems(f, R, 0, it.d < 3, it.d), it.lo, it.hi, HEIGHT)
    ensures ItemsAgree(t, Subproblems(f, R, 0, it.d < 3, it.d), AgreeBytes)
  {
    var d := it.d;
    if d == 3 {
      SubproblemsNone(f, R, 0, d);
    } else {
      var pushed := Subproblems(f, R, 0, true, d);
      SubproblemsWithin(f, R, 0, true, d);
      forall t0 | 0 <= t0 < |pushed|
        ensures forall p, q {:trigger AgreeBytes(t[p], t[q], pushed[t0].d)} :: pushed[t0].lo <= p <= pushed[t0].hi && pushed[t0].lo <= q <= pushed[t0].hi ==> AgreeBytes(t[p], t[q], pushed[t0].d)
      {
        var c := SubproblemBucket(f, R, 0, true, d, t0);
        BucketAgree(t, it, f, c, pushed[t0]);
      }
    }
  }

  /** The keys of the item w pushed for bucket c agree on bytes 0..d. */
  lemma BucketAgree(t: seq<int>, it: WorkItem, f: seq<int>, c: int, w: WorkItem)
    requires 0 <= it.lo && it.hi < |t| && it.d < 4
    requires forall p, q {:trigger AgreeBytes(t[p], t[q], it.d)} :: it.lo <= p <= it.hi && it.lo <= q <= it.hi ==> AgreeBytes(t[p], t[q], it.d)
    requires |f| == R + 1 && Monotone(f) && InBuckets(t, it.lo, it.hi, f, Digit(it.d), R)
    requires 0 <= c < R && it.lo <= f[c] && f[c + 1] <= it.hi + 1
    requires w == WorkItem(f[c], f[c + 1] - 1, it.d + 1)
    ensures forall p, q {:trigger AgreeBytes(t[p], t[q], w.d)} :: w.lo <= p <= w.hi && w.lo <= q <= w.hi ==> AgreeBytes(t[p], t[q], w.d)
  {
    forall p, q | w.lo <= p <= w.hi && w.lo <= q <= w.hi ensures AgreeBytes(t[p], t[q], w.d) {
      BucketPair(t, it, f, c, p, q);
    }
  }

  /** A key at position p of bucket c of the table has byte c. */
  lemma InBucket(t: seq<int>, it: WorkItem, f: seq<int>, c: int, p: int)
    requires it.d < 4 && |f| == R + 1 && Monotone(f) && InBuckets(t, it.lo, it.hi, f, Digit(it.d), R)
    requires 0 <= c < R && it.lo <= p <= it.hi && f[c] <= p < f[c + 1]
    ensures Byte(t[p], it.d) == c
  {
    RegionUnique(f, Digit(it.d)(t[p]), c, p);
  }

  /** Two keys of bucket c agree on bytes 0..d. */
  lemma BucketPair(t: seq<int>, it: WorkItem, f: seq<int>, c: int, p: int, q: int)
    requires 0 <= it.lo && it.hi < |t| && it.d < 4
    requires forall p, q {:trigger AgreeBytes(t[p], t[q], it.d)} :: it.lo <= p <= it.hi && it.lo <= q <= it.hi ==> AgreeBytes(t[p], t[q], it.d)
    requires |f| == R + 1 && Monotone(f) && InBuckets(t, it.lo, it.hi, f, Digit(it.d), R)
    requires 0 <= c < R && it.lo <= f[c] && f[c + 1] <= it.hi + 1
    requires f[c] <= p < f[c + 1] && f[c] <= q < f[c + 1]
    ensures AgreeBytes(t[p], t[q], it.d + 1)
  {
    InBucket(t, it, f, c, p);
    InBucket(t, it, f, c, q);
    AgreeOneMore(t[p], t[q], it.d);
  }

  /** Pairs of the item's keys that no pushed item covers are in order. */
  lemma PassOrder(t: seq<int>, it: WorkItem, f: seq<int>)
    requires 0 <= it.lo <= it.hi + 1 <= |t| && it.d < 4
    requires forall p, q {:trigger AgreeBytes(t[p], t[q], it.d)} :: it.lo <= p <= it.hi && it.lo <= q <= it.hi ==> AgreeBytes(t[p], t[q], it.d)
    requires |f| == R + 1 && Monotone(f) && f[0] == it.lo && f[R] == it.hi + 1
    requires InBuckets(t, it.lo, it.hi, f, Digit(it.d), R)
    ensures Settled(t, it.lo, it.hi, Subproblems(f, R, 0, it.d < 3, it.d), Below)
  {
    var pushed := Subproblems(f, R, 0, it.d < 3, it.d);
    forall p, q | it.lo <= p < q <= it.hi && !Together(pushed, p, q) ensures !Below(t[q], t[p]) {
      assert AgreeBytes(t[p], t[q], it.d);
      PairOrder(t, it, f, p, q);
    }
  }

  /** Two keys of the item at p < q that no pushed item covers are in order. */
  lemma PairOrder(t: seq<int>, it: WorkItem, f: seq<int>, p: int, q: int)
    requires 0 <= it.lo <= p < q <= it.hi < |t| && it.d < 4
    requires AgreeBytes(t[p], t[q], it.d)
    requires |f| == R + 1 && Monotone(f) && f[0] == it.lo && f[R] == it.hi + 1
    requires InBuckets(t, it.lo, it.hi, f, Digit(it.d), R)
    requires !Together(Subproblems(f, R, 0, it.d < 3, it.d), p, q)
    ensures !Below(t[q], t[p])
  {
    var d := it.d;
    var cp, cq := Byte(t[p], d), Byte(t[q], d);
    assert Digit(d)(t[p]) == cp && Digit(d)(t[q]) == cq;
    SlotsInOrder(t, it.lo, it.hi, f, Digit(d), R, p, q);
    if cp == cq && d < 3 {
      SameBucketTogether(t, it, f, p, q);
    }
    KeysInOrder(t[p], t[q], d);
  }

  /** Two keys of one bucket at byte d < 3 end up in one pushed item. */
  lemma SameBucketTogether(t: seq<int>, it: WorkItem, f: seq<int>, p: int, q: int)
    requires 0 <= it.lo <= p < q <= it.hi < |t| && it.d < 3
    requires |f| == R + 1 && Monotone(f)
    requires InBuckets(t, it.lo, it.hi, f, Digit(it.d), R)
    requires Byte(t[p], it.d) == Byte(t[q], it.d)
    ensures Together(Subproblems(f, R, 0, true, it.d), p, q)
  {
    var d, c := it.d, Byte(t[p], it.d);
    assert Digit(d)(t[p]) == c && Digit(d)(t[q]) == c;
    assert f[c] <= p && q < f[c + 1];
    SubproblemsComplete(f, R, 0, true, d, c);
    var S := Subproblems(f, R, 0, true, d);
    var i :| 0 <= i < |S| && S[i] == WorkItem(f[c], f[c + 1] - 1, d + 1);
    assert S[i].lo <= p && q <= S[i].hi;
  }

  /**
   * Keys agreeing on bytes 0..d-1 whose byte d is in order are in order,
   * provided that byte d differs unless it is the last one.
   */
  lemma KeysInOrder(v: int, w: int, d: nat)
    requires d < 4 && AgreeBytes(v, w, d) && Byte(v, d) <= Byte(w, d)
    requires d < 3 ==> Byte(v, d) < Byte(w, d)
    ensures !Below(w, v)
  {
    if Byte(v, d) < Byte(w, d) {
      LowerByteIsLess(v, w, d);
      LessAsymmetric(v, w, 0);
    } else {
      AgreeOneMore(v, w, d);
      AllBytesAgree(v, w);
    }
  }
}
