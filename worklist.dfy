/**
 * The explicit stack of American flag sort and the invariant it keeps.
 * Positions lo..hi of the array are "settled" with respect to one another
 * unless some pending work item still covers both; each pending item covers
 * keys that agree on their digits before the item's depth; pending items
 * are pairwise disjoint. A pass or an insertion sort on the top item keeps
 * this, and once the stack is empty the range is sorted.
 *
 * The key order (below) and the agreement relation (agree) are parameters,
 * so that the string and the int variants share the argument.
 */
module Worklist {
  import opened Buckets

  /** A popped item of at most CUTOFF + 1 keys is finished by insertion sort. */
  const CUTOFF: int := 15

  /** Some pending item covers both positions p and q. */
  ghost predicate Together(S: seq<WorkItem>, p: int, q: int)
  {
    exists t :: 0 <= t < |S| && S[t].lo <= p && q <= S[t].hi
  }

  /** Every pair of positions p < q of lo..hi that no item covers is in order. */
  ghost predicate Settled<T>(s: seq<T>, lo: int, hi: int, S: seq<WorkItem>, below: (T, T) -> bool)
  {
    0 <= lo && hi < |s|
    && forall p, q {:trigger below(s[q], s[p])} :: lo <= p < q <= hi && !Together(S, p, q) ==> !below(s[q], s[p])
  }

  /** Pending items cover pairwise disjoint ranges. */
  ghost predicate Disjoint(S: seq<WorkItem>)
  {
    forall t1, t2 :: 0 <= t1 < t2 < |S| ==> S[t1].hi < S[t2].lo || S[t2].hi < S[t1].lo
  }

  /** The keys of every item agree on their digits before the item's depth. */
  ghost predicate ItemsAgree<T>(s: seq<T>, S: seq<WorkItem>, agree: (T, T, nat) -> bool)
  {
    forall t, p, q {:trigger agree(s[p], s[q], S[t].d)} ::
      (0 <= t < |S| && S[t].lo <= p <= S[t].hi && S[t].lo <= q <= S[t].hi && 0 <= p < |s| && 0 <= q < |s|)
      ==> agree(s[p], s[q], S[t].d)
  }

  /** Every item lies inside lo..hi, is a range (possibly empty) and is shallower than height. */
  ghost predicate ItemsInside(S: seq<WorkItem>, lo: int, hi: int, height: nat)
  {
    forall t :: 0 <= t < |S| ==> lo <= S[t].lo <= S[t].hi + 1 <= hi + 1 && S[t].d < height
  }

  /** The invariant of the sort loop over a[lo..hi] with stack S. */
  ghost predicate Pending<T>(s: seq<T>, lo: int, hi: int, S: seq<WorkItem>, height: nat,
                             agree: (T, T, nat) -> bool, below: (T, T) -> bool)
  {
    ItemsInside(S, lo, hi, height) && Disjoint(S) && ItemsAgree(s, S, agree) && Settled(s, lo, hi, S, below)
  }

  /** The stack holding only the whole range at depth 0, whose keys agree on nothing yet. */
  lemma PendingStart<T>(s: seq<T>, lo: int, hi: int, height: nat, agree: (T, T, nat) -> bool, below: (T, T) -> bool)
    requires 0 <= lo <= hi + 1 <= |s| && 0 < height
    requires forall p, q {:trigger agree(s[p], s[q], 0)} :: lo <= p <= hi && lo <= q <= hi ==> agree(s[p], s[q], 0)
    ensures Pending(s, lo, hi, [WorkItem(lo, hi, 0)], height, agree, below)
  {
    var S := [WorkItem(lo, hi, 0)];
    forall p, q | lo <= p < q <= hi ensures Together(S, p, q) {
      assert S[0].lo <= p && q <= S[0].hi;
    }
  }

  /** With nothing pending, the range is in order. */
  lemma PendingDone<T>(s: seq<T>, lo: int, hi: int, height: nat, agree: (T, T, nat) -> bool, below: (T, T) -> bool)
    requires Pending(s, lo, hi, [], height, agree, below)
    ensures forall p, q :: lo <= p < q <= hi ==> !below(s[q], s[p])
  {
  }

  /**
   * What one step does to the top item it: its range is rearranged in place
   * into t, and the items pushed for it lie inside its range, are disjoint,
   * agree at their depths, and cover every pair of its positions that is not
   * yet in order.
   */
  ghost predicate StepResult<T>(s: seq<T>, t: seq<T>, it: WorkItem, pushed: seq<WorkItem>, height: nat,
                                agree: (T, T, nat) -> bool, below: (T, T) -> bool)
  {
    0 <= it.lo <= it.hi + 1 <= |s|
    && SameOutside(t, s, it.lo, it.hi)
    && multiset(t[it.lo..it.hi + 1]) == multiset(s[it.lo..it.hi + 1])
    && ItemsInside(pushed, it.lo, it.hi, height)
    && Ascending(pushed)
    && ItemsAgree(t, pushed, agree)
    && Settled(t, it.lo, it.hi, pushed, below)
  }

  /** Replacing the top item by what a step pushed keeps the invariant. */
  lemma StepKeepsPending<T>(s: seq<T>, t: seq<T>, lo: int, hi: int, S0: seq<WorkItem>, it: WorkItem,
                            pushed: seq<WorkItem>, height: nat, agree: (T, T, nat) -> bool, below: (T, T) -> bool)
    requires 0 <= lo <= hi + 1 <= |s|
    requires Pending(s, lo, hi, S0 + [it], height, agree, below)
    requires StepResult(s, t, it, pushed, height, agree, below)
    ensures Pending(t, lo, hi, S0 + pushed, height, agree, below)
    ensures SameOutside(t, s, lo, hi) && multiset(t[lo..hi + 1]) == multiset(s[lo..hi + 1])
  {
    var S, S' := S0 + [it], S0 + pushed;
    assert S[|S0|] == it;
    forall t0 | 0 <= t0 < |S0| ensures S0[t0].hi < it.lo || it.hi < S0[t0].lo {
      assert S[t0] == S0[t0];
    }
    assert ItemsAgree(s, S0, agree) && Disjoint(S0) by {
      forall t0 | 0 <= t0 < |S0| ensures S[t0] == S0[t0] {
      }
    }
    Widen(s, t, lo, hi, it.lo, it.hi);
    ItemsOutside(s, t, S0, it, agree);
    OrderAcross(s, t, lo, hi, S0, it, pushed, below);
    DisjointAfter(S0, it, pushed);
    assert ItemsInside(S', lo, hi, height) by {
      forall t0 | 0 <= t0 < |S'| ensures lo <= S'[t0].lo <= S'[t0].hi + 1 <= hi + 1 && S'[t0].d < height {
        if t0 < |S0| {
          assert S'[t0] == S[t0];
        } else {
          assert S'[t0] == pushed[t0 - |S0|];
        }
      }
    }
    forall t0, p, q | 0 <= t0 < |S'| && S'[t0].lo <= p <= S'[t0].hi && S'[t0].lo <= q <= S'[t0].hi
      && 0 <= p < |t| && 0 <= q < |t|
      ensures agree(t[p], t[q], S'[t0].d)
    {
      if t0 < |S0| {
        assert S'[t0] == S0[t0];
      } else {
        assert S'[t0] == pushed[t0 - |S0|];
      }
    }
  }

  /** Items below the top keep their keys: they lie outside the rearranged range. */
  lemma ItemsOutside<T>(s: seq<T>, t: seq<T>, S0: seq<WorkItem>, it: WorkItem, agree: (T, T, nat) -> bool)
    requires SameOutside(t, s, it.lo, it.hi)
    requires forall t0 :: 0 <= t0 < |S0| ==> S0[t0].hi < it.lo || it.hi < S0[t0].lo
    requires ItemsAgree(s, S0, agree)
    ensures ItemsAgree(t, S0, agree)
  {
  }

  /** Disjointness of the new stack. */
  lemma DisjointAfter(S0: seq<WorkItem>, it: WorkItem, pushed: seq<WorkItem>)
    requires Disjoint(S0) && Ascending(pushed)
    requires forall t0 :: 0 <= t0 < |S0| ==> S0[t0].hi < it.lo || it.hi < S0[t0].lo
    requires forall t0 :: 0 <= t0 < |pushed| ==> it.lo <= pushed[t0].lo <= pushed[t0].hi + 1 <= it.hi + 1
    ensures Disjoint(S0 + pushed)
  {
    var S' := S0 + pushed;
    forall t1, t2 | 0 <= t1 < t2 < |S'| ensures S'[t1].hi < S'[t2].lo || S'[t2].hi < S'[t1].lo {
      if t2 < |S0| {
        assert S'[t1] == S0[t1] && S'[t2] == S0[t2];
      } else if t1 < |S0| {
        assert S'[t1] == S0[t1] && S'[t2] == pushed[t2 - |S0|];
      } else {
        assert S'[t1] == pushed[t1 - |S0|] && S'[t2] == pushed[t2 - |S0|];
      }
    }
  }

  /** Pairs of positions stay in order, or become covered by a pushed item. */
  lemma OrderAcross<T>(s: seq<T>, t: seq<T>, lo: int, hi: int, S0: seq<WorkItem>, it: WorkItem,
                       pushed: seq<WorkItem>, below: (T, T) -> bool)
    requires Settled(s, lo, hi, S0 + [it], below)
    requires 0 <= it.lo <= it.hi + 1 <= |s| && lo <= it.lo && it.hi <= hi
    requires SameOutside(t, s, it.lo, it.hi)
    requires multiset(t[it.lo..it.hi + 1]) == multiset(s[it.lo..it.hi + 1])
    requires forall t0 :: 0 <= t0 < |S0| ==> S0[t0].hi < it.lo || it.hi < S0[t0].lo
    requires Settled(t, it.lo, it.hi, pushed, below)
    ensures Settled(t, lo, hi, S0 + pushed, below)
  {
    forall p, q | lo <= p < q <= hi && !Together(S0 + pushed, p, q) ensures !below(t[q], t[p]) {
      PairAfterStep(s, t, lo, hi, S0, it, pushed, below, p, q);
    }
  }

  /** One pair p < q not covered after the step. */
  lemma PairAfterStep<T>(s: seq<T>, t: seq<T>, lo: int, hi: int, S0: seq<WorkItem>, it: WorkItem,
                         pushed: seq<WorkItem>, below: (T, T) -> bool, p: int, q: int)
    requires Settled(s, lo, hi, S0 + [it], below)
    requires 0 <= it.lo <= it.hi + 1 <= |s| && lo <= it.lo && it.hi <= hi
    requires SameOutside(t, s, it.lo, it.hi)
    requires multiset(t[it.lo..it.hi + 1]) == multiset(s[it.lo..it.hi + 1])
    requires forall t0 :: 0 <= t0 < |S0| ==> S0[t0].hi < it.lo || it.hi < S0[t0].lo
    requires Settled(t, it.lo, it.hi, pushed, below)
    requires lo <= p < q <= hi && !Together(S0 + pushed, p, q)
    ensures !below(t[q], t[p])
  {
    var inP, inQ := it.lo <= p <= it.hi, it.lo <= q <= it.hi;
    if inP && inQ {
      NotCoveredByPushed(S0, pushed, p, q);
    } else {
      var p', q' := p, q;
      if inP {
        p' := PermMember(s, t, it.lo, it.hi, p);
        NotTogetherAcross(S0, it, p', q);
      } else if inQ {
        q' := PermMember(s, t, it.lo, it.hi, q);
        NotTogetherAcross(S0, it, p, q');
      } else {
        NotCoveredBelow(S0, it, pushed, p, q);
      }
      SettledPair(s, lo, hi, S0 + [it], below, p', q');
    }
  }

  /** Settled, for one pair. */
  lemma SettledPair<T>(s: seq<T>, lo: int, hi: int, S: seq<WorkItem>, below: (T, T) -> bool, p: int, q: int)
    requires Settled(s, lo, hi, S, below)
    requires lo <= p < q <= hi && !Together(S, p, q)
    ensures !below(s[q], s[p])
  {
  }

  /** A pair no item of S0 + pushed covers is covered by no pushed item. */
  lemma NotCoveredByPushed(S0: seq<WorkItem>, pushed: seq<WorkItem>, p: int, q: int)
    requires !Together(S0 + pushed, p, q)
    ensures !Together(pushed, p, q)
  {
    var S' := S0 + pushed;
    forall t0 | 0 <= t0 < |pushed| ensures !(pushed[t0].lo <= p && q <= pushed[t0].hi) {
      assert S'[|S0| + t0] == pushed[t0];
    }
  }

  /** A pair outside the top item that no item of S0 + pushed covers was not covered before the step. */
  lemma NotCoveredBelow(S0: seq<WorkItem>, it: WorkItem, pushed: seq<WorkItem>, p: int, q: int)
    requires !Together(S0 + pushed, p, q)
    requires !(it.lo <= p && q <= it.hi)
    ensures !Together(S0 + [it], p, q)
  {
    var S, S' := S0 + [it], S0 + pushed;
    forall t0 | 0 <= t0 < |S| ensures !(S[t0].lo <= p && q <= S[t0].hi) {
      if t0 < |S0| {
        assert S'[t0] == S[t0];
      }
    }
  }

  /** A position of the top item and one beyond it are never covered together. */
  lemma NotTogetherAcross(S0: seq<WorkItem>, it: WorkItem, p: int, q: int)
    requires forall t0 :: 0 <= t0 < |S0| ==> S0[t0].hi < it.lo || it.hi < S0[t0].lo
    requires (it.lo <= p <= it.hi && it.hi < q) || (p < it.lo && it.lo <= q <= it.hi)
    ensures !Together(S0 + [it], p, q)
  {
    var S := S0 + [it];
    forall t0 | 0 <= t0 < |S| ensures !(S[t0].lo <= p && q <= S[t0].hi) {
      if t0 < |S0| {
        assert S[t0] == S0[t0];
      }
    }
  }

  /** The top item lies inside the range, is shallower than height, and its keys agree at its depth. */
  lemma TopItem<T>(s: seq<T>, lo: int, hi: int, S0: seq<WorkItem>, it: WorkItem, height: nat,
                   agree: (T, T, nat) -> bool, below: (T, T) -> bool)
    requires Pending(s, lo, hi, S0 + [it], height, agree, below)
    ensures 0 <= lo <= it.lo <= it.hi + 1 <= hi + 1 <= |s| && it.d < height
    ensures forall p, q {:trigger agree(s[p], s[q], it.d)} :: it.lo <= p <= it.hi && it.lo <= q <= it.hi ==> agree(s[p], s[q], it.d)
    ensures forall t0 :: 0 <= t0 < |S0| ==> S0[t0].hi < it.lo || it.hi < S0[t0].lo
  {
    var S := S0 + [it];
    assert S[|S0|] == it;
    forall t0 | 0 <= t0 < |S0| ensures S0[t0].hi < it.lo || it.hi < S0[t0].lo {
      assert S[t0] == S0[t0];
    }
  }

  /** Rearranging a range keeps every pair of its keys in the relation agree. */
  lemma AgreeKept<T>(s: seq<T>, t: seq<T>, lo: int, hi: int, d: nat, agree: (T, T, nat) -> bool)
    requires 0 <= lo <= hi + 1 <= |s| && |t| == |s|
    requires multiset(t[lo..hi + 1]) == multiset(s[lo..hi + 1])
    requires forall p, q {:trigger agree(s[p], s[q], d)} :: lo <= p <= hi && lo <= q <= hi ==> agree(s[p], s[q], d)
    ensures forall p, q {:trigger agree(t[p], t[q], d)} :: lo <= p <= hi && lo <= q <= hi ==> agree(t[p], t[q], d)
  {
    forall p, q | lo <= p <= hi && lo <= q <= hi ensures agree(t[p], t[q], d) {
      var p' := PermMember(s, t, lo, hi, p);
      var q' := PermMember(s, t, lo, hi, q);
    }
  }

  /**
   * Two arrangements of the same keys that are both in order under below are
   * one and the same sequence, provided keys neither of which is below the
   * other are equal: a sorted order of a multiset is unique.
   */
  lemma {:induction false} SameKeysSameOrder<T>(s: seq<T>, t: seq<T>, below: (T, T) -> bool)
    requires multiset(s) == multiset(t)
    requires forall p, q :: 0 <= p < q < |s| ==> !below(s[q], s[p])
    requires forall p, q :: 0 <= p < q < |t| ==> !below(t[q], t[p])
    requires forall v, w :: v in s && w in s && !below(v, w) && !below(w, v) ==> v == w
    ensures s == t
    decreases |s|
  {
    assert |s| == |multiset(s)| == |multiset(t)| == |t|;
    if s != [] {
      HeadsEqual(s, t, below);
      TailKeys(s, t);
      forall p, q | 0 <= p < q < |s| - 1 ensures !below(s[1..][q], s[1..][p]) {
        assert !below(s[q + 1], s[p + 1]);
      }
      forall p, q | 0 <= p < q < |t| - 1 ensures !below(t[1..][q], t[1..][p]) {
        assert !below(t[q + 1], t[p + 1]);
      }
      forall v, w | v in s[1..] && w in s[1..] && !below(v, w) && !below(w, v) ensures v == w {
        assert v in s && w in s;
      }
      SameKeysSameOrder(s[1..], t[1..], below);
      assert s == [s[0]] + s[1..] && t == [t[0]] + t[1..];
    }
  }

  /** Sorted arrangements of the same keys begin with the same key. */
  lemma HeadsEqual<T>(s: seq<T>, t: seq<T>, below: (T, T) -> bool)
    requires multiset(s) == multiset(t) && s != []
    requires forall p, q :: 0 <= p < q < |s| ==> !below(s[q], s[p])
    requires forall p, q :: 0 <= p < q < |t| ==> !below(t[q], t[p])
    requires forall v, w :: v in s && w in s && !below(v, w) && !below(w, v) ==> v == w
    ensures t != [] && s[0] == t[0]
  {
    assert s[0] in multiset(t);
    var j :| 0 <= j < |t| && t[j] == s[0];
    assert t[0] in multiset(s);
    var i :| 0 <= i < |s| && s[i] == t[0];
    if j > 0 && i > 0 {
      assert !below(t[j], t[0]) && !below(s[i], s[0]);
      assert s[0] in s && t[0] in s;
    }
  }

  /** Removing an equal first key from equal multisets leaves equal multisets. */
  lemma TailKeys<T>(s: seq<T>, t: seq<T>)
    requires multiset(s) == multiset(t) && s != [] && t != [] && s[0] == t[0]
    ensures multiset(s[1..]) == multiset(t[1..])
  {
    assert s == [s[0]] + s[1..] && t == [t[0]] + t[1..];
    assert multiset(s) == multiset([s[0]]) + multiset(s[1..]);
    assert multiset(t) == multiset([t[0]]) + multiset(t[1..]);
    assert multiset([s[0]]) == multiset([t[0]]);
    assert multiset(s[1..]) == multiset(s) - multiset([s[0]]);
  }

  /** Rearranging a sub-range lo'..hi' rearranges every range lo..hi around it. */
  lemma Widen<T>(s: seq<T>, t: seq<T>, lo: int, hi: int, lo': int, hi': int)
    requires 0 <= lo <= lo' <= hi' + 1 <= hi + 1 <= |s|
    requires SameOutside(t, s, lo', hi')
    requires multiset(t[lo'..hi' + 1]) == multiset(s[lo'..hi' + 1])
    ensures SameOutside(t, s, lo, hi)
    ensures multiset(t[lo..hi + 1]) == multiset(s[lo..hi + 1])
  {
    assert s[lo..hi + 1] == s[lo..lo'] + s[lo'..hi' + 1] + s[hi' + 1..hi + 1];
    assert t[lo..hi + 1] == t[lo..lo'] + t[lo'..hi' + 1] + t[hi' + 1..hi + 1];
    assert t[lo..lo'] == s[lo..lo'];
    assert t[hi' + 1..hi + 1] == s[hi' + 1..hi + 1];
  }

}
