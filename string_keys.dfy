/**
 * String keys of American flag sort: extended-ASCII strings, a string being
 * a sequence of character codes. The digit at depth d is the character at
 * position d, or the sentinel -1 once the string is exhausted.
 */
module StringKeys {
  import opened Lexicographic

  /** Size of the extended-ASCII alphabet. */
  const R: int := 256

  type Key = seq<int>

  /** Every character of the key is an extended-ASCII code. */
  predicate ExtendedAscii(s: Key)
  {
    forall i :: 0 <= i < |s| ==> 0 <= s[i] < R
  }

  /** The d-th character of s, or -1 when d is the length of s. */
  function CharAt(s: Key, d: nat): (c: int)
    requires d <= |s|
    ensures d < |s| ==> c == s[d]
    ensures ExtendedAscii(s) ==> -1 <= c < R && (c == -1 <==> d == |s|)
  {
    if d == |s| then -1 else s[d]
  }

  /**
   * The count slot of s at depth d: CharAt(s, d) + 1, so that the
   * exhausted-string sentinel takes slot 0. Keys shorter than d never reach a
   * pass (every work item's keys have at least d characters); they get slot 0.
   */
  function Bucket(s: Key, d: nat): (c: int)
  {
    if d <= |s| then CharAt(s, d) + 1 else 0
  }

  /** Is v less than w, comparing from character d on. */
  function Less(v: Key, w: Key, d: nat): (r: bool)
    decreases |v| - d
  {
    if d < |v| && d < |w| then
      if v[d] < w[d] then true
      else if v[d] > w[d] then false
      else Less(v, w, d + 1)
    else |v| < |w|
  }

  /**
   * The comparison loop: scan positions d, d + 1, ... up to the shorter
   * length; the first differing character decides, and when none differs the
   * shorter key is the lesser.
   */
  method IsLess(v: Key, w: Key, d: nat) returns (r: bool)
    ensures r == Less(v, w, d)
  {
    var m := if |v| < |w| then |v| else |w|;
    var i := d;
    while i < m
      invariant d <= i
      invariant Less(v, w, i) == Less(v, w, d)
      decreases m - i
    {
      if v[i] < w[i] {
        return true;
      }
      if v[i] > w[i] {
        return false;
      }
      i := i + 1;
    }
    return |v| < |w|;
  }

  /** v and w have at least d characters and share their first d. */
  ghost predicate AgreeBelow(v: Key, w: Key, d: nat)
  {
    d <= |v| && d <= |w| && v[..d] == w[..d]
  }

  /** The slot of an extended-ASCII key lies in 0..R. */
  lemma BucketRange(s: Key, d: nat)
    requires ExtendedAscii(s) && d <= |s|
    ensures 0 <= Bucket(s, d) <= R
    ensures Bucket(s, d) == 0 <==> d == |s|
  {
  }

  /** Less from depth d is the lexicographic order of the suffixes from d. */
  lemma {:induction false} LessIsLex(v: Key, w: Key, d: nat)
    requires d <= |v| && d <= |w|
    ensures Less(v, w, d) == Lex(v[d..], w[d..])
    decreases |v| - d
  {
    if d < |v| && d < |w| {
      assert v[d..][1..] == v[d + 1..];
      assert w[d..][1..] == w[d + 1..];
      LessIsLex(v, w, d + 1);
    }
  }

  /** Less is irreflexive: equal suffixes give false. */
  lemma LessIrreflexive(v: Key, d: nat)
    requires d <= |v|
    ensures !Less(v, v, d)
  {
    LessIsLex(v, v, d);
    LexIrreflexive(v[d..]);
  }

  /** Less at a fixed depth is asymmetric. */
  lemma LessAsymmetric(v: Key, w: Key, d: nat)
    requires d <= |v| && d <= |w|
    ensures Less(v, w, d) ==> !Less(w, v, d)
  {
    LessIsLex(v, w, d);
    LessIsLex(w, v, d);
    LexAsymmetric(v[d..], w[d..]);
  }

  /** Two keys neither of which is less than the other have equal suffixes. */
  lemma LessTotal(v: Key, w: Key, d: nat)
    requires d <= |v| && d <= |w|
    requires !Less(v, w, d) && !Less(w, v, d)
    ensures v[d..] == w[d..]
  {
    LessIsLex(v, w, d);
    LessIsLex(w, v, d);
    LexTotal(v[d..], w[d..]);
  }

  /** "Not less" is transitive among keys of length at least d. */
  lemma LessNotBelowTransitive(u: Key, v: Key, w: Key, d: nat)
    requires d <= |u| && d <= |v| && d <= |w|
    requires !Less(v, u, d) && !Less(w, v, d)
    ensures !Less(w, u, d)
  {
    LessIsLex(v, u, d);
    LessIsLex(w, v, d);
    LessIsLex(w, u, d);
    LexNotBelowTransitive(u[d..], v[d..], w[d..]);
  }

  /** A proper prefix is less than its extension. */
  lemma PrefixIsLess(v: Key, w: Key, d: nat)
    requires d <= |v| < |w| && v == w[..|v|]
    ensures Less(v, w, d)
  {
    LessIsLex(v, w, d);
    assert v[d..] == w[d..][..|v| - d];
    LexPrefixBelow(v[d..], w[d..]);
  }

  /** Keys sharing their first d characters compare alike from 0 and from d. */
  lemma LessSkipsCommonPrefix(v: Key, w: Key, d: nat)
    requires AgreeBelow(v, w, d)
    ensures Less(v, w, 0) == Less(v, w, d)
  {
    LessIsLex(v, w, 0);
    LessIsLex(v, w, d);
    assert v == v[..d] + v[d..] && w == w[..d] + w[d..];
    LexCommonPrefix(v[..d], v[d..], w[d..]);
  }

  /** Between keys sharing their first d characters, a lower slot at d means less. */
  lemma LowerBucketIsLess(v: Key, w: Key, d: nat)
    requires AgreeBelow(v, w, d)
    requires Bucket(v, d) < Bucket(w, d)
    requires ExtendedAscii(v) && ExtendedAscii(w)
    ensures Less(v, w, 0)
  {
    LessSkipsCommonPrefix(v, w, d);
    if d < |v| {
      assert d < |w| && v[d] < w[d];
    }
  }

  /** Keys sharing their first d characters and both of length d are equal. */
  lemma SentinelKeysEqual(v: Key, w: Key, d: nat)
    requires AgreeBelow(v, w, d)
    requires Bucket(v, d) == 0 && Bucket(w, d) == 0
    requires ExtendedAscii(v) && ExtendedAscii(w)
    ensures v == w
  {
    assert v == v[..d] && w == w[..d];
  }

  /** Sharing the first d characters and a non-sentinel slot at d means sharing d + 1. */
  lemma AgreeOneMore(v: Key, w: Key, d: nat)
    requires AgreeBelow(v, w, d)
    requires Bucket(v, d) == Bucket(w, d) && Bucket(v, d) != 0
    requires ExtendedAscii(v) && ExtendedAscii(w)
    ensures AgreeBelow(v, w, d + 1)
  {
    assert v[..d + 1] == v[..d] + [v[d]];
    assert w[..d + 1] == w[..d] + [w[d]];
  }
}
