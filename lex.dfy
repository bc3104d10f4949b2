/**
 * Lexicographic order on digit sequences: the reference ordering against
 * which both key comparisons of American flag sort are stated. A proper
 * prefix sorts before its extensions; otherwise the first differing digit
 * decides.
 */
module Lexicographic {

  /** Strict lexicographic order on sequences of digits. */
  function Lex(x: seq<int>, y: seq<int>): (r: bool)
  {
    if x == [] then y != []
    else if y == [] then false
    else if x[0] != y[0] then x[0] < y[0]
    else Lex(x[1..], y[1..])
  }

  /** Lex is irreflexive: no sequence is below itself. */
  lemma {:induction false} LexIrreflexive(x: seq<int>)
    ensures !Lex(x, x)
  {
    if x != [] {
      LexIrreflexive(x[1..]);
    }
  }

  /** Lex is asymmetric. */
  lemma {:induction false} LexAsymmetric(x: seq<int>, y: seq<int>)
    ensures Lex(x, y) ==> !Lex(y, x)
  {
    if x != [] && y != [] && x[0] == y[0] {
      LexAsymmetric(x[1..], y[1..]);
    }
  }

  /** Lex is transitive. */
  lemma {:induction false} LexTransitive(x: seq<int>, y: seq<int>, z: seq<int>)
    requires Lex(x, y) && Lex(y, z)
    ensures Lex(x, z)
  {
    if x != [] && y != [] && z != [] && x[0] == y[0] && y[0] == z[0] {
      LexTransitive(x[1..], y[1..], z[1..]);
    }
  }

  /** Lex is total: two sequences neither of which is below the other are equal. */
  lemma {:induction false} LexTotal(x: seq<int>, y: seq<int>)
    requires !Lex(x, y) && !Lex(y, x)
    ensures x == y
  {
    if x != [] && y != [] {
      LexTotal(x[1..], y[1..]);
      assert x == [x[0]] + x[1..] && y == [y[0]] + y[1..];
    }
  }

  /** The non-strict order "not below" is transitive (what insertion sort relies on). */
  lemma LexNotBelowTransitive(x: seq<int>, y: seq<int>, z: seq<int>)
    requires !Lex(y, x) && !Lex(z, y)
    ensures !Lex(z, x)
  {
    if Lex(z, x) {
      if Lex(x, y) {
        LexTransitive(z, x, y);
      } else {
        LexTotal(x, y);
      }
    }
  }

  /** A common prefix does not change the comparison. */
  lemma {:induction false} LexCommonPrefix(p: seq<int>, x: seq<int>, y: seq<int>)
    ensures Lex(p + x, p + y) == Lex(x, y)
  {
    if p == [] {
      assert p + x == x && p + y == y;
    } else {
      assert (p + x)[1..] == p[1..] + x;
      assert (p + y)[1..] == p[1..] + y;
      LexCommonPrefix(p[1..], x, y);
    }
  }

  /** A proper prefix sorts strictly before its extension. */
  lemma {:induction false} LexPrefixBelow(x: seq<int>, y: seq<int>)
    requires |x| < |y| && x == y[..|x|]
    ensures Lex(x, y)
  {
    if x != [] {
      assert x[1..] == y[1..][..|x| - 1];
      LexPrefixBelow(x[1..], y[1..]);
    }
  }

  /** The first position at which two sequences differ decides the order. */
  lemma {:induction false} LexFirstDifference(x: seq<int>, y: seq<int>, k: nat)
    requires k < |x| && k < |y| && x[..k] == y[..k] && x[k] < y[k]
    ensures Lex(x, y)
  {
    if k > 0 {
      assert x[1..][..k - 1] == y[1..][..k - 1] by {
        assert x[..k][1..] == x[1..][..k - 1];
        assert y[..k][1..] == y[1..][..k - 1];
      }
      LexFirstDifference(x[1..], y[1..], k - 1);
    }
  }
}
