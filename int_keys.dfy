/**
 * Integer keys of American flag sort: a 32-bit int read as four bytes,
 * most significant first. The digit at depth d is byte d, obtained with an
 * arithmetic right shift by 32 - 8d - 8 bits and an 8-bit mask.
 */
module IntKeys {
  import opened Lexicographic

  const BITS_PER_BYTE: nat := 8
  const BITS_PER_INT: nat := 32
  /** Number of byte values. */
  const R: int := 256

  function Pow2(n: nat): (p: nat)
    ensures p >= 1
  {
    if n == 0 then 1 else 2 * Pow2(n - 1)
  }

  lemma {:induction false} Pow2Add(m: nat, n: nat)
    ensures Pow2(m + n) == Pow2(m) * Pow2(n)
  {
    if n > 0 {
      Pow2Add(m, n - 1);
      assert Pow2(m + n) == 2 * Pow2(m + n - 1);
    }
  }

  /** The four shift amounts the sort uses, as divisors. */
  lemma Pow2Shifts()
    ensures Pow2(0) == 1 && Pow2(8) == 256 && Pow2(16) == 65536 && Pow2(24) == 16777216
  {
    assert Pow2(2) == 4 by { assert Pow2(1) == 2; }
    assert Pow2(4) == 16 by { assert Pow2(3) == 8; }
    assert Pow2(6) == 64 by { assert Pow2(5) == 32; }
    assert Pow2(8) == 256 by { assert Pow2(7) == 128; }
    Pow2Add(8, 8);
    Pow2Add(16, 8);
  }

  /** Right-shift amount that brings byte d (0 = most significant) to the bottom. */
  function Shift(d: nat): (s: nat)
    requires d < 4
    ensures s % BITS_PER_BYTE == 0 && s <= 24
  {
    BITS_PER_INT - BITS_PER_BYTE * d - BITS_PER_BYTE
  }

  /**
   * Byte d of x, as (x >> Shift(d)) & 0xFF. An arithmetic right shift is
   * floor division by a power of two and masking with 0xFF is the
   * non-negative remainder modulo 256, so this is exact for negative x too.
   */
  function Byte(x: int, d: nat): (b: int)
    requires d < 4
    ensures 0 <= b < R
  {
    (x / Pow2(Shift(d))) % R
  }

  /** Is v less than w, comparing bytes d..3, most significant first. */
  function Less(v: int, w: int, d: nat): (r: bool)
    decreases 4 - d
  {
    if d < 4 then
      if Byte(v, d) < Byte(w, d) then true
      else if Byte(v, d) > Byte(w, d) then false
      else Less(v, w, d + 1)
    else false
  }

  /**
   * The comparison loop: for bytes i = d..3, shift and mask both keys; the
   * first differing byte decides, and equal keys are not less.
   */
  method IsLess(v: int, w: int, d: nat) returns (r: bool)
    ensures r == Less(v, w, d)
  {
    var i := d;
    while i < 4
      invariant d <= i
      invariant Less(v, w, i) == Less(v, w, d)
    {
      var shift := BITS_PER_INT - BITS_PER_BYTE * i - BITS_PER_BYTE;
      var x := (v / Pow2(shift)) % R;
      var y := (w / Pow2(shift)) % R;
      assert x == Byte(v, i) && y == Byte(w, i);
      if x < y {
        return true;
      }
      if x > y {
        return false;
      }
      i := i + 1;
    }
    return false;
  }

  /** The bytes d..3 of x, most significant first. */
  function Digits(x: int, d: nat): (s: seq<int>)
    ensures |s| == if d < 4 then 4 - d else 0
    decreases 4 - d
  {
    if d < 4 then [Byte(x, d)] + Digits(x, d + 1) else []
  }

  /** v and w agree on their bytes 0..d-1. */
  ghost predicate AgreeBytes(v: int, w: int, d: nat)
  {
    d <= 4 && forall i :: 0 <= i < d ==> Byte(v, i) == Byte(w, i)
  }

  /** The value of the bits of a 32-bit int read as an unsigned number. */
  function Unsigned(x: int): (u: int)
  {
    x % 0x1_0000_0000
  }

  /** Less from byte d is the lexicographic order of the bytes from d. */
  lemma {:induction false} LessIsLex(v: int, w: int, d: nat)
    ensures Less(v, w, d) == Lex(Digits(v, d), Digits(w, d))
    decreases 4 - d
  {
    if d < 4 {
      LessIsLex(v, w, d + 1);
      var x, y := Digits(v, d), Digits(w, d);
      assert x[0] == Byte(v, d) && x[1..] == Digits(v, d + 1);
      assert y[0] == Byte(w, d) && y[1..] == Digits(w, d + 1);
    }
  }

  /** Less is irreflexive: it returns false when all bytes are equal. */
  lemma LessIrreflexive(v: int, d: nat)
    ensures !Less(v, v, d)
  {
    LessIsLex(v, v, d);
    LexIrreflexive(Digits(v, d));
  }

  /** Less at a fixed depth is asymmetric. */
  lemma LessAsymmetric(v: int, w: int, d: nat)
    ensures Less(v, w, d) ==> !Less(w, v, d)
  {
    LessIsLex(v, w, d);
    LessIsLex(w, v, d);
    LexAsymmetric(Digits(v, d), Digits(w, d));
  }

  /** "Not less" is transitive at a fixed depth. */
  lemma LessNotBelowTransitive(u: int, v: int, w: int, d: nat)
    requires !Less(v, u, d) && !Less(w, v, d)
    ensures !Less(w, u, d)
  {
    LessIsLex(v, u, d);
    LessIsLex(w, v, d);
    LessIsLex(w, u, d);
    LexNotBelowTransitive(Digits(u, d), Digits(v, d), Digits(w, d));
  }

  /** Keys that agree on bytes 0..d-1 compare alike from byte 0 and from byte d. */
  lemma {:induction false} LessSkipsAgreedBytes(v: int, w: int, i: nat, d: nat)
    requires i <= d && AgreeBytes(v, w, d)
    ensures Less(v, w, i) == Less(v, w, d)
    decreases d - i
  {
    if i < d {
      assert Byte(v, i) == Byte(w, i);
      LessSkipsAgreedBytes(v, w, i + 1, d);
    }
  }

  /** Between keys agreeing on bytes 0..d-1, a lower byte d means less. */
  lemma LowerByteIsLess(v: int, w: int, d: nat)
    requires d < 4 && AgreeBytes(v, w, d)
    requires Byte(v, d) < Byte(w, d)
    ensures Less(v, w, 0)
  {
    LessSkipsAgreedBytes(v, w, 0, d);
  }

  /** Agreeing on bytes 0..d-1 and on byte d means agreeing on bytes 0..d. */
  lemma AgreeOneMore(v: int, w: int, d: nat)
    requires d < 4 && AgreeBytes(v, w, d)
    requires Byte(v, d) == Byte(w, d)
    ensures AgreeBytes(v, w, d + 1)
  {
  }

  /** Keys agreeing on all four bytes are not less than one another. */
  lemma AllBytesAgree(v: int, w: int)
    requires AgreeBytes(v, w, 4)
    ensures !Less(v, w, 0) && !Less(w, v, 0)
  {
    LessSkipsAgreedBytes(v, w, 0, 4);
    assert AgreeBytes(w, v, 4);
    LessSkipsAgreedBytes(w, v, 0, 4);
  }

  /** The unsigned value of x is the big-endian number its four bytes spell. */
  lemma ByteDecomposition(x: int)
    ensures Unsigned(x) == Byte(x, 0) * 16777216 + Byte(x, 1) * 65536 + Byte(x, 2) * 256 + Byte(x, 3)
  {
    Pow2Shifts();
    var q1 := x / 256;
    var q2 := q1 / 256;
    var q3 := q2 / 256;
    var q4 := q3 / 256;
    assert q2 == x / 65536;
    assert q3 == x / 16777216;
    assert x == 0x1_0000_0000 * q4 + 16777216 * (q3 % 256) + 65536 * (q2 % 256) + 256 * (q1 % 256) + x % 256;
  }

  /**
   * Byte-wise comparison from byte 0 is the order of the unsigned values;
   * for non-negative ints it is numeric order.
   */
  lemma LessIsUnsignedOrder(v: int, w: int)
    ensures Less(v, w, 0) <==> Unsigned(v) < Unsigned(w)
  {
    ByteDecomposition(v);
    ByteDecomposition(w);
    assert !Less(v, w, 4);
    assert Less(v, w, 3) <==> Byte(v, 3) < Byte(w, 3);
    assert Less(v, w, 2) <==> Byte(v, 2) < Byte(w, 2) || (Byte(v, 2) == Byte(w, 2) && Less(v, w, 3));
    assert Less(v, w, 1) <==> Byte(v, 1) < Byte(w, 1) || (Byte(v, 1) == Byte(w, 1) && Less(v, w, 2));
    assert Less(v, w, 0) <==> Byte(v, 0) < Byte(w, 0) || (Byte(v, 0) == Byte(w, 0) && Less(v, w, 1));
  }

  /** A Java int: a value in -2^31..2^31-1. */
  predicate IsInt32(x: int)
  {
    -0x8000_0000 <= x < 0x8000_0000
  }

  /**
   * Distinct Java ints have distinct unsigned values, so byte-wise less,
   * which is unsigned order, is total on them.
   */
  lemma LessTotalOnInt32(v: int, w: int)
    requires IsInt32(v) && IsInt32(w)
    requires !Less(v, w, 0) && !Less(w, v, 0)
    ensures v == w
  {
    LessIsUnsignedOrder(v, w);
    LessIsUnsignedOrder(w, v);
    UnsignedInjective(v, w);
  }

  /** Unsigned is one-to-one on Java ints. */
  lemma UnsignedInjective(v: int, w: int)
    requires IsInt32(v) && IsInt32(w) && Unsigned(v) == Unsigned(w)
    ensures v == w
  {
    assert Unsigned(v) == (if v < 0 then v + 0x1_0000_0000 else v);
    assert Unsigned(w) == (if w < 0 then w + 0x1_0000_0000 else w);
  }

  /** A non-negative Java int is its own unsigned value. */
  lemma UnsignedOfNonNegative(x: int)
    requires 0 <= x < 0x8000_0000
    ensures Unsigned(x) == x
  {
  }
}
