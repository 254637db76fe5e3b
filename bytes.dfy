/** Readings of byte buffers as numbers, and the arithmetic facts the
    big-value model relies on. A magnitude buffer is little-endian: byte i
    weighs 256^i. */
module Bytes {

  /** 256^n */
  function Pow256(n: nat): (r: nat)
    ensures r >= 1
  {
    if n == 0 then 1 else 256 * Pow256(n - 1)
  }

  /** 2^k */
  function Pow2(k: nat): (r: nat)
    ensures r >= 1
  {
    if k == 0 then 1 else 2 * Pow2(k - 1)
  }

  /** The number a byte denotes, counted up from the zero byte. Counting up
      keeps bit-vector conversions out of the arithmetic proofs; NumIsValue
      shows it is the usual `b as nat`. */
  function Num(b: bv8): (n: nat)
    ensures n < 256
    decreases b, 0
  {
    if b == 0 then 0 else NumIsValue(b - 1); Num(b - 1) + 1
  }

  /** Num is the usual reading of a byte as an unsigned number. */
  lemma NumIsValue(b: bv8)
    ensures Num(b) == b as nat
    decreases b, 1
  {
    if b != 0 {
      NumIsValue(b - 1);
    }
  }

  /** The number a 16-bit word denotes: its high byte weighs 256. */
  function Num16(w: bv16): nat
  {
    256 * Num((w >> 8) as bv8) + Num((w & 0xFF) as bv8)
  }

  /** The byte holding a number below 256, counted up from the zero byte. */
  function AsByte(x: nat): (b: bv8)
    requires x < 256
    ensures Num(b) == x
  {
    if x == 0 then 0
    else
      var p := AsByte(x - 1);
      NumIsValue(p);
      NumIsValue(p + 1);
      p + 1
  }

  /** The magnitude a little-endian buffer denotes: the sum of s[i] * 256^i. */
  function Value(s: seq<bv8>): nat
  {
    if |s| == 0 then 0 else Num(s[0]) + 256 * Value(s[1..])
  }

  /** Byte k of v: its digit k in base 256. MaskedShiftByte shows this is
      what `(v & (0xFF << 8k)) >> 8k` stores into a byte. */
  function ByteAt(v: nat, k: nat): (b: bv8)
    ensures Num(b) == (v / Pow256(k)) % 256
  {
    AsByte((v / Pow256(k)) % 256)
  }

  /** The n low bytes of v, least significant first. */
  function LittleEndian(v: nat, n: nat): (r: seq<bv8>)
    ensures |r| == n
  {
    seq(n, k requires 0 <= k => ByteAt(v, k))
  }

  /** Byte k of the encoding is byte k of the number. */
  lemma LittleEndianAt(v: nat, n: nat, k: nat)
    requires k < n
    ensures LittleEndian(v, n)[k] == ByteAt(v, k)
  {
  }

  /** Two bytes that denote the same number are the same byte. */
  lemma SameByte(a: bv8, b: bv8)
    requires Num(a) == Num(b)
    ensures a == b
  {
    NumIsValue(a);
    NumIsValue(b);
  }

  /** n zero bytes (a buffer fresh from memset). */
  function Zeros(n: nat): (r: seq<bv8>)
    ensures |r| == n && forall k :: 0 <= k < n ==> r[k] == 0
  {
    seq(n, _ => 0)
  }

  /** Byte k of a buffer, with every byte past its end read as zero. */
  function DigitAt(s: seq<bv8>, k: int): bv8
  {
    if 0 <= k < |s| then s[k] else 0
  }

  /** The first n bytes of s, padded with zero bytes when s is shorter. */
  function Digits(s: seq<bv8>, n: nat): (r: seq<bv8>)
    ensures |r| == n
  {
    seq(n, k => DigitAt(s, k))
  }

  // ---------------------------------------------------------------------
  // Arithmetic helpers

  lemma MulLe(a: int, b: int, c: int)
    requires a <= b && c >= 0
    ensures a * c <= b * c
  {
  }

  lemma MulUnit(k: int, d: int)
    requires d > 0
    ensures k >= 1 ==> k * d >= d
    ensures k <= -1 ==> k * d <= -d
  {
    if k >= 1 { MulLe(1, k, d); }
    if k <= -1 { MulLe(k, -1, d); }
  }

  /** Quotient and remainder are determined by x == q * d + r with 0 <= r < d. */
  lemma DivModUnique(x: int, d: int, q: int, r: int)
    requires 0 < d && 0 <= r < d && x == q * d + r
    ensures x / d == q && x % d == r
  {
    var q', r' := x / d, x % d;
    assert (q - q') * d == r' - r;
    MulUnit(q - q', d);
  }

  /** The quotient of a natural by a positive divisor is a natural. */
  lemma DivNonNegative(v: nat, d: int)
    requires d >= 1
    ensures v / d >= 0
  {
    MulUnit(v / d, d);
  }

  /** Splitting a number at a mixed radix: v mod (a*b) is v mod a plus the
      next digit in base b, times a; and dividing twice divides by the product. */
  lemma DivModProduct(v: nat, a: nat, b: nat)
    requires a >= 1 && b >= 1
    ensures v % (a * b) == v % a + ((v / a) % b) * a
    ensures v / (a * b) == (v / a) / b
  {
    var q, r := v / a, v % a;
    var q1, r1 := q / b, q % b;
    assert q * a == q1 * (a * b) + r1 * a by {
      assert q == q1 * b + r1;
      assert (q1 * b + r1) * a == q1 * b * a + r1 * a;
    }
    assert 0 <= r1 * a + r < a * b by {
      MulLe(r1, b - 1, a);
      assert (b - 1) * a == a * b - a;
    }
    DivModUnique(v, a * b, q1, r1 * a + r);
  }

  /** The step of ValueSnoc, on plain integers. */
  lemma ShiftedSum(sum: int, sum0: int, lo: int, rest: int, rest0: int, w: int, p: int, p1: int)
    requires sum == lo + 256 * rest && rest == rest0 + w * p
    requires sum0 == lo + 256 * rest0 && p1 == 256 * p
    ensures sum == sum0 + w * p1
  {
  }

  /** 2^(8n + a) == 256^n * 2^a */
  lemma {:induction false} Pow2Bytes(n: nat, a: nat)
    ensures Pow2(8 * n + a) == Pow256(n) * Pow2(a)
  {
    if n > 0 {
      var k := 8 * (n - 1) + a;
      Pow2Bytes(n - 1, a);
      Pow2Step8(k);
      assert 8 * n + a == k + 8;
      calc {
        Pow2(8 * n + a);
        256 * Pow2(k);
        256 * (Pow256(n - 1) * Pow2(a));
        { assert 256 * (Pow256(n - 1) * Pow2(a)) == (256 * Pow256(n - 1)) * Pow2(a); }
        Pow256(n) * Pow2(a);
      }
    }
  }

  lemma Pow2Step8(k: nat)
    ensures Pow2(k + 8) == 256 * Pow2(k)
  {
    assert Pow2(k + 8) == 2 * Pow2(k + 7) == 4 * Pow2(k + 6) == 8 * Pow2(k + 5) == 16 * Pow2(k + 4);
    assert Pow2(k + 4) == 2 * Pow2(k + 3) == 4 * Pow2(k + 2) == 8 * Pow2(k + 1) == 16 * Pow2(k);
  }

  // ---------------------------------------------------------------------
  // Bitwise operators on unsigned numbers

  /** x & y, bit by bit from the lowest. */
  function BitAnd(x: nat, y: nat): nat
    decreases x
  {
    if x == 0 || y == 0 then 0 else 2 * BitAnd(x / 2, y / 2) + (x % 2) * (y % 2)
  }

  /** x >> j on an unsigned word: the j low bits drop out. */
  function Shr(x: nat, j: nat): nat
  {
    DivNonNegative(x, Pow2(j));
    x / Pow2(j)
  }

  /** `(v & mask) >> shift` stored into a uint8_t, which keeps the low eight
      bits. */
  function MaskedShift(v: nat, mask: nat, shift: nat): (b: bv8)
    ensures Num(b) == (BitAnd(v, mask) / Pow2(shift)) % 256
  {
    AsByte(Shr(BitAnd(v, mask), shift) % 256)
  }

  /** One step of BitAnd: the low bits and the rest, for an odd mask. */
  lemma BitAndOdd(x: nat, y: nat, h: nat)
    requires y == 2 * h + 1
    ensures BitAnd(x, y) == 2 * BitAnd(x / 2, h) + x % 2
  {
    DivModUnique(y, 2, h, 1);
  }

  /** One step of BitAnd, for an even mask. */
  lemma BitAndEven(x: nat, m: nat)
    ensures BitAnd(x, 2 * m) == 2 * BitAnd(x / 2, m)
  {
    DivModUnique(2 * m, 2, m, 0);
  }

  /** And-ing with 2^n - 1 (n low bits set) keeps x modulo 2^n. */
  lemma {:induction false} BitAndLow(x: nat, n: nat)
    ensures BitAnd(x, Pow2(n) - 1) == x % Pow2(n)
  {
    if n > 0 {
      BitAndLow(x / 2, n - 1);
      LowStep(x, Pow2(n - 1), Pow2(n));
    }
  }

  /** The step of BitAndLow, with 2^(n-1) and 2^n given by name. */
  lemma LowStep(x: nat, p: nat, pn: nat)
    requires p >= 1 && pn == 2 * p && BitAnd(x / 2, p - 1) == (x / 2) % p
    ensures BitAnd(x, pn - 1) == x % pn
  {
    BitAndOdd(x, pn - 1, p - 1);
    DivModProduct(x, 2, p);
  }

  /** And-ing with y shifted left by j is and-ing x shifted right by j with
      y, shifted back: the j low bits of the mask are clear. */
  lemma {:induction false} BitAndShifted(x: nat, y: nat, j: nat)
    ensures BitAnd(x, y * Pow2(j)) == BitAnd(Shr(x, j), y) * Pow2(j)
  {
    if j > 0 {
      var p := Pow2(j - 1);
      BitAndShifted(x / 2, y, j - 1);
      DivModProduct(x, 2, p);
      assert Shr(x, j) == Shr(x / 2, j - 1);
      ShiftedStep(x, y, p, Pow2(j), BitAnd(Shr(x / 2, j - 1), y));
    } else {
      assert x / 1 == x;
    }
  }

  /** The step of BitAndShifted, with 2^(j-1), 2^j and the and-ed part of
      x / 2^j given by name. */
  lemma ShiftedStep(x: nat, y: nat, p: nat, pj: nat, b: nat)
    requires pj == 2 * p && BitAnd(x / 2, y * p) == b * p
    ensures BitAnd(x, y * pj) == b * pj
  {
    Double(y, p);
    Double(b, p);
    BitAndEven(x, y * p);
  }

  lemma Double(a: int, b: int)
    ensures a * (2 * b) == 2 * (a * b)
  {
  }

  /** The byte loops' `(value & bitmask) >> (maskshift * 8)`, with bitmask
      0xFF << 8k and maskshift k, stores byte k of value. */
  lemma MaskedShiftByte(v: nat, k: nat)
    ensures MaskedShift(v, 0xFF * Pow256(k), 8 * k) == ByteAt(v, k)
  {
    var p := Pow256(k);
    DivNonNegative(v, p);
    MaskedDigit(v, k, p, v / p);
  }

  /** MaskedShiftByte with 256^k and the quotient given by name. */
  lemma MaskedDigit(v: nat, k: nat, p: nat, q: nat)
    requires p == Pow256(k) && q == v / p
    ensures MaskedShift(v, 0xFF * p, 8 * k) == AsByte(q % 256)
  {
    var d := q % 256;
    assert Pow2(8 * k) == p by {
      Pow2Bytes(k, 0);
    }
    assert BitAnd(q, 0xFF) == d by {
      assert Pow2(8) == 256 by {
        Pow2Bytes(1, 0);
      }
      BitAndLow(q, 8);
    }
    assert BitAnd(v, 0xFF * p) == d * p by {
      BitAndShifted(v, 0xFF, 8 * k);
      assert Shr(v, 8 * k) == q;
    }
    var shifted := Shr(BitAnd(v, 0xFF * p), 8 * k);
    assert shifted == d by {
      DivModUnique(d * p, p, d, 0);
    }
    assert shifted % 256 == d by {
      DivModUnique(d, 256, 0, d);
    }
  }

  // ---------------------------------------------------------------------
  // Little-endian value

  /** Appending a byte at the high end adds it with weight 256^|s|. */
  lemma {:induction false} ValueSnoc(s: seq<bv8>, x: bv8)
    ensures Value(s + [x]) == Value(s) + Num(x) * Pow256(|s|)
  {
    if |s| > 0 {
      assert (s + [x])[1..] == s[1..] + [x];
      ValueSnoc(s[1..], x);
      ShiftedSum(Value(s + [x]), Value(s), Num(s[0]), Value(s[1..] + [x]), Value(s[1..]),
                 Num(x), Pow256(|s| - 1), Pow256(|s|));
    }
  }

  /** An n-byte buffer denotes less than 256^n. */
  lemma {:induction false} ValueBound(s: seq<bv8>)
    ensures Value(s) < Pow256(|s|)
  {
    if |s| > 0 {
      ValueBound(s[1..]);
      assert Num(s[0]) <= 255;
      assert Value(s) <= 255 + 256 * (Pow256(|s| - 1) - 1);
      assert Pow256(|s|) == 256 * Pow256(|s| - 1);
    }
  }

  /** High zero bytes do not change the value (what GrowBuffer relies on). */
  lemma {:induction false} ValueZeroExtend(s: seq<bv8>, k: nat)
    ensures Value(s + Zeros(k)) == Value(s)
  {
    if k > 0 {
      var t := s + Zeros(k - 1);
      assert s + Zeros(k) == t + [0];
      ValueSnoc(t, 0);
      ValueZeroExtend(s, k - 1);
    } else {
      assert s + Zeros(k) == s;
    }
  }

  /** Reading the first n digits (zero past the end) of s. */
  lemma ValueDigitsStep(s: seq<bv8>, n: nat)
    ensures Value(Digits(s, n + 1)) == Value(Digits(s, n)) + Num(DigitAt(s, n)) * Pow256(n)
  {
    assert Digits(s, n + 1) == Digits(s, n) + [DigitAt(s, n)];
    ValueSnoc(Digits(s, n), DigitAt(s, n));
  }

  /** Reading at least |s| digits of s gives Value(s). */
  lemma ValueDigitsAll(s: seq<bv8>, n: nat)
    requires n >= |s|
    ensures Value(Digits(s, n)) == Value(s)
  {
    var padded := s + Zeros(n - |s|);
    forall k | 0 <= k < n
      ensures Digits(s, n)[k] == padded[k]
    {
    }
    assert Digits(s, n) == padded;
    ValueZeroExtend(s, n - |s|);
  }

  /** Encoding v into n little-endian bytes keeps v modulo 256^n. */
  lemma {:induction false} LittleEndianValue(v: nat, n: nat)
    ensures Value(LittleEndian(v, n)) == v % Pow256(n)
  {
    if n > 0 {
      LittleEndianValue(v, n - 1);
      assert LittleEndian(v, n) == LittleEndian(v, n - 1) + [ByteAt(v, n - 1)];
      ValueSnoc(LittleEndian(v, n - 1), ByteAt(v, n - 1));
      DivModProduct(v, Pow256(n - 1), 256);
      assert Pow256(n) == Pow256(n - 1) * 256;
    }
  }

  /** Corollary: a value below 256^n survives the encoding unchanged. */
  lemma LittleEndianRoundTrip(v: nat, n: nat)
    requires v < Pow256(n)
    ensures Value(LittleEndian(v, n)) == v
  {
    LittleEndianValue(v, n);
    DivModUnique(v, Pow256(n), 0, v);
  }

  /** The other direction: re-encoding a buffer's value in its own width gives the buffer back. */
  lemma {:induction false} LittleEndianOfValue(s: seq<bv8>)
    ensures LittleEndian(Value(s), |s|) == s
  {
    if |s| > 0 {
      LittleEndianOfValue(s[1..]);
      forall k | 0 <= k < |s|
        ensures ByteAt(Value(s), k) == s[k]
      {
        ByteOfValue(s, k);
      }
    }
  }

  /** Byte k of a buffer's value is byte k of the buffer, given that this
      holds for the buffer without its lowest byte. */
  lemma ByteOfValue(s: seq<bv8>, k: nat)
    requires k < |s| && LittleEndian(Value(s[1..]), |s| - 1) == s[1..]
    ensures ByteAt(Value(s), k) == s[k]
  {
    var v, t := Value(s), Value(s[1..]);
    assert v == t * 256 + Num(s[0]);
    DivModUnique(v, 256, t, Num(s[0]));
    if k > 0 {
      HigherByte(v, t, k);
      LittleEndianAt(t, |s| - 1, k - 1);
    } else {
      LowestByte(v, s[0]);
    }
  }

  /** Byte k > 0 of v is byte k - 1 of v / 256. */
  lemma HigherByte(v: nat, t: nat, k: nat)
    requires k > 0 && v / 256 == t
    ensures ByteAt(v, k) == ByteAt(t, k - 1)
  {
    DivModProduct(v, 256, Pow256(k - 1));
    assert Pow256(k) == 256 * Pow256(k - 1);
    SameByte(ByteAt(v, k), ByteAt(t, k - 1));
  }

  /** Byte 0 of v is v mod 256. */
  lemma LowestByte(v: nat, b: bv8)
    requires v % 256 == Num(b)
    ensures ByteAt(v, 0) == b
  {
    assert Pow256(0) == 1 && v / 1 == v;
    SameByte(ByteAt(v, 0), b);
  }
}
