/** The places where CBigValue's code does something other than what its
    comments say the code is for, or what the format it reads defines,
    modelled as the code is written, each with a lemma exhibiting an input
    on which it parts from the intended behaviour. The intended behaviour is
    what the rest of the model uses: BigValue.FromInt64, Formats.LeadByte,
    BigValue.FromFFP32 and BigValue.Plus; for the binary128 fraction it is
    Formats.Binary128Fraction. */
module AsWritten {
  import opened Bytes
  import opened Formats
  import opened BigValues

  // -----------------------------------------------------------------------
  // CBigValue(int64_t)

  /** Byte k as the int64 constructor writes it: byte k of the pattern,
      complemented when the sign bit is set but with no 1 added, and the top
      byte then xor-ed with 0x80 whatever the sign. */
  function Int64ByteAsWritten(bits: nat, negative: bool, k: nat): (z: bv8)
    ensures k != 7 && negative ==> Num(z) + Num(ByteAt(bits, k)) == 255
    ensures k != 7 && !negative ==> Num(z) == (bits / Pow256(k)) % 256
    ensures k == 7 ==> (Num(z) < 128 <==> (Num(ByteAt(bits, k)) < 128 <==> negative))
  {
    var b := ByteAt(bits, k);
    Complement(b);
    var c := if negative then !b else b;
    FlipTopValue(c);
    if k == 7 then c ^ 0x80 else c
  }

  /** The eight bytes the int64 constructor writes, as written. */
  function Int64BytesAsWritten(bits: nat, negative: bool): (r: seq<bv8>)
    ensures |r| == 8
  {
    seq(8, k requires 0 <= k => Int64ByteAsWritten(bits, negative, k))
  }

  /** No int64 value comes out as its magnitude: a value that is not
      negative gets bit 63 set by the final xor, and a negative one has its
      lowest byte off by one, the missing +1 of the two's complement. */
  lemma Int64AsWrittenWrong(value: i64)
    ensures Int64BytesAsWritten(Pattern(value), value < 0) != LittleEndian(Abs(value as int), 8)
  {
    var bits := Pattern(value);
    var written := Int64BytesAsWritten(bits, value < 0);
    var intended := LittleEndian(Abs(value as int), 8);
    if value >= 0 {
      LittleEndianAt(Abs(value as int), 8, 7);
      assert written[7] == intended[7] ^ 0x80;
    } else {
      LittleEndianAt(Abs(value as int), 8, 0);
      LowByteOfNegation(bits, Abs(value as int));
      assert written[0] == !ByteAt(bits, 0);
    }
  }

  /** The complement of the low byte of a pattern is never the low byte of
      2^64 minus the pattern: the two low bytes add up to 0 modulo 256, a
      byte and its complement to 255. */
  lemma LowByteOfNegation(bits: nat, magnitude: nat)
    requires bits + magnitude == Pow256(8)
    ensures !ByteAt(bits, 0) != ByteAt(magnitude, 0)
  {
    var b, c := ByteAt(bits, 0), ByteAt(magnitude, 0);
    assert Pow256(0) == 1 && bits / 1 == bits && magnitude / 1 == magnitude;
    Complement(b);
    if Num(!b) == Num(c) {
      var q := bits / 256 + magnitude / 256;
      assert Pow256(8) == q * 256 + 255;
      DivModUnique(Pow256(8), 256, q, 255);
      DivModUnique(Pow256(8), 256, Pow256(7), 0);
      assert false;
    }
  }

  // -----------------------------------------------------------------------
  // fromIEEEMantissa's leading byte

  /** The mask of the odd-size branch as written: `bits` is size - 1 for the
      leading byte, the int mask gets bit 0 and bits 1 .. bits-1, and and-ing
      a byte with it keeps the mask's low eight bits. */
  function OddMaskAsWritten(size: nat): (mask: bv8)
    requires size % 8 != 0
    ensures size > 8 ==> mask == 0xFF
    ensures 1 < size < 8 ==> mask == LowBits(size - 1) && Num(mask) + 1 == Pow2(size - 1)
    ensures size == 1 ==> mask == 0x01
  {
    var bits := size - 1;
    if bits <= 1 then LowBits(1)
    else if bits >= 8 then LowBits(8)
    else LowBitsValue(bits); LowBits(bits)
  }

  /** The leading byte as written: xor with 0x80 for aligned sizes, the
      as-written mask otherwise. */
  function LeadByteAsWritten(m0: bv8, size: nat): (lead: bv8)
    ensures size % 8 == 0 ==> lead & 0x7F == m0 & 0x7F && lead != m0
    ensures size % 8 != 0 && size > 8 ==> lead == m0
    ensures 1 < size < 8 ==> Num(lead) == Num(m0) % Pow2(size - 1)
  {
    if size % 8 == 0 then FlipTop(m0); m0 ^ 0x80
    else OddCases(m0, size); m0 & OddMaskAsWritten(size)
  }

  /** The two odd-size cases of LeadByteAsWritten. */
  lemma OddCases(m0: bv8, size: nat)
    requires size % 8 != 0
    ensures size > 8 ==> m0 & OddMaskAsWritten(size) == m0
    ensures 1 < size < 8 ==> Num(m0 & OddMaskAsWritten(size)) == Num(m0) % Pow2(size - 1)
  {
    if size > 8 {
      WholeMask(m0, size);
    } else if 1 < size {
      PartMask(m0, size);
    }
  }

  lemma WholeMask(m0: bv8, size: nat)
    requires size % 8 != 0 && size > 8
    ensures m0 & OddMaskAsWritten(size) == m0
  {
    assert OddMaskAsWritten(size) == 0xFF;
  }

  lemma PartMask(m0: bv8, size: nat)
    requires 1 < size < 8
    ensures Num(m0 & OddMaskAsWritten(size)) == Num(m0) % Pow2(size - 1)
  {
    LowBitsMod(m0, size - 1);
  }

  /** For an aligned field the xor agrees with clearing bit 7
      exactly when that bit is set: a byte with the bit clear gets it set. */
  lemma AlignedLeadAsWritten(m0: bv8, size: nat)
    requires size % 8 == 0
    ensures LeadByteAsWritten(m0, size) == LeadByte(m0, size) <==> TopBit(m0)
    ensures !TopBit(m0) ==> TopBit(LeadByteAsWritten(m0, size))
  {
  }

  /** An unnormalised 64-bit mantissa leading with 0x00 is stored as 0x80. */
  lemma AlignedLeadCounterexample()
    ensures LeadByteAsWritten(0x00, 64) == 0x80 && LeadByte(0x00, 64) == 0x00
  {
    AlignedLeadAsWritten(0x00, 64);
  }

  /** A 23-bit field whose leading byte is 0x80 keeps that bit, which lies
      outside the field's 7 bits. */
  lemma OddLeadCounterexample()
    ensures LeadByteAsWritten(0x80, 23) == 0x80 && LeadByte(0x80, 23) == 0x00
  {
    assert LeadByte(0x80, 23) == 0x00 by {
      assert LowBits(7) == 0x7F;
    }
  }

  /** The binary128 field as fromQuadruple stores it, as written: the
      aligned branch xors bit 7 of data[2], the top fraction bit, so the
      stored leading byte always has that bit inverted and keeps the other
      seven; a leading 0x00 is stored as 0x80. */
  lemma QuadrupleFractionInverted(data: seq<bv8>)
    requires |data| >= 16
    ensures LeadByteAsWritten(data[2], 112) != Binary128Fraction(data)[0]
    ensures LeadByteAsWritten(data[2], 112) & 0x7F == Binary128Fraction(data)[0] & 0x7F
    ensures LeadByteAsWritten(0x00, 112) == 0x80
  {
    FlipTop(0x00);
  }

  /** The binary128 field as the comments at fromIEEEMantissa design it:
      bit 7 of data[2] is taken for a normalisation bit and cleared, though
      binary128 stores no integer bit. Two inputs that differ only in that
      fraction bit would then give the same sign, scale and stored bytes,
      which is all of FromQuadruple's state. */
  lemma QuadrupleDropsFractionBit(d1: seq<bv8>, d2: seq<bv8>)
    requires |d1| >= 16 && |d2| >= 16
    requires d1[..2] == d2[..2] && d2[2] == d1[2] ^ 0x80 && d1[3..16] == d2[3..16]
    ensures d1[..16] != d2[..16]
    ensures TopBit(d1[0]) == TopBit(d2[0])
    ensures ExponentScale(d1[0], d1[1]) == ExponentScale(d2[0], d2[1])
    ensures MantissaBytes(d1[2..], 112) == MantissaBytes(d2[2..], 112)
  {
    FlipTop(d1[2]);
    assert d1[..16][2] != d2[..16][2];
    assert d1[0] == d1[..2][0] == d2[0] && d1[1] == d1[..2][1] == d2[1];
    SameStoredFraction(d1, d2);
  }

  /** Fields that agree in all but bit 7 of their first byte are stored alike. */
  lemma SameStoredFraction(d1: seq<bv8>, d2: seq<bv8>)
    requires |d1| >= 16 && |d2| >= 16
    requires d1[2] & 0x7F == d2[2] & 0x7F && d1[3..16] == d2[3..16]
    ensures MantissaBytes(d1[2..], 112) == MantissaBytes(d2[2..], 112)
  {
    StoredAligned(d1, 112);
    StoredAligned(d2, 112);
  }

  /** Flipping bit 7 changes a byte and leaves its low seven bits alone. */
  lemma FlipTop(x: bv8)
    ensures x ^ 0x80 != x
    ensures (x ^ 0x80) & 0x7F == x & 0x7F
  {
  }

  /** Flipping bit 7 moves a byte across 128. */
  lemma FlipTopValue(x: bv8)
    ensures Num(x ^ 0x80) < 128 <==> Num(x) >= 128
  {
    NumIsValue(x);
    NumIsValue(x ^ 0x80);
  }

  // -----------------------------------------------------------------------
  // fromFFP32's sign

  /** The sign as fromFFP32 reads it: bit 7 of data[0], which in FFP32 is
      the top bit of the mantissa. Every value with a normalised mantissa
      (top bit set, as in every non-zero FFP32 value) is read as negative. */
  function FFP32SignAsWritten(data: seq<bv8>): (negative: bool)
    requires |data| >= 4
    ensures Num(data[0]) >= 128 ==> negative
  {
    TopBit(data[0])
  }

  /** 1.0 in FFP32 is 0x80000041 (mantissa 0x800000, sign 0, exponent
      0x41): read as negative, though its sign bit is clear. */
  lemma FFP32SignCounterexample()
    ensures FFP32SignAsWritten([0x80, 0x00, 0x00, 0x41])
    ensures !FFP32Sign([0x80, 0x00, 0x00, 0x41])
  {
  }

  // -----------------------------------------------------------------------
  // operator+

  /** The loop of operator+ as written, over the first i bytes of this (a)
      and other (b): `value.m_pBuffer += (carry & 0xFF)` moves the result's
      buffer address by the low byte of each sum instead of storing it. Returns how
      far m_pBuffer has moved and the carry. */
  function PlusLoopAsWritten(a: seq<bv8>, b: seq<bv8>, i: nat): (r: (nat, nat))
    requires i <= |a| <= |b|
    ensures r.1 <= 1
  {
    if i == 0 then (0, 0) else PlusStepAsWritten(PlusLoopAsWritten(a, b, i - 1), a[i - 1], b[i - 1])
  }

  /** One step of that loop: m_pBuffer moves by the low byte of the sum,
      the rest is carried. */
  function PlusStepAsWritten(prev: (nat, nat), x: bv8, y: bv8): (next: (nat, nat))
    ensures prev.0 <= next.0 < prev.0 + 256
    ensures (next.0 - prev.0) + 256 * next.1 == prev.1 + Num(x) + Num(y)
    ensures prev.1 <= 1 ==> next.1 <= 1
  {
    var t := prev.1 + Num(x) + Num(y);
    (prev.0 + t % 0x100, t / 0x100)
  }

  /** The |a| + 1 bytes operator+ allocates, as written: nothing is stored by
      the loop, and the final carry store, made through the moved address,
      lands inside the block only when m_pBuffer has not moved. The loop
      runs over this operand's size only; other must be at least as long
      (reading past its end is undefined). */
  function PlusAsWritten(a: seq<bv8>, b: seq<bv8>): (r: seq<bv8>)
    requires |a| <= |b|
    ensures |r| == |a| + 1
  {
    var (moved, carry) := PlusLoopAsWritten(a, b, |a|);
    if carry > 0 && moved == 0 then Zeros(|a|) + [AsByte(carry)] else Zeros(|a| + 1)
  }

  /** 1 + 1: the block holds 0, where the sum is 2. */
  lemma PlusStoreCounterexample()
    ensures Value(PlusAsWritten([1], [1])) == 0
    ensures Value([1 as bv8]) + Value([1 as bv8]) == 2
  {
    assert Num(1) == 1;
    assert PlusLoopAsWritten([1], [1], 1) == PlusStepAsWritten((0, 0), 1, 1) == (2, 0);
    assert PlusAsWritten([1], [1]) == [0, 0];
  }

  /** The as-written loop reads only this operand's size of other: two
      others that agree on those bytes give the same result. */
  lemma {:induction false} PlusLoopIgnoresHigh(a: seq<bv8>, b: seq<bv8>, c: seq<bv8>, i: nat)
    requires i <= |a| <= |b| && |a| <= |c| && b[..|a|] == c[..|a|]
    ensures PlusLoopAsWritten(a, b, i) == PlusLoopAsWritten(a, c, i)
  {
    if i > 0 {
      PlusLoopIgnoresHigh(a, b, c, i - 1);
      assert b[..|a|][i - 1] == b[i - 1] && c[..|a|][i - 1] == c[i - 1];
    }
  }

  /** 1 + 256: other's byte 1 is never read, so the result is that of 1 + 0,
      though the two others differ. */
  lemma PlusBoundCounterexample()
    ensures PlusAsWritten([1], [0, 1]) == PlusAsWritten([1], [0])
    ensures Value([0 as bv8, 1]) == 256 && Value([0 as bv8]) == 0
  {
    PlusLoopIgnoresHigh([1], [0, 1], [0], 1);
    assert Num(1) == 1 && Num(0) == 0;
  }
}
