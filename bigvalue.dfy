/** CBigValue: a sign-magnitude number held as a little-endian byte buffer
    with its size, an unsigned scale and a sign flag. The constructors and
    the from* builders (re)allocate and fill the buffer; operator+ adds two
    magnitudes byte by byte into a fresh value. */
module BigValues {
  import opened Bytes
  import opened Formats

  /** uint16_t, the carry accumulator of the addition. */
  newtype u16 = x: int | 0 <= x < 0x1_0000

  /** uint64_t */
  newtype u64 = x: int | 0 <= x < 0x1_0000_0000_0000_0000

  /** int64_t */
  newtype i64 = x: int | -0x8000_0000_0000_0000 <= x < 0x8000_0000_0000_0000

  /** The mathematical absolute value. */
  function Abs(v: int): nat
  {
    if v < 0 then -v else v
  }

  /** The 64-bit two's-complement pattern of v, read as an unsigned number. */
  function Pattern(v: i64): (bits: nat)
    ensures bits < Pow256(8)
    ensures v >= 0 ==> bits == v as int
    ensures v < 0 ==> bits + Abs(v as int) == Pow256(8)
  {
    Pow256Eight();
    if v < 0 then v as int + 0x1_0000_0000_0000_0000 else v as int
  }

  lemma Pow256Eight()
    ensures Pow256(8) == 0x1_0000_0000_0000_0000
  {
    assert Pow256(4) == 0x1_0000_0000 by {
      assert Pow256(2) == 0x1_0000;
      assert Pow256(4) == 256 * (256 * Pow256(2));
    }
    assert Pow256(8) == 256 * (256 * (256 * (256 * Pow256(4))));
  }

  /** The sign bit of a 64-bit pattern is set exactly for negative values. */
  lemma SignBitOfPattern(v: i64)
    ensures (Pattern(v) >= 0x8000_0000_0000_0000) == (v < 0)
  {
    Pow256Eight();
  }

  class BigValue {
    /** m_pBuffer: null until a buffer is created. */
    var buffer: array?<bv8>
    /** m_nBufferSize */
    var bufferSize: nat
    /** m_nScale, a size_t: never negative. */
    var scale: nat
    /** m_bNegative: the sign, kept apart from the magnitude. */
    var negative: bool

    /** The buffer and its recorded size agree. */
    ghost predicate Valid()
      reads this
    {
      if buffer == null then bufferSize == 0 else buffer.Length == bufferSize
    }

    /** The buffer's bytes in index order, `m_nBufferSize` many. */
    function Bytes(): (s: seq<bv8>)
      reads this, buffer
      requires Valid()
      ensures |s| == bufferSize
    {
      if buffer == null then [] else buffer[..]
    }

    /** CBigValue(void): no buffer, positive, scale 0. */
    constructor ()
      ensures Valid() && buffer == null && Bytes() == []
      ensures scale == 0 && !negative
    {
      buffer, bufferSize, scale, negative := null, 0, 0, false;
    }

    /** CBigValue(uint64_t): the eight bytes of value, least significant first. */
    constructor FromUInt64(value: u64)
      ensures Valid() && fresh(buffer) && bufferSize == 8
      ensures Bytes() == LittleEndian(value as nat, 8)
      ensures Value(Bytes()) == value as nat
      ensures !negative && scale == 0
    {
      buffer, bufferSize, scale, negative := null, 0, 0, false;
      new;
      CreateBuffer(8);
      var bitmask: nat := 0xFF;
      var maskshift: nat := 0;
      for i := 0 to 8
        invariant Valid() && fresh(buffer) && bufferSize == 8
        invariant !negative && scale == 0
        invariant bitmask == 0xFF * Pow256(i) && maskshift == i
        invariant buffer[..i] == LittleEndian(value as nat, i)
      {
        buffer[i] := MaskedShift(value as nat, bitmask, maskshift * 8);
        MaskedShiftByte(value as nat, i);
        assert buffer[..i + 1] == buffer[..i] + [buffer[i]];
        NextMask(bitmask, i);
        bitmask := bitmask * 256;   // bitmask <<= 8; it is not read after the eighth byte
        maskshift := maskshift + 1;
      }
      assert buffer[..] == buffer[..8];
      Pow256Eight();
      LittleEndianRoundTrip(value as nat, 8);
    }

    /** CBigValue(int64_t): the sign from bit 63 and the eight bytes of |value|,
        the two's-complement pattern of a negative value being complemented
        byte by byte with 1 added through a 16-bit carry. The most negative
        value comes out as the magnitude 2^63. */
    constructor FromInt64(value: i64)
      ensures Valid() && fresh(buffer) && bufferSize == 8
      ensures negative == (value < 0) && scale == 0
      ensures Bytes() == LittleEndian(Abs(value as int), 8)
      ensures Value(Bytes()) == Abs(value as int)
    {
      buffer, bufferSize, scale, negative := null, 0, 0, false;
      new;
      CreateBuffer(8);
      var bits := Pattern(value);
      SignBitOfPattern(value);
      negative := bits >= 0x8000_0000_0000_0000;
      scale := 0;
      Int64Bytes(bits, negative, buffer);
      Int64Magnitude(value, bits, negative);
      LittleEndianOfValue(buffer[..]);
    }

    /** CreateBuffer: a fresh buffer of n zero bytes; sign and scale are kept. */
    method CreateBuffer(n: nat)
      modifies this
      ensures Valid() && fresh(buffer) && buffer != null
      ensures Bytes() == Zeros(n)
      ensures scale == old(scale) && negative == old(negative)
    {
      buffer := new bv8[n](_ => 0);
      bufferSize := n;
    }

    /** GrowBuffer: with no buffer, as CreateBuffer; when n exceeds the size,
        a fresh buffer holding the old bytes at their offsets and zeros above
        them, so the magnitude is unchanged; otherwise nothing changes. */
    method GrowBuffer(n: nat)
      requires Valid()
      modifies this
      ensures Valid() && scale == old(scale) && negative == old(negative)
      ensures old(buffer) == null ==> fresh(buffer) && Bytes() == Zeros(n)
      ensures old(buffer) != null && n > old(bufferSize) ==>
                fresh(buffer) && Bytes() == old(Bytes()) + Zeros(n - old(bufferSize))
      ensures old(buffer) != null && n <= old(bufferSize) ==>
                buffer == old(buffer) && Bytes() == old(Bytes())
      ensures old(buffer) != null ==> Value(Bytes()) == old(Value(Bytes()))
    {
      if buffer == null {
        CreateBuffer(n);
      } else if n > bufferSize {
        ghost var prior := buffer[..];
        var grown := new bv8[n](_ => 0);
        forall i | 0 <= i < bufferSize {
          grown[i] := buffer[i];
        }
        assert grown[..] == prior + Zeros(n - bufferSize);
        ValueZeroExtend(prior, n - bufferSize);
        buffer := grown;
        bufferSize := n;
        assert Bytes() == prior + Zeros(n - |prior|);
      }
    }

    /** fromIEEEMantissa: stores the MantissaCount(size) bytes of a mantissa
        field, in input order, at the bottom of the buffer: the leading byte
        loses bit 7, taken for the normalisation bit (byte-aligned sizes), or is masked to the
        field's size % 8 bits (other sizes); the bytes above stay as they were. */
    method FromIEEEMantissa(mantissa: seq<bv8>, size: nat)
      requires Valid() && buffer != null
      requires MantissaCount(size) <= |mantissa| && MantissaCount(size) <= bufferSize
      modifies buffer
      ensures buffer[..] == MantissaBytes(mantissa, size) + old(buffer[..])[MantissaCount(size)..]
    {
      var oddSize := false;
      var count := size / 8;
      if size % 8 != 0 {
        oddSize := true;
        count := count + 1;
      }
      ghost var stored := MantissaBytes(mantissa, size);
      ghost var before := buffer[..];
      for i := 0 to count
        invariant buffer[..] == stored[..i] + before[i..]
      {
        var z := StoredByte(mantissa, size, oddSize, i);
        ghost var prior := buffer[..];
        buffer[i] := z;
        StoreNext(stored, before, z, prior, buffer[..], i);
      }
      assert stored[..count] == stored;
    }

    /** fromFFP32: four zero bytes and the sign of the FFP32 value, bit 7 of
        data[3]; an all-zero input is positive zero with scale 0. Otherwise
        the scale is left as it was: the exponent and mantissa are computed
        but never stored. Returns this, for chaining. */
    method FromFFP32(data: seq<bv8>) returns (self: BigValue)
      requires |data| >= 4
      modifies this
      ensures self == this && Valid() && fresh(buffer)
      ensures Bytes() == Zeros(4)
      ensures negative == FFP32Sign(data)
      ensures scale == if data[0] == 0 && data[1] == 0 && data[2] == 0 && data[3] == 0
                       then 0 else old(scale)
    {
      CreateBuffer(4);
      negative := FFP32Sign(data);
      self := this;
      if data[0] == 0 && data[1] == 0 && data[2] == 0 && data[3] == 0 {
        scale := 0;
        return;
      }
    }

    /** fromExtended: an 8-byte buffer holding the 64-bit mantissa that
        follows the two header bytes, the sign from bit 7 of data[0] and the
        scale computed from the 15-bit exponent. Reads data[0..10). */
    method FromExtended(data: seq<bv8>) returns (self: BigValue)
      requires |data| >= 10
      modifies this
      ensures self == this && Valid() && fresh(buffer)
      ensures negative == TopBit(data[0]) && scale == ExponentScale(data[0], data[1])
      ensures Bytes() == MantissaBytes(data[2..], 64)
    {
      CreateBuffer(8);
      negative := TopBit(data[0]);
      scale := Num16(((data[0] & 0x7F) as bv16 << 8) ^ 0x80);
      scale := scale + Num(data[1]);
      FromIEEEMantissa(data[2..], 64);
      self := this;
    }

    /** fromQuadruple: a 16-byte buffer whose low 14 bytes hold the 112-bit
        field that follows the two header bytes, stored through the mantissa
        helper and so with bit 7 of its first byte cleared, the sign from bit
        7 of data[0] and the scale computed as for the extended format. Reads
        data[0..16). */
    method FromQuadruple(data: seq<bv8>) returns (self: BigValue)
      requires |data| >= 16
      modifies this
      ensures self == this && Valid() && fresh(buffer)
      ensures negative == TopBit(data[0]) && scale == ExponentScale(data[0], data[1])
      ensures Bytes() == MantissaBytes(data[2..], 112) + Zeros(2)
    {
      CreateBuffer(16);
      negative := TopBit(data[0]);
      scale := Num16(((data[0] & 0x7F) as bv16 << 8) ^ 0x80);
      scale := scale + Num(data[1]);
      FromIEEEMantissa(data[2..], 112);
      self := this;
    }

    /** fromBuffer: the first n bytes of data as they are, with the given sign
        and scale (0 unless given). */
    method FromBuffer(data: seq<bv8>, n: nat, isNegative: bool, newScale: nat := 0)
      returns (self: BigValue)
      requires n <= |data|
      modifies this
      ensures self == this && Valid() && fresh(buffer)
      ensures Bytes() == data[..n]
      ensures negative == isNegative && scale == newScale
    {
      CreateBuffer(n);
      forall i | 0 <= i < n {
        buffer[i] := data[i];
      }
      negative := isNegative;
      scale := newScale;
      self := this;
    }

    /** operator+: a fresh value one byte wider than the wider operand whose
        magnitude is the sum of the two magnitudes; a byte missing from the
        narrower operand counts as zero. The carry never exceeds 1, so the
        16-bit accumulator cannot overflow. Neither operand changes; the
        result is positive with scale 0, as a default-constructed value. */
    method Plus(other: BigValue) returns (sum: BigValue)
      requires Valid() && other.Valid()
      ensures fresh(sum) && fresh(sum.buffer) && sum.Valid()
      ensures sum.bufferSize == (if bufferSize >= other.bufferSize then bufferSize else other.bufferSize) + 1
      ensures sum.Bytes() == AddSum(old(Bytes()), old(other.Bytes()), sum.bufferSize - 1)
      ensures !sum.negative && sum.scale == 0
    {
      var a, b := Bytes(), other.Bytes();
      sum := new BigValue();
      var n := if bufferSize >= other.bufferSize then bufferSize else other.bufferSize;
      sum.CreateBuffer(n + 1);
      var carry := AddBytes(a, b, sum.buffer);
      TopZero(n);
      StoreCarry(sum.buffer, carry, AddSteps(a, b, n).0);
    }
  }

  /** The byte loop of operator+ over the two operands' bytes a and b: writes
      into the low n bytes of out, n the wider operand's size, the bytes
      AddSteps computes, and returns the carry left over; the top byte of out
      stays zero. */
  method AddBytes(a: seq<bv8>, b: seq<bv8>, out: array<bv8>) returns (carry: u16)
    requires out.Length >= 1
    modifies out
    ensures out[..] == AddSteps(a, b, out.Length - 1).0 + old(out[..])[out.Length - 1..]
    ensures carry as nat == AddSteps(a, b, out.Length - 1).1
  {
    var n := out.Length - 1;
    ghost var initial := out[..];
    carry := 0;
    for i := 0 to n
      invariant out[..] == AddSteps(a, b, i).0 + initial[i..]
      invariant carry as nat == AddSteps(a, b, i).1
    {
      carry := StoreDigit(a, b, i, carry, out, initial);
    }
  }

  /** Step i of the byte loop of operator+, storing into out[i]. */
  method StoreDigit(a: seq<bv8>, b: seq<bv8>, i: nat, carry: u16, out: array<bv8>, ghost initial: seq<bv8>)
    returns (next: u16)
    requires i < out.Length == |initial| && carry as nat == AddSteps(a, b, i).1
    requires out[..] == AddSteps(a, b, i).0 + initial[i..]
    modifies out
    ensures out[..] == AddSteps(a, b, i + 1).0 + initial[i + 1..]
    ensures next as nat == AddSteps(a, b, i + 1).1
  {
    var z;
    z, next := AddDigit(a, b, i, carry);
    ghost var before := out[..];
    out[i] := z;
    WriteNext(AddSteps(a, b, i).0, initial, z, before, out[..]);
  }

  /** One step of operator+'s loop: adds byte i of both operands to the carry,
      keeps the low byte of the sum and carries the rest. */
  method AddDigit(a: seq<bv8>, b: seq<bv8>, i: nat, carry: u16) returns (z: bv8, next: u16)
    requires carry as nat == AddSteps(a, b, i).1
    ensures Num(z) + 256 * next as nat == carry as nat + Num(DigitAt(a, i)) + Num(DigitAt(b, i))
    ensures next <= 1
    ensures AddSteps(a, b, i + 1) == (AddSteps(a, b, i).0 + [z], next as nat)
  {
    var x := DigitAt(a, i);
    var y := DigitAt(b, i);
    var t: u16 := carry + Num(x) as u16 + Num(y) as u16;
    z := AsByte((t % 0x100) as nat);   // carry & 0xFF
    AddStepsNext(a, b, i, t as nat, z);
    next := t / 0x100;                 // carry >>= 8
  }

  /** The body of fromIEEEMantissa's loop: byte i of the field as stored. */
  method StoredByte(mantissa: seq<bv8>, size: nat, oddSize: bool, i: nat) returns (z: bv8)
    requires i < MantissaCount(size) <= |mantissa| && oddSize == (size % 8 != 0)
    ensures z == MantissaBytes(mantissa, size)[i]
  {
    if i == 0 && !oddSize {
      // drop bit 7, taken for the normalisation bit
      z := mantissa[0] & 0x7F;
    } else if i == 0 && oddSize {
      // keep the size % 8 bits of the field held in the leading byte
      var mask := FieldMask(size % 8);
      z := mantissa[i] & mask;
    } else {
      z := mantissa[i];
    }
    if i == 0 {
      MantissaBytesHead(mantissa, size);
    }
  }

  /** The mask fromIEEEMantissa builds for a leading byte holding `bits` bits
      of the field: bit 0, then bits 1 .. bits-1 or-ed in one at a time. */
  method FieldMask(bits: nat) returns (mask: bv8)
    requires 1 <= bits <= 8
    ensures mask == LowBits(bits)
    ensures Num(mask) + 1 == Pow2(bits)
  {
    mask := 1;
    var shift := 1;
    while shift < bits
      invariant 1 <= shift <= bits
      invariant mask == LowBits(shift)
    {
      LowBitsStep(shift);
      mask := mask | (1 << shift);
      shift := shift + 1;
    }
    LowBitsValue(bits);
  }

  /** Storing byte i of the stored bytes over the old contents extends the
      stored prefix by one. */
  lemma StoreNext(stored: seq<bv8>, before: seq<bv8>, z: bv8, prior: seq<bv8>, after: seq<bv8>, i: nat)
    requires i < |stored| <= |before| && z == stored[i]
    requires prior == stored[..i] + before[i..] && after == prior[i := z]
    ensures after == stored[..i + 1] + before[i + 1..]
  {
  }

  /** The top byte of a fresh buffer is zero. */
  lemma TopZero(n: nat)
    ensures Zeros(n + 1)[n..] == [0]
  {
  }

  /** The byte loop of CBigValue(int64_t) over the 64-bit pattern `bits`:
      byte i of the pattern, or for a negative value its complement with the
      +1 of the two's complement carried through a 16-bit accumulator. The
      eight bytes written denote the pattern, or 2^64 minus it. */
  method Int64Bytes(bits: nat, negative: bool, out: array<bv8>)
    requires out.Length == 8 && bits < Pow256(8) && negative == (bits >= 0x8000_0000_0000_0000)
    modifies out
    ensures Value(out[..]) == if negative then Pow256(8) - bits else bits
  {
    ghost var initial := out[..];
    ghost var done: seq<bv8> := [];
    var carry: u16 := 1;
    var bitmask: nat := 0xFF;
    var maskshift: nat := 0;
    for i := 0 to 8
      invariant |done| == i && out[..] == done + initial[i..] && carry <= 1
      invariant bitmask == 0xFF * Pow256(i) && maskshift == i
      invariant !negative ==> Value(done) == bits % Pow256(i)
      invariant negative ==> Value(done) + carry as nat * Pow256(i) == Pow256(i) - bits % Pow256(i)
    {
      var z;
      z, carry := Int64Digit(bits, negative, bitmask, maskshift, carry, done);
      ghost var before := out[..];
      out[i] := z;
      WriteNext(done, initial, z, before, out[..]);
      done := done + [z];
      NextMask(bitmask, i);
      bitmask := bitmask * 256;   // bitmask <<= 8
      maskshift := maskshift + 1;
    }
    assert out[..] == done;
    ValueBound(done);
    Int64Wraps(bits, Value(done), carry as nat, negative);
  }

  /** One pass of the int64 byte loop: byte i of the pattern, taken as
      `(value & bitmask) >> (maskshift * 8)`, stored plain, or complemented
      with the carry of the +1 added through the 16-bit accumulator. The
      invariant of Int64Bytes carries over to i + 1 bytes. */
  method Int64Digit(bits: nat, negative: bool, bitmask: nat, maskshift: nat, carry: u16, ghost done: seq<bv8>)
    returns (z: bv8, next: u16)
    requires bitmask == 0xFF * Pow256(|done|) && maskshift == |done| && carry <= 1
    requires !negative ==> Value(done) == bits % Pow256(|done|)
    requires negative ==> Value(done) + carry as nat * Pow256(|done|) == Pow256(|done|) - bits % Pow256(|done|)
    ensures next <= 1
    ensures !negative ==> Value(done + [z]) == bits % Pow256(|done| + 1)
    ensures negative ==> Value(done + [z]) + next as nat * Pow256(|done| + 1)
                         == Pow256(|done| + 1) - bits % Pow256(|done| + 1)
  {
    var b := MaskedShift(bits, bitmask, maskshift * 8);
    MaskedShiftByte(bits, |done|);
    next := carry;
    if negative {
      var t: u16 := carry + Num(!b) as u16;
      z := AsByte((t % 0x100) as nat);
      NegatedByte(done, z, carry as nat, t as nat, b, bits);
      next := t / 0x100;
    } else {
      z := b;
      PlainByte(done, b, bits);
    }
  }

  /** `bitmask <<= 8` moves the byte mask from byte i to byte i + 1. */
  lemma NextMask(bitmask: nat, i: nat)
    requires bitmask == 0xFF * Pow256(i)
    ensures bitmask * 256 == 0xFF * Pow256(i + 1)
  {
    assert Pow256(i + 1) == 256 * Pow256(i);
  }

  /** The overflow store of operator+: a carry left over goes into the
      (zeroed) top byte of the result, so that byte ends up holding the carry. */
  method StoreCarry(out: array<bv8>, carry: u16, ghost done: seq<bv8>)
    requires out[..] == done + [0] && carry <= 1
    modifies out
    ensures out[..] == done + [AsByte(carry as nat)]
  {
    var n := out.Length - 1;
    if carry > 0 {
      out[n] := AsByte((carry % 0x100) as nat);   // carry & 0xFF
    }
    assert out[..] == out[..n] + [out[n]];
  }

  /** One step of the addition loop: from the bytes written so far and the
      carry, add the next two bytes and the carry, store the low byte and
      carry the rest. */
  function AddStep(prev: (seq<bv8>, nat), x: bv8, y: bv8): (seq<bv8>, nat)
  {
    var t := prev.1 + Num(x) + Num(y);
    (prev.0 + [AsByte(t % 0x100)], t / 0x100)
  }

  /** The bytes written and the carry held after the first i steps of the
      addition loop, bytes past an operand's end read as zero. */
  function AddSteps(a: seq<bv8>, b: seq<bv8>, i: nat): (r: (seq<bv8>, nat))
    ensures |r.0| == i && r.1 <= 1
  {
    if i == 0 then ([], 0)
    else AddStep(AddSteps(a, b, i - 1), DigitAt(a, i - 1), DigitAt(b, i - 1))
  }

  /** Step i + 1 of the loop, with its sum t and its stored byte z named. */
  lemma AddStepsNext(a: seq<bv8>, b: seq<bv8>, i: nat, t: nat, z: bv8)
    requires t == AddSteps(a, b, i).1 + Num(DigitAt(a, i)) + Num(DigitAt(b, i))
    requires z == AsByte(t % 0x100)
    ensures AddSteps(a, b, i + 1) == (AddSteps(a, b, i).0 + [z], t / 0x100)
  {
    assert AddSteps(a, b, i + 1) == AddStep(AddSteps(a, b, i), DigitAt(a, i), DigitAt(b, i));
    AddStepBody(AddSteps(a, b, i), DigitAt(a, i), DigitAt(b, i), t, z);
  }

  lemma AddStepBody(prev: (seq<bv8>, nat), x: bv8, y: bv8, t: nat, z: bv8)
    requires t == prev.1 + Num(x) + Num(y) && z == AsByte(t % 0x100)
    ensures AddStep(prev, x, y) == (prev.0 + [z], t / 0x100)
  {
  }

  /** Storing byte i of a buffer whose first i bytes are done extends the
      done prefix by that byte. */
  lemma WriteNext(done: seq<bv8>, initial: seq<bv8>, z: bv8, before: seq<bv8>, after: seq<bv8>)
    requires |done| < |initial| && before == done + initial[|done|..]
    requires after == before[|done| := z]
    ensures after == (done + [z]) + initial[|done| + 1..]
  {
  }

  /** What operator+ stores: n loop steps, then the final carry as the top byte. */
  function AddSum(a: seq<bv8>, b: seq<bv8>, n: nat): (r: seq<bv8>)
    ensures |r| == n + 1
  {
    AddSteps(a, b, n).0 + [AsByte(AddSteps(a, b, n).1)]
  }

  /** The loop invariant of the addition: the bytes written and the carry
      together denote the sum of the two operands' first i bytes. */
  lemma {:induction false} AddStepsValue(a: seq<bv8>, b: seq<bv8>, i: nat)
    ensures Value(AddSteps(a, b, i).0) + AddSteps(a, b, i).1 * Pow256(i)
            == Value(Digits(a, i)) + Value(Digits(b, i))
  {
    if i > 0 {
      AddStepsValue(a, b, i - 1);
      var c := AddSteps(a, b, i - 1).1;
      var t := c + Num(DigitAt(a, i - 1)) + Num(DigitAt(b, i - 1));
      AddStepsParts(a, b, i, t);
      AddedByte(AddSteps(a, b, i).0, c, t, a, b);
    }
  }

  /** Step i of the loop seen from its result: the first i - 1 bytes are
      those of step i - 1, the last is the low byte of the sum t, and the
      carry is the rest of t. */
  lemma AddStepsParts(a: seq<bv8>, b: seq<bv8>, i: nat, t: nat)
    requires i > 0 && t == AddSteps(a, b, i - 1).1 + Num(DigitAt(a, i - 1)) + Num(DigitAt(b, i - 1))
    ensures AddSteps(a, b, i).0[..i - 1] == AddSteps(a, b, i - 1).0
    ensures Num(AddSteps(a, b, i).0[i - 1]) == t % 0x100
    ensures AddSteps(a, b, i).1 == t / 0x100
  {
    var z := AsByte(t % 0x100);
    AddStepsNext(a, b, i - 1, t, z);
    assert (AddSteps(a, b, i - 1).0 + [z])[..i - 1] == AddSteps(a, b, i - 1).0;
  }

  /** The addition is exact: the n + 1 bytes, n covering both operands,
      denote the sum of the two magnitudes. */
  lemma AddSumValue(a: seq<bv8>, b: seq<bv8>, n: nat)
    requires |a| <= n && |b| <= n
    ensures Value(AddSum(a, b, n)) == Value(a) + Value(b)
  {
    var steps, s := AddSteps(a, b, n), AddSum(a, b, n);
    AddStepsValue(a, b, n);
    assert s[..n] == steps.0;
    SumMagnitude(s, steps.1, a, b);
  }

  /** ... and they are the (n + 1)-byte little-endian encoding of that sum. */
  lemma AddSumEncoding(a: seq<bv8>, b: seq<bv8>, n: nat)
    requires |a| <= n && |b| <= n
    ensures AddSum(a, b, n) == LittleEndian(Value(a) + Value(b), n + 1)
  {
    AddSumValue(a, b, n);
    LittleEndianOfValue(AddSum(a, b, n));
  }

  /** One byte of the addition: the low byte of carry + a_i + b_i is stored
      and the rest carried, so the stored prefix and the carry together
      denote the sum of the two prefixes. */
  lemma AddedByte(s: seq<bv8>, c: nat, t: nat, a: seq<bv8>, b: seq<bv8>)
    requires |s| >= 1
    requires c <= 1 && t == c + Num(DigitAt(a, |s| - 1)) + Num(DigitAt(b, |s| - 1))
    requires Num(s[|s| - 1]) == t % 0x100
    requires Value(s[..|s| - 1]) + c * Pow256(|s| - 1)
             == Value(Digits(a, |s| - 1)) + Value(Digits(b, |s| - 1))
    ensures t / 0x100 <= 1
    ensures Value(s) + (t / 0x100) * Pow256(|s|) == Value(Digits(a, |s|)) + Value(Digits(b, |s|))
  {
    var i := |s| - 1;
    assert s == s[..i] + [s[i]];
    ValueDigitsStep(a, i);
    ValueDigitsStep(b, i);
    ValueSnoc(s[..i], s[i]);
    assert Pow256(i + 1) == 256 * Pow256(i);
    AddArith(Value(s[..i]), c, Num(DigitAt(a, i)), Num(DigitAt(b, i)), Pow256(i),
             Value(Digits(a, i)), Value(Digits(b, i)), t);
  }

  /** AddedByte on plain integers. */
  lemma AddArith(v: int, c: int, x: int, y: int, p: int, va: int, vb: int, t: int)
    requires v + c * p == va + vb && t == c + x + y && t >= 0
    ensures v + (t % 0x100) * p + (t / 0x100) * (256 * p) == (va + x * p) + (vb + y * p)
  {
    CarryStep(t, p);
    assert t * p == c * p + x * p + y * p;
  }

  /** The final carry lands in the top byte: the n + 1 bytes denote the sum
      of the two magnitudes. */
  lemma SumMagnitude(s: seq<bv8>, c: nat, a: seq<bv8>, b: seq<bv8>)
    requires |s| >= 1 && |a| < |s| && |b| < |s| && Num(s[|s| - 1]) == c
    requires Value(s[..|s| - 1]) + c * Pow256(|s| - 1)
             == Value(Digits(a, |s| - 1)) + Value(Digits(b, |s| - 1))
    ensures Value(s) == Value(a) + Value(b)
  {
    var n := |s| - 1;
    assert s == s[..n] + [s[n]];
    ValueSnoc(s[..n], s[n]);
    ValueDigitsAll(a, n);
    ValueDigitsAll(b, n);
  }

  // -----------------------------------------------------------------------
  // Arithmetic steps of the byte loops, on plain integers

  /** One byte of the unsigned loop: the prefix denotes bits modulo 256^i. */
  lemma PlainByte(done: seq<bv8>, b: bv8, bits: nat)
    requires Value(done) == bits % Pow256(|done|)
    requires Num(b) == (bits / Pow256(|done|)) % 256
    ensures Value(done + [b]) == bits % Pow256(|done| + 1)
  {
    ValueSnoc(done, b);
    DivModProduct(bits, Pow256(|done|), 256);
    assert Pow256(|done| + 1) == Pow256(|done|) * 256;
  }

  /** One byte of the negating loop: the prefix and the pending carry denote
      256^i minus bits modulo 256^i. */
  lemma NegatedByte(done: seq<bv8>, x: bv8, c: nat, t: nat, b: bv8, bits: nat)
    requires c <= 1 && t == c + Num(!b) && Num(x) == t % 0x100
    requires Num(b) == (bits / Pow256(|done|)) % 256
    requires Value(done) + c * Pow256(|done|) == Pow256(|done|) - bits % Pow256(|done|)
    ensures t / 0x100 <= 1
    ensures Value(done + [x]) + (t / 0x100) * Pow256(|done| + 1)
            == Pow256(|done| + 1) - bits % Pow256(|done| + 1)
  {
    var p := Pow256(|done|);
    Complement(b);
    ValueSnoc(done, x);
    DivModProduct(bits, p, 256);
    assert Pow256(|done| + 1) == p * 256;
    NegationStep(Value(done), c, t, Num(b), bits % p, p);
  }

  /** After eight bytes: the pattern modulo 2^64 is the pattern, and the
      negated bytes leave no carry unless the pattern is 0. */
  lemma Int64Wraps(bits: nat, v: nat, c: nat, negative: bool)
    requires bits < Pow256(8) && c <= 1 && v < Pow256(8) && (negative ==> bits > 0)
    requires !negative ==> v == bits % Pow256(8)
    requires negative ==> v + c * Pow256(8) == Pow256(8) - bits % Pow256(8)
    ensures v == if negative then Pow256(8) - bits else bits
  {
    DivModUnique(bits, Pow256(8), 0, bits);
  }

  /** What CBigValue(int64_t) stores: the eight-byte encoding of |value|. */
  lemma Int64Magnitude(value: i64, bits: nat, negative: bool)
    requires bits == Pattern(value) && negative == (value < 0)
    ensures (if negative then Pow256(8) - bits else bits) == Abs(value as int)
    ensures Abs(value as int) < Pow256(8)
  {
    Pow256Eight();
  }

  /** A byte's complement is 255 minus the byte. */
  lemma Complement(b: bv8)
    ensures Num(!b) == 255 - Num(b)
  {
    NumIsValue(b);
    NumIsValue(!b);
  }

  /** The low byte and the carry out of t together weigh what t weighs. */
  lemma CarryStep(t: int, p: int)
    requires t >= 0
    ensures (t % 0x100) * p + (t / 0x100) * (256 * p) == t * p
  {
    assert t == (t / 0x100) * 256 + t % 0x100;
    assert (t / 0x100) * (256 * p) == ((t / 0x100) * 256) * p;
  }

  /** One byte of the complement-plus-one loop. */
  lemma NegationStep(v: nat, c: nat, t: nat, b: nat, low: nat, p: nat)
    requires p >= 1 && b < 256 && t == c + (255 - b)
    requires v + c * p == p - low
    ensures v + (t % 0x100) * p + (t / 0x100) * (256 * p) == 256 * p - (low + b * p)
  {
    CarryStep(t, p);
    assert t * p == c * p + (255 - b) * p;
  }
}
