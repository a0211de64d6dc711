/** vec: a byte string read and written as an array of fields of 1 to 64 bits. */
module Vec {
  import opened Bits
  import opened Bytes

  datatype Outcome = Value(v: nat) | Croak

  // ----- what a field is: the string continued with zero bytes for ever -----

  /** The number whose n bytes, most significant first, start at index at. */
  function BigEndian(s: seq<Byte>, at: nat, n: nat): nat {
    if n == 0 then 0 else 256 * BigEndian(s, at, n - 1) + ByteAt(s, at + n - 1)
  }

  /** The bit offset of field number offset. */
  function BitPos(offset: nat, size: nat): nat {
    offset * size
  }

  /** Field number offset when the string is cut into fields of size bits. */
  function Field(s: seq<Byte>, offset: nat, size: nat): nat {
    var p := BitPos(offset, size);
    if size < 8 then Low(Shr(ByteAt(s, p / 8), p % 8), size) else BigEndian(s, p / 8, size / 8)
  }

  predicate IsPow2(n: nat) {
    n == 1 || (n > 0 && n % 2 == 0 && IsPow2(n / 2))
  }

  predicate IsWidth(size: int) {
    size == 1 || size == 2 || size == 4 || size == 8 || size == 16 || size == 32 || size == 64
  }

  lemma {:induction false} AndSelf(x: nat)
    ensures Bitwise(And, x, x) == x
  {
    if x > 0 {
      AndSelf(x / 2);
    }
  }

  /** The test size & (size - 1) of the source accepts the powers of two. */
  lemma {:induction false} PowerTest(n: nat)
    requires n > 0
    ensures Bitwise(And, n, n - 1) == 0 <==> IsPow2(n)
  {
    if n % 2 == 1 {
      assert (n - 1) / 2 == n / 2;
      AndSelf(n / 2);
      HalfStep(And, n, n - 1);
    } else {
      assert (n - 1) / 2 == n / 2 - 1;
      PowerTest(n / 2);
      HalfStep(And, n, n - 1);
    }
  }

  lemma {:induction false} SmallPower(n: nat)
    requires IsPow2(n) && n <= 64
    ensures IsWidth(n)
  {
    if n != 1 {
      SmallPower(n / 2);
    }
  }

  lemma WidthsArePowers(size: nat)
    ensures IsPow2(size) && size <= 64 <==> IsWidth(size)
  {
    assert IsPow2(64) && IsPow2(32) && IsPow2(16);
    if IsPow2(size) && size <= 64 {
      SmallPower(size);
    }
  }

  // ----- reading -----

  const UV_MOD := 0x1_0000_0000_0000_0000
  const INT_MOD := 0x1_0000_0000

  /** A byte shifted left by 24 in a 32-bit int, then converted to a 64-bit unsigned value: from
      128 on the sign bit is set and is extended. */
  function ShiftedInt24(b: Byte): nat {
    if b < 128 then b * 0x100_0000 else UV_MOD - INT_MOD + b * 0x100_0000
  }

  /** The conversion of a byte to an unsigned value. */
  function Uv(b: Byte): nat {
    b
  }

  /** The part of do_vecget for a field of 16 bits or more that runs past the end of the string;
      at is the index of its first byte. */
  function PartialRead(s: seq<Byte>, at: nat, size: nat): nat
  {
    var n := |s|;
    if size == 16 then
      if at >= n then 0 else Uv(s[at]) * 0x100
    else if size == 32 then
      if at >= n then 0
      else if at + 1 >= n then Uv(s[at]) * 0x100_0000
      else if at + 2 >= n then Uv(s[at]) * 0x100_0000 + Uv(s[at + 1]) * 0x1_0000
      else Uv(s[at]) * 0x100_0000 + Uv(s[at + 1]) * 0x1_0000 + Uv(s[at + 2]) * 0x100
    else
      if at >= n then 0
      else if at + 1 >= n then Uv(s[at]) * 0x100_0000_0000_0000
      else if at + 2 >= n then Uv(s[at]) * 0x100_0000_0000_0000 + Uv(s[at + 1]) * 0x1_0000_0000_0000
      else if at + 3 >= n then
        Uv(s[at]) * 0x100_0000_0000_0000 + Uv(s[at + 1]) * 0x1_0000_0000_0000 + Uv(s[at + 2]) * 0x100_0000_0000
      else if at + 4 >= n then
        Uv(s[at]) * 0x100_0000_0000_0000 + Uv(s[at + 1]) * 0x1_0000_0000_0000 + Uv(s[at + 2]) * 0x100_0000_0000
        + Uv(s[at + 3]) * 0x1_0000_0000
      else if at + 5 >= n then
        (Uv(s[at]) * 0x100_0000_0000_0000 + Uv(s[at + 1]) * 0x1_0000_0000_0000 + Uv(s[at + 2]) * 0x100_0000_0000
         + Uv(s[at + 3]) * 0x1_0000_0000 + ShiftedInt24(s[at + 4])) % UV_MOD
      else if at + 6 >= n then
        Uv(s[at]) * 0x100_0000_0000_0000 + Uv(s[at + 1]) * 0x1_0000_0000_0000 + Uv(s[at + 2]) * 0x100_0000_0000
        + Uv(s[at + 3]) * 0x1_0000_0000 + Uv(s[at + 4]) * 0x100_0000 + Uv(s[at + 5]) * 0x1_0000
      else
        Uv(s[at]) * 0x100_0000_0000_0000 + Uv(s[at + 1]) * 0x1_0000_0000_0000 + Uv(s[at + 2]) * 0x100_0000_0000
        + Uv(s[at + 3]) * 0x1_0000_0000 + Uv(s[at + 4]) * 0x100_0000 + Uv(s[at + 5]) * 0x1_0000 + Uv(s[at + 6]) * 0x100
  }

  /** The same when the string holds the whole field. */
  function FullRead(s: seq<Byte>, at: nat, size: nat): nat
    requires at + size / 8 <= |s|
  {
    if size == 8 then Uv(s[at])
    else if size == 16 then Uv(s[at]) * 0x100 + Uv(s[at + 1])
    else if size == 32 then
      Uv(s[at]) * 0x100_0000 + Uv(s[at + 1]) * 0x1_0000 + Uv(s[at + 2]) * 0x100 + Uv(s[at + 3])
    else if size == 64 then
      Uv(s[at]) * 0x100_0000_0000_0000 + Uv(s[at + 1]) * 0x1_0000_0000_0000 + Uv(s[at + 2]) * 0x100_0000_0000
      + Uv(s[at + 3]) * 0x1_0000_0000 + Uv(s[at + 4]) * 0x100_0000 + Uv(s[at + 5]) * 0x1_0000 + Uv(s[at + 6]) * 0x100
      + Uv(s[at + 7])
    else 0
  }

  /** do_vecget. */
  function VecRead(s: seq<Byte>, offset: int, size: int): Outcome {
    if offset < 0 then Value(0)
    else if size < 1 || Bitwise(And, size, size - 1) != 0 then Croak
    else
      var p := BitPos(offset, size);
      if (p + size + 7) / 8 > |s| then
        if size == 16 || size == 32 || size == 64 then Value(PartialRead(s, p / 8, size)) else Value(0)
      else if size < 8 then
        Value(Bitwise(And, Shr(s[p / 8], p % 8), Pow2(size) - 1))
      else Value(FullRead(s, p / 8, size))
  }

  /** The one case in which the sign extension shows: a 64-bit field of which exactly five bytes
      are left, the fifth of them 128 or more. */
  predicate SignExtends(s: seq<Byte>, offset: nat, size: nat) {
    size == 64 && |s| == offset * 8 + 5 && s[offset * 8 + 4] >= 128
  }

  lemma PartialIsField(s: seq<Byte>, at: nat, size: nat)
    requires (size == 16 || size == 32 || size == 64) && at + size / 8 > |s|
    ensures PartialRead(s, at, size) == BigEndian(s, at, size / 8) <==>
            !(size == 64 && |s| == at + 5 && s[at + 4] >= 128)
  {
    hide BigEndian;
    Unroll(s, at);
    Step4(s, at);
    Step4(s, at + 2);
    Step4(s, at + 4);
  }

  /** Reading agrees with the zero-extended string, except where the sign extension shows. */
  lemma ReadIsField(s: seq<Byte>, offset: nat, size: nat)
    requires IsWidth(size)
    ensures VecRead(s, offset, size) == Value(Field(s, offset, size)) <==> !SignExtends(s, offset, size)
  {
    hide Bitwise, Low, Shr, BigEndian, PartialRead, FullRead, Pow2, IsPow2, BitPos;
    PowerTest(size);
    WidthsArePowers(size);
    Divides(offset, size);
    var p := BitPos(offset, size);
    if size < 8 {
      SubByteMask(ByteAt(s, p / 8), p % 8, size);
      LowZero(p % 8, size);
    } else if p / 8 + size / 8 <= |s| {
      FullIsField(s, p / 8, size);
    } else if size == 8 {
      Step4(s, p / 8);
    } else {
      PartialIsField(s, p / 8, size);
    }
  }

  /** What the sign-extending read gives instead: 2^32 less than the field, modulo 2^64. */
  lemma SignExtendedRead(s: seq<Byte>, offset: nat)
    requires SignExtends(s, offset, 64)
    ensures VecRead(s, offset, 64) == Value((Field(s, offset, 64) + UV_MOD - INT_MOD) % UV_MOD)
  {
    hide Bitwise, BigEndian, IsPow2;
    PowerTest(64);
    WidthsArePowers(64);
    WideAt(offset);
    var at := 8 * offset;
    Unroll(s, at);
    Step4(s, at);
    Step4(s, at + 2);
    Step4(s, at + 4);
  }

  /** Reading at a negative offset gives 0, whatever the size; otherwise it croaks exactly on sizes
      that are not 1, 2, 4, 8 and so on. */
  lemma ReadErrors(s: seq<Byte>, offset: int, size: int)
    ensures offset < 0 ==> VecRead(s, offset, size) == Value(0)
    ensures offset >= 0 ==> (VecRead(s, offset, size).Croak? <==> !exists k: nat :: size == Pow2(k))
  {
    hide PartialRead, FullRead, Bitwise, BitPos;
    forall k: nat ensures Pow2(k) >= 1 && IsPow2(Pow2(k)) {
      PowersArePow2(k);
    }
    if size >= 1 {
      PowerTest(size);
      if IsPow2(size) {
        var k := Pow2IsPower(size);
      }
    }
  }

  lemma {:induction false} PowersArePow2(k: nat)
    ensures Pow2(k) >= 1 && IsPow2(Pow2(k))
  {
    if k > 0 {
      PowersArePow2(k - 1);
    }
  }

  lemma {:induction false} Pow2IsPower(n: nat) returns (k: nat)
    requires IsPow2(n)
    ensures n == Pow2(k)
  {
    if n == 1 {
      k := 0;
    } else {
      k := Pow2IsPower(n / 2);
      k := k + 1;
    }
  }

  /** Fields of up to 8 bits hold the bits of the endless bit string from offset * size on. */
  lemma NarrowReadBits(s: seq<Byte>, offset: nat, size: nat, j: nat)
    requires IsWidth(size) && size <= 8 && j < size
    ensures var r := VecRead(s, offset, size);
            r.Value? && r.v < Pow2(size) && Bit(r.v, j) == BitAt(s, offset * size + j)
  {
    assert BitPos(offset, size) == offset * size;
    hide VecRead, Bit, Pow2, Low, Shr, BigEndian, BitPos, ByteAt;
    ReadIsField(s, offset, size);
    Divides(offset, size);
    var p := BitPos(offset, size);
    var b := ByteAt(s, p / 8);
    InByte(p, j);
    if size < 8 {
      LowBit(Shr(b, p % 8), size, j);
      ShrBit(b, p % 8, j);
    } else {
      Step4(s, p / 8);
      ByteBelow(b);
    }
  }

  lemma ByteBelow(b: Byte)
    ensures b < Pow2(8)
  {
    assert Pow2(8) == 256;
  }

  lemma InByte(p: nat, j: nat)
    requires p % 8 + j < 8
    ensures (p + j) / 8 == p / 8 && (p + j) % 8 == p % 8 + j
  {
  }

  lemma SubByteMask(b: Byte, k: nat, size: nat)
    ensures Bitwise(And, Shr(b, k), Pow2(size) - 1) == Low(Shr(b, k), size)
  {
    assert Pow2(8) == 256;
    ShrBound(b, k, 8);
    MaskIsLow(Shr(b, k), size, 8);
  }

  lemma FullIsField(s: seq<Byte>, at: nat, size: nat)
    requires IsWidth(size) && size >= 8 && at + size / 8 <= |s|
    ensures FullRead(s, at, size) == BigEndian(s, at, size / 8)
  {
    hide BigEndian;
    Unroll(s, at);
    Step4(s, at);
    Step4(s, at + 2);
    Step4(s, at + 4);
  }

  lemma NarrowAt(i: nat)
    ensures BitPos(i, 1) == i && i % 8 + 1 <= 8 && (i + 1 + 7) / 8 == i / 8 + 1
    ensures BitPos(i, 2) == 2 * i && 2 * i % 8 + 2 <= 8 && (2 * i + 2 + 7) / 8 == 2 * i / 8 + 1
    ensures BitPos(i, 4) == 4 * i && 4 * i % 8 + 4 <= 8 && (4 * i + 4 + 7) / 8 == 4 * i / 8 + 1
  {
  }

  lemma WideAt(i: nat)
    ensures BitPos(i, 8) == 8 * i && BitPos(i, 8) / 8 == i && (BitPos(i, 8) + 8 + 7) / 8 == i + 1
    ensures BitPos(i, 16) == 16 * i && BitPos(i, 16) / 8 == 2 * i && (BitPos(i, 16) + 16 + 7) / 8 == 2 * i + 2
    ensures BitPos(i, 32) == 32 * i && BitPos(i, 32) / 8 == 4 * i && (BitPos(i, 32) + 32 + 7) / 8 == 4 * i + 4
    ensures BitPos(i, 64) == 64 * i && BitPos(i, 64) / 8 == 8 * i && (BitPos(i, 64) + 64 + 7) / 8 == 8 * i + 8
  {
  }

  /** Where field offset lies: sub-byte fields stay within a byte, wider ones start on one. */
  lemma Divides(offset: nat, size: nat)
    requires IsWidth(size)
    ensures var p := BitPos(offset, size);
            if size < 8 then p % 8 + size <= 8 && (p + size + 7) / 8 == p / 8 + 1
            else p % 8 == 0 && p / 8 == offset * (size / 8) && (p + size + 7) / 8 == p / 8 + size / 8
  {
    NarrowAt(offset);
    WideAt(offset);
    hide BitPos;
    if size < 8 {
    } else if size <= 16 {
    }
  }

  lemma {:induction false} LowZero(k: nat, n: nat)
    ensures Low(Shr(0, k), n) == 0
  {
    if k > 0 {
      LowZero(k - 1, n);
    } else if n > 0 {
      LowZero(0, n - 1);
    }
  }

  lemma {:induction false} ShrBound(x: nat, k: nat, n: nat)
    requires x < Pow2(n)
    ensures Shr(x, k) < Pow2(n)
  {
    if k > 0 {
      if n > 0 {
        ShrBound(x / 2, k - 1, n - 1);
        Pow2Grows(n - 1, 1);
      } else {
        ShrBound(0, k - 1, 0);
      }
    }
  }

  /** Wide fields are made of narrower ones, the most significant first. */
  lemma Unroll(s: seq<Byte>, at: nat)
    ensures BigEndian(s, at, 1) == ByteAt(s, at)
    ensures BigEndian(s, at, 2) == ByteAt(s, at) * 0x100 + ByteAt(s, at + 1)
    ensures BigEndian(s, at, 4) == BigEndian(s, at, 2) * 0x1_0000 + BigEndian(s, at + 2, 2)
    ensures BigEndian(s, at, 8) == BigEndian(s, at, 4) * 0x1_0000_0000 + BigEndian(s, at + 4, 4)
  {
    Step4(s, at);
    Step4(s, at + 4);
    assert BigEndian(s, at + 2, 1) == ByteAt(s, at + 2);
    assert BigEndian(s, at, 5) == 256 * BigEndian(s, at, 4) + ByteAt(s, at + 4);
    assert BigEndian(s, at, 6) == 256 * BigEndian(s, at, 5) + ByteAt(s, at + 5);
    assert BigEndian(s, at, 7) == 256 * BigEndian(s, at, 6) + ByteAt(s, at + 6);
  }

  lemma Step4(s: seq<Byte>, at: nat)
    ensures BigEndian(s, at, 1) == ByteAt(s, at)
    ensures BigEndian(s, at, 2) == 256 * BigEndian(s, at, 1) + ByteAt(s, at + 1)
    ensures BigEndian(s, at, 3) == 256 * BigEndian(s, at, 2) + ByteAt(s, at + 2)
    ensures BigEndian(s, at, 4) == 256 * BigEndian(s, at, 3) + ByteAt(s, at + 3)
  {
  }

  /** Wide fields agree everywhere, also past the end: each is the big-endian combination of the
      two fields of half its width. */
  lemma WideWidthsAgree(s: seq<Byte>, i: nat)
    ensures Field(s, i, 16) == Field(s, 2 * i, 8) * 0x100 + Field(s, 2 * i + 1, 8)
    ensures Field(s, i, 32) == Field(s, 2 * i, 16) * 0x1_0000 + Field(s, 2 * i + 1, 16)
    ensures Field(s, i, 64) == Field(s, 2 * i, 32) * 0x1_0000_0000 + Field(s, 2 * i + 1, 32)
  {
    hide BigEndian, BitPos;
    WideAt(i);
    WideAt(2 * i);
    WideAt(2 * i + 1);
    Unroll(s, 2 * i);
    Step4(s, 2 * i + 1);
    Unroll(s, 4 * i);
    Unroll(s, 8 * i);
  }

  /** Narrow fields agree everywhere: each is the low-first combination of the two fields of half
      its width. */
  lemma NarrowWidthsAgree(s: seq<Byte>, i: nat)
    ensures Field(s, i, 8) == Field(s, 2 * i, 4) + 16 * Field(s, 2 * i + 1, 4)
    ensures Field(s, i, 4) == Field(s, 2 * i, 2) + 4 * Field(s, 2 * i + 1, 2)
    ensures Field(s, i, 2) == Field(s, 2 * i, 1) + 2 * Field(s, 2 * i + 1, 1)
  {
    var b := ByteAt(s, i);
    assert Pow2(1) == 2 && Pow2(2) == 4 && Pow2(4) == 16;
    hide Shr, Low, BigEndian, ByteAt, Pow2, BitPos;
    WholeByte(b);
    Halve(b, 0, 4);
    Step4(s, i);
    Halve(ByteAt(s, i / 2), 4 * (i % 2), 2);
    Halve(ByteAt(s, i / 4), 2 * (i % 4), 1);
    Places(i);
  }

  /** The wide reads agree with each other, also past the end of the string: unconditionally up to
      32 bits, and for 64 bits exactly where the sign extension does not show. */
  lemma WideReadsAgree(s: seq<Byte>, i: nat)
    ensures VecRead(s, i, 16) == Pair(VecRead(s, 2 * i + 1, 8), 0x100, VecRead(s, 2 * i, 8))
    ensures VecRead(s, i, 32) == Pair(VecRead(s, 2 * i + 1, 16), 0x1_0000, VecRead(s, 2 * i, 16))
    ensures VecRead(s, i, 64) == Pair(VecRead(s, 2 * i + 1, 32), 0x1_0000_0000, VecRead(s, 2 * i, 32)) <==>
            !SignExtends(s, i, 64)
  {
    hide VecRead, Field;
    WideWidthsAgree(s, i);
    ReadIsField(s, i, 16);
    ReadIsField(s, i, 32);
    ReadIsField(s, i, 64);
    BothReads(s, i, 8);
    BothReads(s, i, 16);
    BothReads(s, i, 32);
  }

  /** The narrow reads agree with each other everywhere. */
  lemma NarrowReadsAgree(s: seq<Byte>, i: nat)
    ensures VecRead(s, i, 8) == Pair(VecRead(s, 2 * i, 4), 16, VecRead(s, 2 * i + 1, 4))
    ensures VecRead(s, i, 4) == Pair(VecRead(s, 2 * i, 2), 4, VecRead(s, 2 * i + 1, 2))
    ensures VecRead(s, i, 2) == Pair(VecRead(s, 2 * i, 1), 2, VecRead(s, 2 * i + 1, 1))
  {
    hide VecRead, Field;
    NarrowWidthsAgree(s, i);
    ReadIsField(s, i, 8);
    ReadIsField(s, i, 4);
    ReadIsField(s, i, 2);
    BothReads(s, i, 4);
    BothReads(s, i, 2);
    BothReads(s, i, 1);
  }

  /** What two reads give when they are put together, the second in units of unit. */
  function Pair(low: Outcome, unit: nat, high: Outcome): Outcome {
    if low.Croak? || high.Croak? then Croak else Value(low.v + unit * high.v)
  }

  lemma BothReads(s: seq<Byte>, i: nat, size: nat)
    requires IsWidth(size) && size != 64
    ensures VecRead(s, 2 * i, size) == Value(Field(s, 2 * i, size))
    ensures VecRead(s, 2 * i + 1, size) == Value(Field(s, 2 * i + 1, size))
  {
    hide VecRead, Field;
    ReadIsField(s, 2 * i, size);
    ReadIsField(s, 2 * i + 1, size);
  }

  lemma Places(i: nat)
    ensures BitPos(i, 8) / 8 == i
    ensures BitPos(2 * i, 4) / 8 == i && BitPos(2 * i, 4) % 8 == 0
    ensures BitPos(2 * i + 1, 4) / 8 == i && BitPos(2 * i + 1, 4) % 8 == 4
    ensures BitPos(i, 4) / 8 == i / 2 && BitPos(i, 4) % 8 == 4 * (i % 2)
    ensures BitPos(2 * i, 2) / 8 == i / 2 && BitPos(2 * i, 2) % 8 == 4 * (i % 2)
    ensures BitPos(2 * i + 1, 2) / 8 == i / 2 && BitPos(2 * i + 1, 2) % 8 == 4 * (i % 2) + 2
    ensures BitPos(i, 2) / 8 == i / 4 && BitPos(i, 2) % 8 == 2 * (i % 4)
    ensures BitPos(2 * i, 1) / 8 == i / 4 && BitPos(2 * i, 1) % 8 == 2 * (i % 4)
    ensures BitPos(2 * i + 1, 1) / 8 == i / 4 && BitPos(2 * i + 1, 1) % 8 == 2 * (i % 4) + 1
  {
  }

  /** A field of 2n bits is made of two fields of n bits, the low one first. */
  lemma Halve(x: nat, k: nat, n: nat)
    ensures Low(Shr(x, k), 2 * n) == Low(Shr(x, k), n) + Pow2(n) * Low(Shr(x, k + n), n)
    ensures Shr(x, 0) == x
  {
    ShrShr(x, k, n);
    LowSplit(Shr(x, k), n, n);
  }

  lemma WholeByte(b: Byte)
    ensures Low(b, 8) == b
  {
    ShrLow(b, 8);
    assert Pow2(8) == 256;
  }

  // ----- writing -----

  function Zeros(n: nat): (z: seq<Byte>)
    ensures |z| == n
    ensures forall i :: 0 <= i < n ==> z[i] == 0
  {
    if n == 0 then [] else Zeros(n - 1) + [0]
  }

  /** The string, lengthened with zero bytes if it is shorter than len. */
  function Lengthened(s: seq<Byte>, len: nat): (r: seq<Byte>)
    ensures |r| == if len > |s| then len else |s|
    ensures forall j: nat :: ByteAt(r, j) == ByteAt(s, j)
  {
    if len > |s| then s + Zeros(len - |s|) else s
  }

  /** Clearing size bits of a byte from bit k on, and setting them to the low bits of lval. */
  function Merge(b: Byte, k: nat, size: nat, lval: nat): (r: Byte)
    requires k + size <= 8
  {
    var mask := Pow2(size) - 1;
    MergeBounds(b, k, size, lval);
    Bitwise(Or, Bitwise(And, b, 255 - mask * Pow2(k)), Bitwise(And, lval, mask) * Pow2(k))
  }

  lemma MergeBounds(b: Byte, k: nat, size: nat, lval: nat)
    requires k + size <= 8
    ensures var mask := Pow2(size) - 1;
            && mask * Pow2(k) <= 255
            && Bitwise(Or, Bitwise(And, b, 255 - mask * Pow2(k)), Bitwise(And, lval, mask) * Pow2(k)) < 256
  {
    assert Pow2(8) == 256;
    hide Bitwise, Pow2;
    var mask, p := Pow2(size) - 1, Pow2(k);
    var v := Bitwise(And, lval, mask);
    AndBound(lval, mask);
    ShiftBound(v, mask, size, k);
    var cleared := Bitwise(And, b, 255 - mask * p);
    BitwiseBound(And, b, 255 - mask * p, 8);
    BitwiseBound(Or, cleared, v * p, 8);
  }

  lemma {:induction false} ShiftMono(v: nat, w: nat, k: nat)
    requires v <= w
    ensures 0 <= v * Pow2(k) <= w * Pow2(k)
  {
    if k > 0 {
      ShiftMono(v, w, k - 1);
      assert v * Pow2(k) == 2 * (v * Pow2(k - 1)) && w * Pow2(k) == 2 * (w * Pow2(k - 1));
    }
  }

  lemma Distribute(m: int, p: int)
    ensures (m + 1) * p == m * p + p
  {
  }

  lemma ShiftBound(v: nat, mask: nat, size: nat, k: nat)
    requires k + size <= 8 && v <= mask == Pow2(size) - 1
    ensures 0 <= v * Pow2(k) <= mask * Pow2(k) < 256
  {
    assert Pow2(8) == 256;
    hide Pow2;
    Pow2Add(size, k);
    Pow2Grows(size + k, 8 - size - k);
    ShiftMono(v, mask, k);
    Distribute(mask, Pow2(k));
    assert mask + 1 == Pow2(size);
  }

  lemma {:induction false} AndBound(x: nat, y: nat)
    ensures Bitwise(And, x, y) <= y
  {
    if !(x == 0 && y == 0) {
      AndBound(x / 2, y / 2);
    }
  }

  /** Exactly the size bits from k on change. */
  lemma MergeBit(b: Byte, k: nat, size: nat, lval: nat, i: nat)
    requires k + size <= 8 && i < 8
    ensures Bit(Merge(b, k, size, lval), i) == if k <= i < k + size then Bit(lval, i - k) else Bit(b, i)
  {
    hide Bit, Bitwise;
    var mask := Pow2(size) - 1;
    MergeBounds(b, k, size, lval);
    assert Pow2(8) == 256;
    BitwiseBit(Or, Bitwise(And, b, 255 - mask * Pow2(k)), Bitwise(And, lval, mask) * Pow2(k), i);
    BitwiseBit(And, b, 255 - mask * Pow2(k), i);
    ComplementBit(mask * Pow2(k), 8, i);
    ShiftBit(mask, k, i);
    ShiftBit(Bitwise(And, lval, mask), k, i);
    if i >= k {
      OnesBit(size, i - k);
      BitwiseBit(And, lval, mask, i - k);
    }
  }

  /** The low n bytes of v, most significant first, from index at on. */
  function WriteBigEndian(s: seq<Byte>, at: nat, n: nat, v: nat): (r: seq<Byte>)
    requires at + n <= |s|
    ensures |r| == |s|
    ensures forall j: nat :: !(at <= j < at + n) ==> ByteAt(r, j) == ByteAt(s, j)
  {
    if n == 0 then s else
    assert Pow2(8) == 256;
    WriteBigEndian(s, at, n - 1, Shr(v, 8))[at + n - 1 := Low(v, 8)]
  }

  lemma {:induction false} WriteThenRead(s: seq<Byte>, at: nat, n: nat, v: nat)
    requires at + n <= |s|
    ensures BigEndian(WriteBigEndian(s, at, n, v), at, n) == Low(v, 8 * n)
  {
    if n > 0 {
      WriteThenRead(s, at, n - 1, Shr(v, 8));
      WriteStep(s, at, n, v);
      LowByte(v, n);
    }
  }

  /** The last byte written is the low one of the value. */
  lemma WriteStep(s: seq<Byte>, at: nat, n: nat, v: nat)
    requires 0 < n && at + n <= |s|
    ensures BigEndian(WriteBigEndian(s, at, n, v), at, n)
         == 256 * BigEndian(WriteBigEndian(s, at, n - 1, Shr(v, 8)), at, n - 1) + Low(v, 8)
  {
    hide Low, Shr, Pow2;
    SameBytes(WriteBigEndian(s, at, n - 1, Shr(v, 8)), WriteBigEndian(s, at, n, v), at, n - 1);
  }

  lemma LowByte(v: nat, n: nat)
    requires n > 0
    ensures Low(v, 8 * n) == 256 * Low(Shr(v, 8), 8 * (n - 1)) + Low(v, 8)
  {
    LowSplit(v, 8, 8 * (n - 1));
    assert Pow2(8) == 256;
    hide Low, Shr, Pow2;
    assert 8 + 8 * (n - 1) == 8 * n;
  }

  lemma {:induction false} SameBytes(s: seq<Byte>, t: seq<Byte>, at: nat, n: nat)
    requires forall j :: at <= j < at + n ==> ByteAt(s, j) == ByteAt(t, j)
    ensures BigEndian(s, at, n) == BigEndian(t, at, n)
  {
    if n > 0 {
      SameBytes(s, t, at, n - 1);
    }
  }

  /** The string after field offset has been set to lval. Sizes beyond 64 only lengthen it. */
  function SetField(s: seq<Byte>, offset: nat, size: nat, lval: nat): (r: seq<Byte>)
    requires IsPow2(size)
    ensures |r| == if (BitPos(offset, size) + size + 7) / 8 > |s| then (BitPos(offset, size) + size + 7) / 8 else |s|
  {
    var p := BitPos(offset, size);
    var g := Lengthened(s, (p + size + 7) / 8);
    if size > 64 then g else
    WidthsArePowers(size);
    Divides(offset, size);
    if size < 8 then g[p / 8 := Merge(g[p / 8], p % 8, size, lval)]
    else WriteBigEndian(g, p / 8, size / 8, lval)
  }

  /** The string is lengthened to the bytes that the field needs, and no more. */
  lemma SetLength(s: seq<Byte>, offset: nat, size: nat, lval: nat)
    requires IsPow2(size)
    ensures var r, bits := SetField(s, offset, size, lval), offset * size + size;
            8 * |r| >= bits && (|r| == |s| || (|r| > |s| && 8 * (|r| - 1) < bits))
  {
    hide WriteBigEndian, Merge, IsPow2;
  }

  /** The write changes the size bits of the field and nothing else of the endless bit string; with
      sizes beyond 64 it changes none. */
  lemma SetKeepsOthers(s: seq<Byte>, offset: nat, size: nat, lval: nat, q: nat)
    requires IsPow2(size) && !(offset * size <= q < offset * size + size && size <= 64)
    ensures BitAt(SetField(s, offset, size, lval), q) == BitAt(s, q)
  {
    assert BitPos(offset, size) == offset * size;
    hide Bit, Merge, WriteBigEndian, Lengthened, BitPos, IsPow2;
    WidthsArePowers(size);
    if size <= 64 {
      Divides(offset, size);
      var p := BitPos(offset, size);
      if size < 8 && q / 8 == p / 8 {
        MergeBit(ByteAt(s, p / 8), p % 8, size, lval, q % 8);
      }
    }
  }

  lemma SetThenField(s: seq<Byte>, offset: nat, size: nat, lval: nat)
    requires IsWidth(size) && IsPow2(size)
    ensures Field(SetField(s, offset, size, lval), offset, size) == Low(lval, size)
  {
    hide Low, Shr, Merge, WriteBigEndian, BitPos, IsPow2, Lengthened, BigEndian;
    Divides(offset, size);
    var p := BitPos(offset, size);
    var g := Lengthened(s, (p + size + 7) / 8);
    if size < 8 {
      MergeThenRead(g[p / 8], p % 8, size, lval);
    } else {
      WriteThenRead(g, p / 8, size / 8, lval);
    }
  }

  /** Reading a field back gives the value modulo 2^size: for every width up to 64, and beyond that
      only when the value is 0 modulo 2^size. */
  lemma SetThenGet(s: seq<Byte>, offset: nat, size: nat, lval: nat)
    requires IsPow2(size)
    ensures VecRead(SetField(s, offset, size, lval), offset, size) == Value(lval % Pow2(size)) <==>
            size <= 64 || lval % Pow2(size) == 0
  {
    LowIsRemainder(lval, size);
    assert size > 0;
    WidthsArePowers(size);
    hide Low, SetField, VecRead, Field, IsPow2;
    var r := SetField(s, offset, size, lval);
    if size <= 64 {
      WideAt(offset);
      hide BitPos;
      ReadIsField(r, offset, size);
      SetThenField(s, offset, size, lval);
    } else {
      WideReadsZero(r, offset, size);
    }
  }

  lemma MergeThenRead(b: Byte, k: nat, size: nat, lval: nat)
    requires k + size <= 8
    ensures Low(Shr(Merge(b, k, size, lval), k), size) == Low(lval, size)
  {
    hide Bit, Low, Shr, Merge;
    var m := Merge(b, k, size, lval);
    forall i | 0 <= i < size ensures Bit(Low(Shr(m, k), size), i) == Bit(Low(lval, size), i) {
      LowBit(Shr(m, k), size, i);
      LowBit(lval, size, i);
      ShrBit(m, k, i);
      MergeBit(b, k, size, lval, i + k);
    }
    SameBits(Low(Shr(m, k), size), Low(lval, size), size);
  }

  /** Sizes beyond 64 always read as zero. */
  lemma WideReadsZero(s: seq<Byte>, offset: nat, size: nat)
    requires IsPow2(size) && size > 64
    ensures VecRead(s, offset, size) == Value(0)
  {
    assert size > 0;
    hide Bitwise, BitPos, IsPow2;
    PowerTest(size);
  }

  /** The string that vec is assigned to. */
  class Target {
    var text: seq<Byte>

    constructor (text: seq<Byte>)
      ensures this.text == text
    {
      this.text := text;
    }

    /** do_vecset. */
    method VecSet(offset: int, size: int, lval: nat) returns (croaked: bool)
      modifies this
      ensures croaked <==> offset < 0 || size < 1 || !IsPow2(size)
      ensures croaked ==> text == old(text)
      ensures !croaked ==> text == SetField(old(text), offset, size, lval)
    {
      if offset < 0 {
        return true;
      }
      if size >= 1 {
        PowerTest(size);
      }
      if size < 1 || Bitwise(And, size, size - 1) != 0 {
        return true;
      }
      var p := BitPos(offset, size);
      var len := (p + size + 7) / 8;
      text := Lengthened(text, len);
      WidthsArePowers(size);
      if size <= 64 {
        Divides(offset, size);
        if size < 8 {
          text := text[p / 8 := Merge(text[p / 8], p % 8, size, lval)];
        } else {
          StoreBytes(p / 8, size, lval);
        }
      }
      croaked := false;
    }

    /** The stores of a field of 8 bits or more, each byte masked out of the value. */
    method StoreBytes(at: nat, size: nat, lval: nat)
      requires (size == 8 || size == 16 || size == 32 || size == 64) && at + size / 8 <= |text|
      modifies this
      ensures text == WriteBigEndian(old(text), at, size / 8, lval)
    {
      hide WriteBigEndian;
      ghost var s := text;
      NoBytes(s, at, lval, size);
      StoreByte(s, at, 0, size, lval);
      if size >= 16 {
        StoreByte(s, at, 1, size, lval);
      }
      if size >= 32 {
        StoreByte(s, at, 2, size, lval);
        StoreByte(s, at, 3, size, lval);
      }
      if size == 64 {
        StoreByte(s, at, 4, size, lval);
        StoreByte(s, at, 5, size, lval);
        StoreByte(s, at, 6, size, lval);
        StoreByte(s, at, 7, size, lval);
      }
    }

    static lemma NoBytes(s: seq<Byte>, at: nat, lval: nat, size: nat)
      requires at <= |s|
      ensures WriteBigEndian(s, at, 0, Shr(lval, size)) == s && Shr(lval, 0) == lval
    {
    }

    method StoreByte(ghost s: seq<Byte>, at: nat, i: nat, size: nat, lval: nat)
      requires 8 * (i + 1) <= size && at + i < |s| && text == WriteBigEndian(s, at, i, Shr(lval, size - 8 * i))
      modifies this
      ensures text == WriteBigEndian(s, at, i + 1, Shr(lval, size - 8 * (i + 1)))
    {
      ShrShr(lval, size - 8 * (i + 1), 8);
      assert Pow2(8) == 256;
      text := text[at + i := Low(Shr(lval, size - 8 * (i + 1)), 8)];
    }
  }
}
