/**
 * CRC-32C: the checksum bit by bit, the slicing-by-4 form of it that reads four bytes at a time, and
 * the combination of two checksums by powers of a matrix over GF(2).
 */
module Crc32c {
  import opened Bytes
  import opened Words

  /** The reversed Castagnoli polynomial. */
  const POLY: u32 := 0x82f63b78
  const ONES: u32 := 0xffff_ffff

  // ----- The checksum, bit by bit -----

  function Feedback(l: u32): u32
  {
    if l % 2 == 1 then POLY else 0
  }

  /** One step of the shift register on a zero bit. */
  function BitStep(l: u32): u32
  {
    Xor32(l / 2, Feedback(l))
  }

  /** The register after n zero bits. */
  function ZeroBits(l: u32, n: nat): u32
  {
    if n == 0 then l else BitStep(ZeroBits(l, n - 1))
  }

  /** The register after the eight bits of a byte. */
  function ByteStep(l: u32, b: byte): u32
  {
    ZeroBits(Xor32(l, b), 8)
  }

  /** The register after a sequence of bytes. */
  function Register(l: u32, data: seq<byte>): u32
    decreases |data|
  {
    if data == [] then l else ByteStep(Register(l, data[..|data| - 1]), data[|data| - 1])
  }

  /** The checksum of a string whose earlier part has checksum `crc`. */
  function Extended(crc: u32, data: seq<byte>): u32
  {
    Xor32(Register(Xor32(crc, ONES), data), ONES)
  }

  /** The checksum of a string. */
  function Checksum(data: seq<byte>): u32
  {
    Extended(0, data)
  }

  // ----- Composition -----

  lemma {:induction false} RegisterConcat(l: u32, a: seq<byte>, b: seq<byte>)
    ensures Register(l, a + b) == Register(Register(l, a), b)
    decreases |b|
  {
    if b == [] {
      assert a + b == a;
    } else {
      var init := b[..|b| - 1];
      assert (a + b)[..|a + b| - 1] == a + init;
      RegisterConcat(l, a, init);
    }
  }

  /** Extending over two pieces is extending over their concatenation. */
  lemma ExtendConcat(crc: u32, a: seq<byte>, b: seq<byte>)
    ensures Extended(Extended(crc, a), b) == Extended(crc, a + b)
  {
    RegisterConcat(Xor32(crc, ONES), a, b);
    XorCancel(Register(Xor32(crc, ONES), a), ONES);
  }

  /** However a string is cut, streaming its pieces gives its checksum. */
  lemma {:induction false} StreamedIsExtended(crc: u32, parts: seq<seq<byte>>)
    ensures Streamed(Extended, crc, parts) == Extended(crc, Concat(parts))
    decreases |parts|
  {
    if parts == [] {
      XorCancel(crc, ONES);
    } else {
      StreamedIsExtended(crc, parts[..|parts| - 1]);
      ExtendConcat(crc, Concat(parts[..|parts| - 1]), parts[|parts| - 1]);
    }
  }

  // ----- Linearity of the register -----

  lemma FeedbackLinear(x: u32, y: u32)
    ensures Feedback(Xor32(x, y)) == Xor32(Feedback(x), Feedback(y))
  {
    XorHalves(x, y);
    XorZero(POLY);
    XorSelf(POLY);
  }

  lemma BitStepLinear(x: u32, y: u32)
    ensures BitStep(Xor32(x, y)) == Xor32(BitStep(x), BitStep(y))
  {
    XorHalves(x, y);
    FeedbackLinear(x, y);
    XorSwap(x / 2, y / 2, Feedback(x), Feedback(y));
  }

  lemma {:induction false} ZeroBitsLinear(x: u32, y: u32, n: nat)
    ensures ZeroBits(Xor32(x, y), n) == Xor32(ZeroBits(x, n), ZeroBits(y, n))
    decreases n
  {
    if n > 0 {
      ZeroBitsLinear(x, y, n - 1);
      BitStepLinear(ZeroBits(x, n - 1), ZeroBits(y, n - 1));
    }
  }

  lemma {:induction false} ZeroBitsOfZero(n: nat)
    ensures ZeroBits(0, n) == 0
    decreases n
  {
    if n > 0 {
      ZeroBitsOfZero(n - 1);
    }
  }

  lemma {:induction false} ZeroBitsAdd(l: u32, m: nat, n: nat)
    ensures ZeroBits(l, m + n) == ZeroBits(ZeroBits(l, m), n)
    decreases n
  {
    if n > 0 {
      ZeroBitsAdd(l, m, n - 1);
    }
  }

  /** Only zero becomes zero: the top bit of the polynomial is set. */
  lemma BitStepOfZero(z: u32)
    requires BitStep(z) == 0
    ensures z == 0
  {
    XorIsZero(z / 2, Feedback(z));
  }

  lemma BitStepInjective(x: u32, y: u32)
    requires BitStep(x) == BitStep(y)
    ensures x == y
  {
    BitStepLinear(x, y);
    XorSelf(BitStep(x));
    BitStepOfZero(Xor32(x, y));
    XorIsZero(x, y);
  }

  lemma {:induction false} ZeroBitsInjective(x: u32, y: u32, n: nat)
    requires ZeroBits(x, n) == ZeroBits(y, n)
    ensures x == y
    decreases n
  {
    if n > 0 {
      BitStepInjective(ZeroBits(x, n - 1), ZeroBits(y, n - 1));
      ZeroBitsInjective(x, y, n - 1);
    }
  }

  lemma XorInjective(x: u32, y: u32, z: u32)
    requires Xor32(x, z) == Xor32(y, z)
    ensures x == y
  {
    XorCancel(x, z);
    XorCancel(y, z);
  }

  /** A byte loses nothing of the register. */
  lemma ByteStepInjective(l: u32, m: u32, b: byte)
    requires ByteStep(l, b) == ByteStep(m, b)
    ensures l == m
  {
    ZeroBitsInjective(Xor32(l, b), Xor32(m, b), 8);
    XorInjective(l, m, b);
  }

  lemma {:induction false} RegisterInjective(l: u32, m: u32, data: seq<byte>)
    requires Register(l, data) == Register(m, data)
    ensures l == m
    decreases |data|
  {
    if data != [] {
      var init := data[..|data| - 1];
      ByteStepInjective(Register(l, init), Register(m, init), data[|data| - 1]);
      RegisterInjective(l, m, init);
    }
  }

  /** Different checksums stay different, whatever they are extended by. */
  lemma ExtendInjective(c: u32, d: u32, data: seq<byte>)
    requires Extended(c, data) == Extended(d, data)
    ensures c == d
  {
    XorInjective(Register(Xor32(c, ONES), data), Register(Xor32(d, ONES), data), ONES);
    RegisterInjective(Xor32(c, ONES), Xor32(d, ONES), data);
    XorInjective(c, d, ONES);
  }

  /** Strings that differ only in their last byte have different checksums. */
  lemma LastByteTells(c: u32, data: seq<byte>, x: byte, y: byte)
    requires Extended(c, data + [x]) == Extended(c, data + [y])
    ensures x == y
  {
    var l := Xor32(c, ONES);
    var r := Register(l, data);
    assert (data + [x])[..|data|] == data == (data + [y])[..|data|];
    XorInjective(Register(l, data + [x]), Register(l, data + [y]), ONES);
    ZeroBitsInjective(Xor32(r, x), Xor32(r, y), 8);
    XorComm(r, x);
    XorComm(r, y);
    XorInjective(x, y, r);
  }

  /** As many zero bits as there are clear bits at the bottom just shift the word. */
  lemma {:induction false} ShiftOut(x: nat, n: nat)
    requires Shl(x, n) < 0x1_0000_0000
    ensures ZeroBits(Shl(x, n), n) == x
    decreases n
  {
    if n > 0 {
      var y := Shl(x, n - 1);
      ShiftOut(x, n - 1);
      ZeroBitsAdd(2 * y, 1, n - 1);
      XorZero(y);
      assert ZeroBits(2 * y, 1) == BitStep(2 * y) == y;
    }
  }

  // ----- Slicing by four -----

  function XorByte(a: byte, b: byte): (r: byte)
    ensures r == Xor(a, b)
  {
    Pow2Values();
    XorBound(a, b, 8);
    Xor(a, b)
  }

  /** The k-th lookup table: table 0 takes eight bit steps, and each further table takes one more byte. */
  function Table(k: nat, i: byte): u32
  {
    if k == 0 then ZeroBits(i, 8)
    else
      var t := Table(k - 1, i);
      Xor32(ZeroBits(t % 0x100, 8), t / 0x100)
  }

  /** Eight zero bits look the low byte up and shift the rest. */
  lemma LowByte(l: u32)
    ensures ZeroBits(l, 8) == Xor32(ZeroBits(l % 0x100, 8), l / 0x100)
  {
    Pow2Values();
    var low, high := l % 0x100, l / 0x100;
    ShlValues(high);
    XorJoins(low, high, 8);
    assert l == Xor32(low, high * 0x100);
    ZeroBitsLinear(low, high * 0x100, 8);
    ShiftOut(high, 8);
  }

  lemma {:induction false} TableIsZeroBits(k: nat, i: byte)
    ensures Table(k, i) == ZeroBits(i, 8 * (k + 1))
    decreases k
  {
    if k > 0 {
      TableIsZeroBits(k - 1, i);
      LowByte(Table(k - 1, i));
      ZeroBitsAdd(i, 8 * k, 8);
    }
  }

  /** STEP1: one byte through table 0. */
  function Step1(l: u32, b: byte): u32
  {
    Xor32(Table(0, XorByte(l % 0x100, b)), l / 0x100)
  }

  lemma Step1IsByteStep(l: u32, b: byte)
    ensures Step1(l, b) == ByteStep(l, b)
  {
    Pow2Values();
    var low, high := l % 0x100, l / 0x100;
    ShlValues(high);
    XorJoins(low, high, 8);
    assert l == Xor32(low, high * 0x100);
    XorAssoc(low, high * 0x100, b);
    XorComm(high * 0x100, b);
    XorAssoc(low, b, high * 0x100);
    assert Xor32(l, b) == Xor32(XorByte(low, b), high * 0x100);
    ZeroBitsLinear(XorByte(low, b), high * 0x100, 8);
    ShiftOut(high, 8);
  }

  /** A little-endian word. */
  function Load32(b0: byte, b1: byte, b2: byte, b3: byte): u32
  {
    b0 as int + 0x100 * (b1 as int) + 0x1_0000 * (b2 as int) + 0x100_0000 * (b3 as int)
  }

  /** STEP4: four bytes through the four tables. */
  function Step4(l: u32, b0: byte, b1: byte, b2: byte, b3: byte): u32
  {
    var c := Xor32(l, Load32(b0, b1, b2, b3));
    var c8 := c / 0x100;
    var c16 := c8 / 0x100;
    Xor32(Xor32(Xor32(Table(3, c % 0x100), Table(2, c8 % 0x100)), Table(1, c16 % 0x100)), Table(0, c16 / 0x100))
  }

  lemma JoinByte(low: nat, b: byte, n: nat, weight: nat)
    requires low < weight && Pow2(n) == weight && Shl(b, n) == b * weight
    ensures Xor(low, b * weight) == low + b * weight
  {
    XorJoins(low, b, n);
  }

  lemma JoinByte8(low: nat, b: byte)
    requires low < 0x100
    ensures Xor(low, b * 0x100) == low + b * 0x100
  {
    Pow2Values();
    ShlValues(b);
    JoinByte(low, b, 8, 0x100);
  }

  lemma JoinByte16(low: nat, b: byte)
    requires low < 0x1_0000
    ensures Xor(low, b * 0x1_0000) == low + b * 0x1_0000
  {
    Pow2Values();
    ShlValues(b);
    JoinByte(low, b, 16, 0x1_0000);
  }

  lemma JoinByte24(low: nat, b: byte)
    requires low < 0x100_0000
    ensures Xor(low, b * 0x100_0000) == low + b * 0x100_0000
  {
    Pow2Values();
    ShlValues(b);
    JoinByte(low, b, 24, 0x100_0000);
  }

  /** A word is the exclusive or of its four bytes in place. */
  lemma JoinBytes(b0: byte, b1: byte, b2: byte, b3: byte)
    ensures Load32(b0, b1, b2, b3) == Xor32(Xor32(Xor32(b0, b1 * 0x100), b2 * 0x1_0000), b3 * 0x100_0000)
  {
    JoinByte8(b0, b1);
    JoinByte16(b0 + b1 * 0x100, b2);
    JoinByte24(b0 + b1 * 0x100 + b2 * 0x1_0000, b3);
  }

  /** A byte that enters after n bits might as well have been there n bits higher from the start. */
  lemma AbsorbByte(x: u32, b: byte, n: nat)
    requires Shl(b, n) < 0x1_0000_0000
    ensures ByteStep(ZeroBits(x, n), b) == ZeroBits(Xor32(x, Shl(b, n)), n + 8)
  {
    ShiftOut(b, n);
    ZeroBitsLinear(x, Shl(b, n), n);
    ZeroBitsAdd(Xor32(x, Shl(b, n)), n, 8);
  }

  /** Four byte steps are thirty-two zero bits on the word they are added into. */
  lemma FourByteSteps(l: u32, b0: byte, b1: byte, b2: byte, b3: byte)
    ensures ByteStep(ByteStep(ByteStep(ByteStep(l, b0), b1), b2), b3)
         == ZeroBits(Xor32(l, Load32(b0, b1, b2, b3)), 32)
  {
    ShlValues(b1);
    ShlValues(b2);
    ShlValues(b3);
    var x0 := Xor32(l, b0);
    var x1 := Xor32(x0, b1 * 0x100);
    var x2 := Xor32(x1, b2 * 0x1_0000);
    AbsorbByte(x0, b1, 8);
    AbsorbByte(x1, b2, 16);
    AbsorbByte(x2, b3, 24);
    JoinBytes(b0, b1, b2, b3);
    XorAssoc(l, b0, b1 * 0x100);
    XorAssoc(l, Xor32(b0, b1 * 0x100), b2 * 0x1_0000);
    XorAssoc(l, Xor32(Xor32(b0, b1 * 0x100), b2 * 0x1_0000), b3 * 0x100_0000);
  }

  /** A byte n bits up takes n zero bits to come down and the rest to go through its table. */
  lemma ByteInPlace(b: byte, n: nat, k: nat, bits: nat)
    requires Shl(b, n) < 0x1_0000_0000 && n + 8 * (k + 1) == bits
    ensures ZeroBits(Shl(b, n), bits) == Table(k, b)
  {
    ShiftOut(b, n);
    ZeroBitsAdd(Shl(b, n), n, 8 * (k + 1));
    TableIsZeroBits(k, b);
  }

  lemma FourTables(c0: byte, c1: byte, c2: byte, c3: byte, n: nat)
    requires n == 32
    ensures ZeroBits(Load32(c0, c1, c2, c3), n)
         == Xor32(Xor32(Xor32(Table(3, c0), Table(2, c1)), Table(1, c2)), Table(0, c3))
  {
    ShlValues(c1);
    ShlValues(c2);
    ShlValues(c3);
    JoinBytes(c0, c1, c2, c3);
    ByteInPlace(c0, 0, 3, n);
    ByteInPlace(c1, 8, 2, n);
    ByteInPlace(c2, 16, 1, n);
    ByteInPlace(c3, 24, 0, n);
    var x1 := Xor32(c0, c1 * 0x100);
    var x2 := Xor32(x1, c2 * 0x1_0000);
    ZeroBitsLinear(c0, c1 * 0x100, n);
    ZeroBitsLinear(x1, c2 * 0x1_0000, n);
    ZeroBitsLinear(x2, c3 * 0x100_0000, n);
  }

  /** The word step refines four bit-by-bit byte steps. */
  lemma Step4IsFourByteSteps(l: u32, b0: byte, b1: byte, b2: byte, b3: byte)
    ensures Step4(l, b0, b1, b2, b3) == ByteStep(ByteStep(ByteStep(ByteStep(l, b0), b1), b2), b3)
  {
    var c := Xor32(l, Load32(b0, b1, b2, b3));
    FourByteSteps(l, b0, b1, b2, b3);
    var c8 := c / 0x100;
    var c16 := c8 / 0x100;
    assert c == Load32(c % 0x100, c8 % 0x100, c16 % 0x100, c16 / 0x100);
    FourTables(c % 0x100, c8 % 0x100, c16 % 0x100, c16 / 0x100, 32);
  }

  // ----- Extend: the alignment prefix, then sixteen, four and one byte at a time -----

  lemma RegisterSnoc(l: u32, data: seq<byte>, p: nat)
    requires p < |data|
    ensures Register(l, data[..p + 1]) == ByteStep(Register(l, data[..p]), data[p])
  {
    assert data[..p + 1][..p] == data[..p];
  }

  lemma RegisterSnoc4(l: u32, data: seq<byte>, p: nat)
    requires p + 4 <= |data|
    ensures Register(l, data[..p + 4])
         == Step4(Register(l, data[..p]), data[p], data[p + 1], data[p + 2], data[p + 3])
  {
    RegisterSnoc(l, data, p);
    RegisterSnoc(l, data, p + 1);
    RegisterSnoc(l, data, p + 2);
    RegisterSnoc(l, data, p + 3);
    Step4IsFourByteSteps(Register(l, data[..p]), data[p], data[p + 1], data[p + 2], data[p + 3]);
  }

  /** Bytes one at a time up to position `to`. */
  method Steps1(data: seq<byte>, l0: u32, from: nat, to: nat, ghost start: u32) returns (l: u32)
    requires from <= to <= |data| && l0 == Register(start, data[..from])
    ensures l == Register(start, data[..to])
  {
    l := l0;
    var p := from;
    while p != to
      invariant from <= p <= to && l == Register(start, data[..p])
    {
      RegisterSnoc(start, data, p);
      Step1IsByteStep(l, data[p]);
      l := Step1(l, data[p]);
      p := p + 1;
    }
  }

  /** STEP4 at position p. */
  method WordStep(data: seq<byte>, l0: u32, p: nat, ghost start: u32) returns (l: u32)
    requires p + 4 <= |data| && l0 == Register(start, data[..p])
    ensures l == Register(start, data[..p + 4])
  {
    RegisterSnoc4(start, data, p);
    l := Step4(l0, data[p], data[p + 1], data[p + 2], data[p + 3]);
  }

  /** Sixteen bytes at a time while there are as many. */
  method Steps16(data: seq<byte>, l0: u32, from: nat, ghost start: u32) returns (l: u32, p: nat)
    requires from <= |data| && l0 == Register(start, data[..from])
    ensures from <= p <= |data| && l == Register(start, data[..p])
  {
    l, p := l0, from;
    while |data| - p >= 16
      invariant from <= p <= |data| && l == Register(start, data[..p])
    {
      l := WordStep(data, l, p, start);
      l := WordStep(data, l, p + 4, start);
      l := WordStep(data, l, p + 8, start);
      l := WordStep(data, l, p + 12, start);
      p := p + 16;
    }
  }

  /** Four bytes at a time while there are as many. */
  method Steps4(data: seq<byte>, l0: u32, from: nat, ghost start: u32) returns (l: u32, p: nat)
    requires from <= |data| && l0 == Register(start, data[..from])
    ensures from <= p <= |data| && l == Register(start, data[..p])
  {
    l, p := l0, from;
    while |data| - p >= 4
      invariant from <= p <= |data| && l == Register(start, data[..p])
    {
      l := WordStep(data, l, p, start);
      p := p + 4;
    }
  }

  /**
   * Extend: `address` is where the data lies in memory. Bytes are taken singly up to the first
   * address that is a multiple of four, when the data reaches that far.
   */
  method Extend(crc: u32, data: seq<byte>, address: nat) returns (r: u32)
    ensures r == Extended(crc, data)
  {
    ghost var start := Xor32(crc, ONES);
    var l := Xor32(crc, ONES);
    var p: nat := 0;
    var x := (address + 3) / 4 * 4 - address;
    assert data[..0] == [];
    if x <= |data| {
      l := Steps1(data, l, p, x, start);
      p := x;
    }
    l, p := Steps16(data, l, p, start);
    l, p := Steps4(data, l, p, start);
    l := Steps1(data, l, p, |data|, start);
    assert data[..|data|] == data;
    r := Xor32(l, ONES);
  }

  // ----- Combine: appending len2 zero bytes by repeated squaring of a matrix -----

  const GF2_DIM := 32

  lemma {:induction false} BitFits(k: nat)
    requires k < GF2_DIM
    ensures Shl(1, k) <= 0x8000_0000
    decreases GF2_DIM - k
  {
    if k < GF2_DIM - 1 {
      BitFits(k + 1);
    } else {
      ShlByte(1, 23);
      ShlByte(1, 15);
      ShlByte(1, 7);
      assert Shl(1, 1) == 2 && Shl(1, 3) == 8 && Shl(1, 5) == 32 && Shl(1, 7) == 128;
    }
  }

  function Bit(k: nat): (r: u32)
    requires k < GF2_DIM
  {
    BitFits(k);
    Shl(1, k)
  }

  /** The columns of a matrix are the images of the single bits under n zero bits. */
  ghost predicate IsOperator(mat: seq<u32>, n: nat)
  {
    |mat| == GF2_DIM && forall k :: 0 <= k < GF2_DIM ==> mat[k] == ZeroBits(Bit(k), n)
  }

  lemma {:induction false} ShlParts(v: nat, k: nat)
    ensures Shl(v, k) == Shl(v % 2, k) + Shl(v / 2, k + 1)
    ensures Shl(v % 2, k) < Pow2(k + 1)
    decreases k
  {
    if k > 0 {
      ShlParts(v, k - 1);
    }
  }

  lemma {:induction false} ShlZero(k: nat)
    ensures Shl(0, k) == 0
    decreases k
  {
    if k > 0 {
      ShlZero(k - 1);
    }
  }

  /** A word with a bit left has it below position 32. */
  lemma {:induction false} BitsLeft(v: nat, k: nat)
    requires 0 < v && GF2_DIM <= k
    ensures 0x1_0000_0000 <= Shl(v, k)
    decreases k
  {
    if k > GF2_DIM {
      BitsLeft(v, k - 1);
    } else {
      ShlValues(v);
      ShlByte(v, 24);
    }
  }

  /** Taking the lowest bit off what is left of a vector takes its column off what is left of the image. */
  lemma TimesStep(mat: seq<u32>, n: nat, vec: nat, k: nat)
    requires IsOperator(mat, n) && k < GF2_DIM && Shl(vec, k) < 0x1_0000_0000
    ensures Shl(vec / 2, k + 1) <= Shl(vec, k)
    ensures ZeroBits(Shl(vec, k), n)
         == Xor32(if vec % 2 == 1 then mat[k] else 0, ZeroBits(Shl(vec / 2, k + 1), n))
  {
    var low, rest := Shl(vec % 2, k), Shl(vec / 2, k + 1);
    ShlParts(vec, k);
    XorJoins(low, vec / 2, k + 1);
    ZeroBitsLinear(low, rest, n);
    ShlZero(k);
    ZeroBitsOfZero(n);
    assert low == if vec % 2 == 1 then Bit(k) else 0;
  }

  /** gf2_matrix_times: the columns of the set bits, added up, are the image of the vector. */
  method MatrixTimes(mat: array<u32>, v: u32, ghost n: nat) returns (sum: u32)
    requires IsOperator(mat[..], n)
    ensures sum == ZeroBits(v, n)
  {
    sum := 0;
    var vec: nat, k: nat := v, 0;
    ghost var image := ZeroBits(v, n);
    XorZero(image);
    while vec != 0
      invariant Shl(vec, k) <= v
      invariant Xor32(sum, ZeroBits(Shl(vec, k), n)) == image
      decreases vec
    {
      if k >= GF2_DIM {
        BitsLeft(vec, k);
      }
      TimesStep(mat[..], n, vec, k);
      ghost var column, rest := if vec % 2 == 1 then mat[k] else 0, ZeroBits(Shl(vec / 2, k + 1), n);
      XorAssoc(sum, column, rest);
      XorZero(sum);
      if vec % 2 == 1 {
        sum := Xor32(sum, mat[k]);
      }
      vec, k := vec / 2, k + 1;
    }
    ShlZero(k);
    ZeroBitsOfZero(n);
    XorZero(sum);
  }

  /** gf2_matrix_square: the operator for twice as many zero bits. */
  method MatrixSquare(square: array<u32>, mat: array<u32>, ghost n: nat)
    requires square.Length == GF2_DIM && square != mat && IsOperator(mat[..], n)
    modifies square
    ensures IsOperator(square[..], 2 * n)
  {
    for k := 0 to GF2_DIM
      invariant forall j :: 0 <= j < k ==> square[j] == ZeroBits(Bit(j), 2 * n)
    {
      ZeroBitsAdd(Bit(k), n, n);
      square[k] := MatrixTimes(mat, mat[k], n);
    }
  }

  lemma ColumnOfOneBit(k: nat)
    requires k < GF2_DIM
    ensures ZeroBits(Bit(k), 1) == if k == 0 then POLY else Bit(k - 1)
  {
    assert ZeroBits(Bit(k), 1) == BitStep(Bit(k));
    XorZero(if k == 0 then POLY else Bit(k - 1));
  }

  /** The operator for one zero bit: the polynomial, then the shifted unit vectors. */
  method OneZeroBit(odd: array<u32>)
    requires odd.Length == GF2_DIM
    modifies odd
    ensures IsOperator(odd[..], 1)
  {
    odd[0] := POLY;
    ColumnOfOneBit(0);
    var row: nat := 1;
    for k := 1 to GF2_DIM
      invariant row == Shl(1, k - 1)
      invariant forall j :: 0 <= j < k ==> odd[j] == ZeroBits(Bit(j), 1)
    {
      BitFits(k - 1);
      ColumnOfOneBit(k);
      odd[k] := row;
      row := 2 * row;
    }
  }

  /** The operator for e zero bits, applied count times. */
  ghost function Repeat(c: u32, e: nat, count: nat): u32
    decreases count
  {
    if count == 0 then c else Repeat(ZeroBits(c, e), e, count - 1)
  }

  lemma {:induction false} RepeatBytes(c: u32, count: nat)
    ensures Repeat(c, 8, count) == ZeroBits(c, 8 * count)
    decreases count
  {
    if count > 0 {
      RepeatBytes(ZeroBits(c, 8), count - 1);
      ZeroBitsAdd(c, 8, 8 * (count - 1));
    }
  }

  /** The lowest bit of a count stands for one application, the others for half as many of twice the size. */
  lemma {:induction false} HalveCount(c: u32, e: nat, half: nat, bit: nat)
    requires bit <= 1
    ensures Repeat(c, e, 2 * half + bit) == Repeat(if bit == 1 then ZeroBits(c, e) else c, 2 * e, half)
    decreases half
  {
    if half > 0 {
      var twice := ZeroBits(c, 2 * e);
      ZeroBitsAdd(c, e, e);
      assert Repeat(c, e, 2 * half + bit) == Repeat(ZeroBits(c, e), e, 2 * half + bit - 1);
      assert Repeat(ZeroBits(c, e), e, 2 * half + bit - 1) == Repeat(twice, e, 2 * (half - 1) + bit);
      HalveCount(twice, e, half - 1, bit);
      ZeroBitsAdd(c, e, 2 * e);
      ZeroBitsAdd(c, 2 * e, e);
    } else if bit == 1 {
      assert Repeat(c, e, 1) == Repeat(ZeroBits(c, e), e, 0);
    }
  }

  /** One bit of len2: square the operator, and apply it when the bit is set. */
  method ApplyBit(square: array<u32>, mat: array<u32>, crc: u32, count: nat, ghost e: nat) returns (r: u32)
    requires square.Length == GF2_DIM && square != mat && IsOperator(mat[..], e)
    modifies square
    ensures IsOperator(square[..], 2 * e)
    ensures Repeat(crc, 2 * e, count) == Repeat(r, 2 * (2 * e), count / 2)
  {
    MatrixSquare(square, mat, e);
    r := crc;
    if count % 2 == 1 {
      r := MatrixTimes(square, crc, 2 * e);
    }
    HalveCount(crc, 2 * e, count / 2, count % 2);
  }

  /** The first checksum moved past as many zero bytes as the second covers, added to the second. */
  function Combined(crc1: u32, crc2: u32, len2: nat): u32
  {
    if len2 == 0 then crc1 else Xor32(ZeroBits(crc1, 8 * len2), crc2)
  }

  /** Combine, whose loop takes two bits of len2 a round and swaps the roles of the two matrices. */
  method Combine(crc1: u32, crc2: u32, len2: u32) returns (r: u32)
    ensures r == Combined(crc1, crc2, len2)
  {
    if len2 == 0 {
      return crc1;
    }
    var even, odd := new u32[GF2_DIM], new u32[GF2_DIM];
    OneZeroBit(odd);
    MatrixSquare(even, odd, 1);
    MatrixSquare(odd, even, 2);
    var crc: u32, count: nat := crc1, len2;
    ghost var e: nat := 4;
    ghost var target := Repeat(crc1, 8, len2);
    RepeatBytes(crc1, len2);
    while true
      invariant IsOperator(odd[..], e) && Repeat(crc, 2 * e, count) == target
      decreases count
    {
      crc := ApplyBit(even, odd, crc, count, e);
      count, e := count / 2, 2 * e;
      if count == 0 {
        break;
      }
      crc := ApplyBit(odd, even, crc, count, e);
      count, e := count / 2, 2 * e;
      if count == 0 {
        break;
      }
    }
    r := Xor32(crc, crc2);
  }

  /** The register is affine: what it held and what enters it contribute separately. */
  lemma {:induction false} RegisterSplits(l: u32, data: seq<byte>)
    ensures Register(l, data) == Xor32(ZeroBits(l, 8 * |data|), Register(0, data))
    decreases |data|
  {
    if data == [] {
      XorZero(l);
    } else {
      var init, b := data[..|data| - 1], data[|data| - 1];
      RegisterSplits(l, init);
      var moved, entered := ZeroBits(l, 8 * |init|), Register(0, init);
      XorAssoc(moved, entered, b);
      ZeroBitsLinear(moved, Xor32(entered, b), 8);
      ZeroBitsAdd(l, 8 * |init|, 8);
    }
  }

  /** Combining the checksums of A and B gives the checksum of AB. */
  lemma CombineIsConcat(a: seq<byte>, b: seq<byte>)
    ensures Combined(Checksum(a), Checksum(b), |b|) == Checksum(a + b)
  {
    if b == [] {
      assert a + b == a;
    } else {
      var n := 8 * |b|;
      var ra := Register(ONES, a);
      XorZero(ONES);
      RegisterConcat(ONES, a, b);
      RegisterSplits(ra, b);
      RegisterSplits(ONES, b);
      ZeroBitsLinear(ra, ONES, n);
      MaskCancels(ZeroBits(ra, n), ZeroBits(ONES, n), Register(0, b));
    }
  }

  /** Combine, given the checksums of A and B and the size of B, finds the checksum of AB. */
  method CombineChecksums(a: seq<byte>, b: seq<byte>) returns (r: u32)
    requires |b| < 0x1_0000_0000
    ensures r == Checksum(a + b)
  {
    r := Combine(Checksum(a), Checksum(b), |b|);
    CombineIsConcat(a, b);
  }

  lemma MaskCancels(za: u32, z1: u32, rb: u32)
    ensures Xor32(Xor32(za, z1), Xor32(Xor32(z1, rb), ONES)) == Xor32(Xor32(za, rb), ONES)
  {
    XorAssoc(Xor32(za, z1), Xor32(z1, rb), ONES);
    XorComm(za, z1);
    XorSwap(z1, za, z1, rb);
    XorSelf(z1);
    XorZero(Xor32(za, rb));
  }
}
