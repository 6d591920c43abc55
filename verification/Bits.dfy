/**
 * Words as bit vectors: the number that one stands for, bit by bit, and the exclusive or of such numbers.
 * The number is also given byte by byte, in a form without recursion.
 */
module Bits {
  import opened Words

  // ----- Bit by bit -----

  function Bit(x: bv64): nat
  {
    if x & 1 == 1 then 1 else 0
  }

  function Half(x: bv64): bv64
  {
    x >> 1
  }

  /** The number that a word stands for. */
  function Val(x: bv64): nat
    decreases x
  {
    if x == 0 then 0 else Bit(x) + 2 * Val(Half(x))
  }

  lemma ValHalf(x: bv64)
    ensures Val(x) == Bit(x) + 2 * Val(Half(x))
  {}

  lemma BitXor(x: bv64, y: bv64)
    ensures Bit(x ^ y) == if Bit(x) == Bit(y) then 0 else 1
  {}

  lemma HalfXor(x: bv64, y: bv64)
    ensures Half(x ^ y) == Half(x) ^ Half(y)
  {}

  lemma HalfLess(x: bv64, y: bv64)
    ensures if x | y == 0 then x == 0 && y == 0 else Half(x) | Half(y) < x | y
  {}

  /** Exclusive or of numbers of which one bit each is given. */
  lemma XorFrom(a: nat, b: nat, x: nat, y: nat, u: nat, v: nat)
    requires a == x + 2 * u && b == y + 2 * v && x <= 1 && y <= 1
    ensures Xor(a, b) == (if x == y then 0 else 1) + 2 * Xor(u, v)
  {
    XorHalves(a, b);
  }

  /** The exclusive or of two words stands for the exclusive or of their numbers. */
  ghost predicate XorsAgree(x: bv64, y: bv64)
  {
    Xor(Val(x), Val(y)) == Val(x ^ y)
  }

  lemma XorsAgreeNext(x: bv64, y: bv64)
    requires XorsAgree(Half(x), Half(y))
    ensures XorsAgree(x, y)
  {
    BitXor(x, y);
    HalfXor(x, y);
    ValHalf(x);
    ValHalf(y);
    ValHalf(x ^ y);
    XorFrom(Val(x), Val(y), Bit(x), Bit(y), Val(Half(x)), Val(Half(y)));
  }

  lemma XorsAgreeAtZero(x: bv64, y: bv64)
    requires x == 0 && y == 0
    ensures XorsAgree(x, y)
  {}

  lemma {:induction false} ValXor(x: bv64, y: bv64)
    ensures XorsAgree(x, y)
    decreases x | y
  {
    HalfLess(x, y);
    if x | y == 0 {
      XorsAgreeAtZero(x, y);
    } else {
      ValXor(Half(x), Half(y));
      XorsAgreeNext(x, y);
    }
  }

  // ----- Byte by byte -----

  function Nat(b: bv8): (n: nat)
    ensures n < 256
  {
    b as nat
  }

  function Byte0(x: bv32): bv8 { (x & 0xff) as bv8 }

  function Byte1(x: bv32): bv8 { ((x >> 8) & 0xff) as bv8 }

  function Byte2(x: bv32): bv8 { ((x >> 16) & 0xff) as bv8 }

  function Byte3(x: bv32): bv8 { (x >> 24) as bv8 }

  function Word32(x: bv32): u32
  {
    Nat(Byte0(x)) + 0x100 * (Nat(Byte1(x)) + 0x100 * (Nat(Byte2(x)) + 0x100 * Nat(Byte3(x))))
  }

  function LowHalf(x: bv64): bv32 { (x & 0xffff_ffff) as bv32 }

  function HighHalf(x: bv64): bv32 { (x >> 32) as bv32 }

  /** The number of a word by its bytes. */
  function Long(x: bv64): u64
  {
    Word32(LowHalf(x)) + 0x1_0000_0000 * Word32(HighHalf(x))
  }

  /** The half of a byte that a bit is carried into. */
  function CarriedByte(b: bv8, c: bv8): bv8
  {
    (b >> 1) | (c << 7)
  }

  function ByteBit(b: bv8): nat
  {
    if b & 1 == 1 then 1 else 0
  }

  lemma ByteHalf(b: bv8, c: bv8)
    ensures ByteBit(b) + 2 * Nat(CarriedByte(b, c)) == Nat(b) + 0x100 * ByteBit(c)
  {}

  /** The half of a word that a bit is carried into. */
  function CarriedWord(x: bv32, c: bv32): bv32
  {
    (x >> 1) | (c << 31)
  }

  lemma CarriedBytes(x: bv32, c: bv32)
    ensures Byte0(CarriedWord(x, c)) == CarriedByte(Byte0(x), Byte1(x))
    ensures Byte1(CarriedWord(x, c)) == CarriedByte(Byte1(x), Byte2(x))
    ensures Byte2(CarriedWord(x, c)) == CarriedByte(Byte2(x), Byte3(x))
    ensures Byte3(CarriedWord(x, c)) == CarriedByte(Byte3(x), Byte0(c))
  {}

  lemma Word32Half(x: bv32, c: bv32)
    ensures ByteBit(Byte0(x)) + 2 * Word32(CarriedWord(x, c)) == Word32(x) + 0x1_0000_0000 * ByteBit(Byte0(c))
  {
    CarriedBytes(x, c);
    ByteHalf(Byte0(x), Byte1(x));
    ByteHalf(Byte1(x), Byte2(x));
    ByteHalf(Byte2(x), Byte3(x));
    ByteHalf(Byte3(x), Byte0(c));
  }

  lemma CarriedHalves(x: bv64)
    ensures LowHalf(Half(x)) == CarriedWord(LowHalf(x), HighHalf(x))
    ensures HighHalf(Half(x)) == CarriedWord(HighHalf(x), 0)
    ensures ByteBit(Byte0(LowHalf(x))) == Bit(x) && ByteBit(Byte0(0)) == 0
  {}

  lemma LongHalf(x: bv64)
    ensures Long(x) == Bit(x) + 2 * Long(Half(x))
  {
    CarriedHalves(x);
    Word32Half(LowHalf(x), HighHalf(x));
    Word32Half(HighHalf(x), 0);
  }

  lemma LongOfZero(x: bv64)
    requires x == 0
    ensures Long(x) == 0
  {}

  lemma {:induction false} ValIsLong(x: bv64)
    ensures Val(x) == Long(x)
    decreases x
  {
    HalfLess(x, x);
    if x == 0 {
      LongOfZero(x);
    } else {
      ValIsLong(Half(x));
      LongHalf(x);
    }
  }

  // ----- In one expression -----

  function Low(x: bv64): bv16
  {
    (x & 0xffff) as bv16
  }

  function Nat16(y: bv16): (n: nat)
    ensures n < 0x1_0000
  {
    y as nat
  }

  /** The same number, in the form that a given word is read in. */
  function Number(x: bv64): u64
  {
    Nat16(Low(x))
    + 0x1_0000 * (Nat16(Low(x >> 16)) + 0x1_0000 * (Nat16(Low(x >> 32)) + 0x1_0000 * Nat16(Low(x >> 48))))
  }

  function Lower(y: bv16): bv8 { (y & 0xff) as bv8 }

  function Upper(y: bv16): bv8 { (y >> 8) as bv8 }

  lemma TwoBytes(y: bv16)
    ensures Nat16(y) == Nat(Lower(y)) + 0x100 * Nat(Upper(y))
  {}

  lemma LowBytes(x: bv64)
    ensures Lower(Low(x)) == Byte0(LowHalf(x)) && Upper(Low(x)) == Byte1(LowHalf(x))
    ensures Lower(Low(x >> 16)) == Byte2(LowHalf(x)) && Upper(Low(x >> 16)) == Byte3(LowHalf(x))
  {}

  lemma HighBytes(x: bv64)
    ensures Lower(Low(x >> 32)) == Byte0(HighHalf(x)) && Upper(Low(x >> 32)) == Byte1(HighHalf(x))
    ensures Lower(Low(x >> 48)) == Byte2(HighHalf(x)) && Upper(Low(x >> 48)) == Byte3(HighHalf(x))
  {}

  lemma NumberIs(x: bv64)
    ensures Number(x) == Val(x)
  {
    ValIsLong(x);
    LowBytes(x);
    HighBytes(x);
    TwoBytes(Low(x));
    TwoBytes(Low(x >> 16));
    TwoBytes(Low(x >> 32));
    TwoBytes(Low(x >> 48));
  }
}
