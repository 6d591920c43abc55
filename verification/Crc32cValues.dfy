/**
 * Values of CRC-32C that are published, and the polynomial that they come from. The shift register is followed
 * on bit vectors, which stand for the words of the checksum.
 */
module Crc32cValues {
  import opened Bytes
  import opened Words
  import opened Bits
  import opened Crc32c

  // ----- The polynomial -----

  /** The generator polynomial in section 12.1 of RFC 3720, by its exponents, but for the leading 32. */
  predicate HasTerm(exponent: nat)
  {
    exponent in {28, 27, 26, 25, 23, 22, 20, 19, 18, 14, 13, 11, 10, 9, 8, 6, 0}
  }

  /** Its coefficients below an exponent as the bits of a word, the highest in the lowest bit. */
  function Reversed(n: nat): nat
  {
    if n == 0 then 0 else 2 * Reversed(n - 1) + if HasTerm(n - 1) then 1 else 0
  }

  lemma FourMore(n: nat, digit: nat, r: nat)
    requires Reversed(n) == r && digit == (if HasTerm(n) then 8 else 0) + (if HasTerm(n + 1) then 4 else 0)
                                          + (if HasTerm(n + 2) then 2 else 0) + if HasTerm(n + 3) then 1 else 0
    ensures Reversed(n + 4) == 16 * r + digit
  {
    assert Reversed(n + 2) == 2 * Reversed(n + 1) + if HasTerm(n + 1) then 1 else 0;
  }

  lemma LowTerms(n: nat)
    requires n == 0
    ensures Reversed(n + 16) == 0x82f6
  {
    FourMore(n, 0x8, 0);
    FourMore(n + 4, 0x2, 0x8);
    FourMore(n + 8, 0xf, 0x82);
    FourMore(n + 12, 0x6, 0x82f);
  }

  lemma HighTerms(n: nat)
    requires n == 16 && Reversed(n) == 0x82f6
    ensures Reversed(n + 16) == 0x82f63b78
  {
    FourMore(n, 0x3, 0x82f6);
    FourMore(n + 4, 0xb, 0x82f63);
    FourMore(n + 8, 0x7, 0x82f63b);
    FourMore(n + 12, 0x8, 0x82f63b7);
  }

  lemma AllTerms(low: nat, middle: nat, n: nat)
    requires low == 0 && middle == low + 16 && n == middle + 16
    ensures Reversed(n) == POLY
  {
    LowTerms(low);
    HighTerms(middle);
  }

  /** The word of the checksum's shift register is that polynomial. */
  lemma PolyIsCastagnoli()
    ensures Reversed(32) == POLY
  {
    AllTerms(0, 16, 32);
  }

  // ----- The register on bit vectors -----

  function Shifted(x: bv32): bv32
  {
    x >> 1
  }

  function FeedbackOf(x: bv32): bv32
  {
    if x & 1 == 1 then 0x82f63b78 else 0
  }

  function BitStepOf(x: bv32): bv32
  {
    Shifted(x) ^ FeedbackOf(x)
  }

  function BitStepsOf(x: bv32, n: nat): bv32
  {
    if n == 0 then x else BitStepOf(BitStepsOf(x, n - 1))
  }

  function ByteStepOf(x: bv32): bv32
  {
    BitStepOf(BitStepOf(BitStepOf(BitStepOf(BitStepOf(BitStepOf(BitStepOf(BitStepOf(x))))))))
  }

  function Wide(x: bv32): bv64
  {
    x as bv64
  }

  lemma WideIs(x: bv32, y: bv32)
    ensures Wide(x ^ y) == Wide(x) ^ Wide(y) && HighHalf(Wide(x)) == 0 && LowHalf(Wide(x)) == x
  {}

  /** The word of the register that a bit vector stands for. */
  function Register32(x: bv32): u32
  {
    ValIsLong(Wide(x));
    WideIs(x, 0);
    Val(Wide(x))
  }

  lemma Literal(x: bv32)
    ensures Register32(x) == Word32(x)
  {
    ValIsLong(Wide(x));
    WideIs(x, 0);
  }

  lemma RegisterXor(x: bv32, y: bv32)
    ensures Xor32(Register32(x), Register32(y)) == Register32(x ^ y)
  {
    ValXor(Wide(x), Wide(y));
    WideIs(x, y);
  }

  lemma WideHalf(x: bv32)
    ensures Half(Wide(x)) == Wide(Shifted(x)) && (Bits.Bit(Wide(x)) == 1 <==> x & 1 == 1)
  {}

  lemma Constants()
    ensures Register32(0) == 0 && Register32(0x82f63b78) == POLY && Register32(0xffffffff) == ONES
  {
    Literal(0x82f63b78);
    Literal(0xffffffff);
  }

  lemma FeedbackIs(x: bv32)
    ensures Feedback(Register32(x)) == Register32(FeedbackOf(x)) && Register32(x) / 2 == Register32(Shifted(x))
  {
    Constants();
    WideHalf(x);
    ValHalf(Wide(x));
  }

  /** A bit vector that is a step further. */
  ghost predicate StepsTo(l: u32, y: bv32)
  {
    BitStep(l) == Register32(y)
  }

  lemma StepsToXor(l: u32, y: bv32, z: bv32)
    requires l / 2 == Register32(y) && Feedback(l) == Register32(z)
    ensures StepsTo(l, y ^ z)
  {
    RegisterXor(y, z);
  }

  lemma BitStepIs(x: bv32)
    ensures BitStep(Register32(x)) == Register32(BitStepOf(x))
  {
    FeedbackIs(x);
    StepsToXor(Register32(x), Shifted(x), FeedbackOf(x));
  }

  lemma {:induction false} BitStepsAre(x: bv32, n: nat)
    ensures ZeroBits(Register32(x), n) == Register32(BitStepsOf(x, n))
    decreases n
  {
    if n > 0 {
      BitStepsAre(x, n - 1);
      BitStepIs(BitStepsOf(x, n - 1));
    }
  }

  lemma NextBit(x: bv32, n: nat)
    ensures BitStepsOf(x, n + 1) == BitStepOf(BitStepsOf(x, n))
  {}

  lemma EightBitSteps(x: bv32, n: nat)
    requires n == 0
    ensures BitStepsOf(x, n + 8) == ByteStepOf(x)
  {
    NextBit(x, n);
    NextBit(x, n + 1);
    NextBit(x, n + 2);
    NextBit(x, n + 3);
    NextBit(x, n + 4);
    NextBit(x, n + 5);
    NextBit(x, n + 6);
    NextBit(x, n + 7);
  }

  lemma ByteStepIs(x: bv32, b: bv32)
    requires Register32(b) < 256
    ensures ByteStep(Register32(x), Register32(b)) == Register32(ByteStepOf(x ^ b))
  {
    RegisterXor(x, b);
    EightBitSteps(x ^ b, 0);
    BitStepsAre(x ^ b, 8);
  }

  /** What a step function makes of some bytes, one after another. */
  function Fold<W, B>(step: (W, B) -> W, w: W, bytes: seq<B>): W
    decreases |bytes|
  {
    if bytes == [] then w else step(Fold(step, w, bytes[..|bytes| - 1]), bytes[|bytes| - 1])
  }

  lemma FoldNext<W, B>(step: (W, B) -> W, w: W, bytes: seq<B>, n: nat)
    requires n < |bytes|
    ensures Fold(step, w, bytes[..n + 1]) == step(Fold(step, w, bytes[..n]), bytes[n])
  {
    assert bytes[..n + 1][..n] == bytes[..n];
  }

  lemma FoldNone<W, B>(step: (W, B) -> W, w: W, bytes: seq<B>)
    ensures Fold(step, w, bytes[..0]) == w
  {}

  lemma FoldStep<W, B>(step: (W, B) -> W, w: W, bytes: seq<B>, n: nat, before: W, after: W)
    requires n < |bytes| && Fold(step, w, bytes[..n]) == before && step(before, bytes[n]) == after
    ensures Fold(step, w, bytes[..n + 1]) == after
  {
    FoldNext(step, w, bytes, n);
  }

  /** Eight bytes, with the words between them. */
  lemma FoldEight<W, B>(step: (W, B) -> W, w: W, bytes: seq<B>, n: nat, w0: W, w1: W, w2: W, w3: W, w4: W, w5: W, w6: W,
                        w7: W, w8: W)
    requires n + 8 <= |bytes| && Fold(step, w, bytes[..n]) == w0
    requires step(w0, bytes[n]) == w1 && step(w1, bytes[n + 1]) == w2 && step(w2, bytes[n + 2]) == w3
    requires step(w3, bytes[n + 3]) == w4 && step(w4, bytes[n + 4]) == w5 && step(w5, bytes[n + 5]) == w6
    requires step(w6, bytes[n + 6]) == w7 && step(w7, bytes[n + 7]) == w8
    ensures Fold(step, w, bytes[..n + 8]) == w8
  {
    FoldStep(step, w, bytes, n, w0, w1);
    FoldStep(step, w, bytes, n + 1, w1, w2);
    FoldStep(step, w, bytes, n + 2, w2, w3);
    FoldStep(step, w, bytes, n + 3, w3, w4);
    FoldStep(step, w, bytes, n + 4, w4, w5);
    FoldStep(step, w, bytes, n + 5, w5, w6);
    FoldStep(step, w, bytes, n + 6, w6, w7);
    FoldStep(step, w, bytes, n + 7, w7, w8);
  }

  /** One byte. */
  function Step(x: bv32, b: bv32): bv32
  {
    ByteStepOf(x ^ b)
  }

  lemma {:induction false} RegisterIs(x: bv32, bytes: seq<bv32>, data: seq<byte>)
    requires |bytes| == |data| && forall i :: 0 <= i < |data| ==> data[i] == Register32(bytes[i])
    ensures Register(Register32(x), data) == Register32(Fold(Step, x, bytes))
    decreases |data|
  {
    if data != [] {
      var n := |data| - 1;
      RegisterIs(x, bytes[..n], data[..n]);
      ByteStepIs(Fold(Step, x, bytes[..n]), bytes[n]);
    }
  }

  /** The checksum of a string, by the word that its bytes lead to. */
  lemma ChecksumFrom(bytes: seq<bv32>, data: seq<byte>, last: bv32)
    requires |bytes| == |data| && forall i :: 0 <= i < |data| ==> data[i] == Register32(bytes[i])
    requires Fold(Step, 0xffffffff, bytes) == last
    ensures Checksum(data) == Register32(last ^ 0xffffffff)
  {
    Constants();
    XorZero(ONES);
    RegisterIs(0xffffffff, bytes, data);
    RegisterXor(last, 0xffffffff);
  }

  // ----- Values -----

  lemma DigitSteps()
    ensures Step(0xffffffff, 0x31) == 0x6f0a661c
    ensures Step(0x6f0a661c, 0x32) == 0x8caa3b9f
    ensures Step(0x8caa3b9f, 0x33) == 0xef84d04d
    ensures Step(0xef84d04d, 0x34) == 0x09c50b11
    ensures Step(0x09c50b11, 0x35) == 0xe72edcca
    ensures Step(0xe72edcca, 0x36) == 0xbeca8e79
    ensures Step(0xbeca8e79, 0x37) == 0xedbd6815
    ensures Step(0xedbd6815, 0x38) == 0x9f787f65
    ensures Step(0x9f787f65, 0x39) == 0x1cf96d7c
  {}

  ghost predicate AreDigits(bytes: seq<bv32>)
  {
    && |bytes| == 9 && bytes[0] == 0x31 && bytes[1] == 0x32 && bytes[2] == 0x33 && bytes[3] == 0x34
    && bytes[4] == 0x35 && bytes[5] == 0x36 && bytes[6] == 0x37 && bytes[7] == 0x38 && bytes[8] == 0x39
  }

  lemma EightDigitsFold(bytes: seq<bv32>)
    requires AreDigits(bytes)
    ensures Fold(Step, 0xffffffff, bytes[..8]) == 0x9f787f65
  {
    FoldNone(Step, 0xffffffff, bytes);
    DigitSteps();
    FoldEight(Step, 0xffffffff, bytes, 0, 0xffffffff, 0x6f0a661c, 0x8caa3b9f, 0xef84d04d, 0x09c50b11,
              0xe72edcca, 0xbeca8e79, 0xedbd6815, 0x9f787f65);
  }

  lemma DigitsFold(bytes: seq<bv32>)
    requires AreDigits(bytes)
    ensures Fold(Step, 0xffffffff, bytes) == 0x1cf96d7c
  {
    assert bytes[..9] == bytes;
    EightDigitsFold(bytes);
    DigitSteps();
    FoldStep(Step, 0xffffffff, bytes, 8, 0x9f787f65, 0x1cf96d7c);
  }

  lemma ZeroSteps1()
    ensures Step(0xffffffff, 0) == 0xad82acae
    ensures Step(0xad82acae, 0) == 0x0e9e882d
    ensures Step(0x0e9e882d, 0) == 0x9f9b5c85
    ensures Step(0x9f9b5c85, 0) == 0xb798b438
    ensures Step(0xb798b438, 0) == 0xba8d89ca
    ensures Step(0xba8d89ca, 0) == 0xa8d58375
    ensures Step(0xa8d58375, 0) == 0x44c19592
    ensures Step(0x44c19592, 0) == 0x73d74d75
  {}

  lemma ZeroSteps2()
    ensures Step(0x73d74d75, 0) == 0x441a975c
    ensures Step(0x441a975c, 0) == 0x1c220f94
    ensures Step(0x1c220f94, 0) == 0x552e4907
    ensures Step(0x552e4907, 0) == 0xd49f4aa2
    ensures Step(0xd49f4aa2, 0) == 0x43a45a1b
    ensures Step(0x43a45a1b, 0) == 0x8994c80e
    ensures Step(0x8994c80e, 0) == 0xacf12bef
    ensures Step(0xacf12bef, 0) == 0xbd8f6515
  {}

  lemma ZeroSteps3()
    ensures Step(0xbd8f6515, 0) == 0x25125c16
    ensures Step(0x25125c16, 0) == 0x36da32db
    ensures Step(0x36da32db, 0) == 0x4a6c90a2
    ensures Step(0x4a6c90a2, 0) == 0x433aa9c1
    ensures Step(0x433aa9c1, 0) == 0x31a59f6e
    ensures Step(0x31a59f6e, 0) == 0xcd8f89da
    ensures Step(0xcd8f89da, 0) == 0xb8fc461a
    ensures Step(0xb8fc461a, 0) == 0x7b041311
  {}

  lemma ZeroSteps4()
    ensures Step(0x7b041311, 0) == 0xe24e407f
    ensures Step(0xe24e407f, 0) == 0x2f692669
    ensures Step(0x2f692669, 0) == 0x195b2188
    ensures Step(0x195b2188, 0) == 0x08363896
    ensures Step(0x08363896, 0) == 0xb4012dc7
    ensures Step(0xb4012dc7, 0) == 0x17f34302
    ensures Step(0x17f34302, 0) == 0xe12c83b4
    ensures Step(0xe12c83b4, 0) == 0x756ec955
  {}

  lemma ZerosFold1(bytes: seq<bv32>)
    requires |bytes| == 32 && forall i :: 0 <= i < 32 ==> bytes[i] == 0
    ensures Fold(Step, 0xffffffff, bytes[..8]) == 0x73d74d75
  {
    FoldNone(Step, 0xffffffff, bytes);
    ZeroSteps1();
    FoldEight(Step, 0xffffffff, bytes, 0, 0xffffffff, 0xad82acae, 0x0e9e882d, 0x9f9b5c85, 0xb798b438,
              0xba8d89ca, 0xa8d58375, 0x44c19592, 0x73d74d75);
  }

  lemma ZerosFold2(bytes: seq<bv32>)
    requires |bytes| == 32 && forall i :: 0 <= i < 32 ==> bytes[i] == 0
    ensures Fold(Step, 0xffffffff, bytes[..16]) == 0xbd8f6515
  {
    ZerosFold1(bytes);
    ZeroSteps2();
    FoldEight(Step, 0xffffffff, bytes, 8, 0x73d74d75, 0x441a975c, 0x1c220f94, 0x552e4907, 0xd49f4aa2,
              0x43a45a1b, 0x8994c80e, 0xacf12bef, 0xbd8f6515);
  }

  lemma ZerosFold3(bytes: seq<bv32>)
    requires |bytes| == 32 && forall i :: 0 <= i < 32 ==> bytes[i] == 0
    ensures Fold(Step, 0xffffffff, bytes[..24]) == 0x7b041311
  {
    ZerosFold2(bytes);
    ZeroSteps3();
    FoldEight(Step, 0xffffffff, bytes, 16, 0xbd8f6515, 0x25125c16, 0x36da32db, 0x4a6c90a2, 0x433aa9c1,
              0x31a59f6e, 0xcd8f89da, 0xb8fc461a, 0x7b041311);
  }

  lemma ZerosFold4(bytes: seq<bv32>)
    requires |bytes| == 32 && forall i :: 0 <= i < 32 ==> bytes[i] == 0
    ensures Fold(Step, 0xffffffff, bytes[..32]) == 0x756ec955
  {
    ZerosFold3(bytes);
    ZeroSteps4();
    FoldEight(Step, 0xffffffff, bytes, 24, 0x7b041311, 0xe24e407f, 0x2f692669, 0x195b2188, 0x08363896,
              0xb4012dc7, 0x17f34302, 0xe12c83b4, 0x756ec955);
  }

  /** The checksum of the digits 1 to 9 in ASCII. */
  lemma ChecksumOfDigits(data: seq<byte>)
    requires data == [0x31, 0x32, 0x33, 0x34, 0x35, 0x36, 0x37, 0x38, 0x39]
    ensures Checksum(data) == 0xe3069283
  {
    var bytes: seq<bv32> := [0x31, 0x32, 0x33, 0x34, 0x35, 0x36, 0x37, 0x38, 0x39];
    DigitsFold(bytes);
    forall i | 0 <= i < 9
      ensures data[i] == Register32(bytes[i])
    {
      Literal(bytes[i]);
    }
    Literal(0xe3069283);
    ChecksumFrom(bytes, data, 0x1cf96d7c);
  }

  /** The checksum of 32 zero bytes, as in section B.4 of RFC 3720. */
  lemma ChecksumOfZeros(data: seq<byte>)
    requires |data| == 32 && forall i :: 0 <= i < 32 ==> data[i] == 0
    ensures Checksum(data) == 0x8a9136aa
  {
    var bytes := seq(32, _ => 0 as bv32);
    assert bytes[..32] == bytes;
    ZerosFold4(bytes);
    Literal(0);
    Literal(0x8a9136aa);
    ChecksumFrom(bytes, data, 0x756ec955);
  }

  /** The start of the first table. */
  lemma TableStarts()
    ensures Table(0, 0) == 0 && Table(0, 1) == 0xf26b8303
  {
    EightBitSteps(1, 0);
    BitStepsAre(1, 8);
    Literal(1);
    Literal(0xf26b8303);
    ZeroBitsOfZero(8);
  }
}
