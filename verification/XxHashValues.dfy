/**
 * Values of XXH64 that are published, which between them take every branch of the hash. Its words are followed on
 * bit vectors, which stand for them.
 */
module XxHashValues {
  import opened Bytes
  import opened Words
  import opened Bits
  import opened XxHash

  // ----- Rotation -----

  lemma {:induction false} ShlIs(x: nat, n: nat)
    ensures Shl(x, n) == x * Pow2(n)
    decreases n
  {
    if n > 0 {
      ShlIs(x, n - 1);
    }
  }

  lemma {:induction false} ShrIs(x: nat, n: nat)
    ensures Shr(x, n) == x / Pow2(n)
    decreases n
  {
    if n > 0 {
      ShrIs(x / 2, n - 1);
      HalfFirst(x, Pow2(n - 1));
    }
  }

  lemma HalfFirst(x: nat, p: nat)
    requires 1 <= p
    ensures x / 2 / p == x / (2 * p)
  {
    var q, r := x / (2 * p), x % (2 * p);
    assert x == q * (2 * p) + r;
    assert x / 2 == q * p + r / 2;
    QuotientIs(x / 2, p, q, r / 2);
  }

  lemma QuotientIs(x: nat, p: nat, q: nat, r: nat)
    requires x == q * p + r && r < p
    ensures x / p == q && x % p == r
  {
    var d := x / p;
    assert d < q ==> (d + 1) * p <= q * p;
    assert q < d ==> (q + 1) * p <= d * p;
  }

  lemma {:induction false} Pow2Sum(m: nat, n: nat)
    ensures Pow2(m + n) == Pow2(m) * Pow2(n)
    decreases n
  {
    if n > 0 {
      Pow2Sum(m, n - 1);
    }
  }

  /** The parts of a word trade places. */
  lemma PartsTrade(x: nat, p: nat, q: nat, high: nat, low: nat)
    requires p * q == TWO64 && high < p && low < q && x == high * q + low
    ensures (x * p + high) % TWO64 == low * p + high
  {
    assert x * p == high * (p * q) + low * p;
    assert low * p + high < (low + 1) * p <= q * p;
    QuotientIs(x * p + high, TWO64, high, low * p + high);
  }

  lemma WordTurns(x: u64, p: nat, q: nat)
    requires p * q == TWO64 && 1 <= q
    ensures (x * p + x / q) % TWO64 == x % q * p + x / q
  {
    var high, low := x / q, x % q;
    assert x == high * q + low;
    assert p <= high ==> p * q <= high * q;
    PartsTrade(x, p, q, high, low);
  }

  lemma Powers(r: nat)
    requires r <= 64
    ensures Pow2(r) * Pow2(64 - r) == TWO64
  {
    Pow2Of64();
    Pow2Sum(r, 64 - r);
  }

  lemma RotlFrom(x: u64, r: nat, p: nat, q: nat)
    requires r <= 64 && 1 <= q && p * q == TWO64 && Shl(x, r) == x * p && Shr(x, 64 - r) == x / q
    ensures Rotl(x, r) == x % q * p + x / q
  {
    WordTurns(x, p, q);
  }

  /** Rotation moves the high bits of a word below its low ones. */
  lemma RotlIs(x: u64, r: nat)
    requires r <= 64
    ensures Rotl(x, r) == x % Pow2(64 - r) * Pow2(r) + x / Pow2(64 - r)
  {
    Powers(r);
    ShlIs(x, r);
    ShrIs(x, 64 - r);
    RotlFrom(x, r, Pow2(r), Pow2(64 - r));
  }

  /** Rotation, with the powers of two given. */
  function Turned(x: nat, p: nat, q: nat): nat
    requires 0 < q
  {
    x % q * p + x / q
  }

  lemma PowersInUse()
    ensures Pow2(1) == 2 && Pow2(63) == 0x8000_0000_0000_0000 && Pow2(7) == 0x80 && Pow2(57) == 0x200_0000_0000_0000
    ensures Pow2(11) == 0x800 && Pow2(53) == 0x20_0000_0000_0000
    ensures Pow2(12) == 0x1000 && Pow2(52) == 0x10_0000_0000_0000
    ensures Pow2(18) == 0x4_0000 && Pow2(46) == 0x4000_0000_0000 && Pow2(23) == 0x80_0000 && Pow2(41) == 0x200_0000_0000
    ensures Pow2(27) == 0x800_0000 && Pow2(37) == 0x20_0000_0000 && Pow2(31) == 0x8000_0000 && Pow2(33) == 0x2_0000_0000
    ensures Pow2(29) == 0x2000_0000 && Pow2(32) == 0x1_0000_0000
  {
    assert Pow2(4) == 0x10 && Pow2(8) == 0x100 && Pow2(12) == 0x1000 && Pow2(16) == 0x1_0000 && Pow2(20) == 0x10_0000;
    assert Pow2(24) == 0x100_0000 && Pow2(28) == 0x1000_0000 && Pow2(32) == 0x1_0000_0000;
    assert Pow2(36) == 0x10_0000_0000 && Pow2(40) == 0x100_0000_0000 && Pow2(44) == 0x1000_0000_0000;
    assert Pow2(48) == 0x1_0000_0000_0000 && Pow2(52) == 0x10_0000_0000_0000 && Pow2(56) == 0x100_0000_0000_0000;
    assert Pow2(60) == 0x1000_0000_0000_0000;
  }

  lemma RotlBy1(x: u64)
    ensures Rotl(x, 1) == Turned(x, 2, 0x8000_0000_0000_0000)
  {
    PowersInUse();
    RotlIs(x, 1);
  }

  lemma RotlBy7(x: u64)
    ensures Rotl(x, 7) == Turned(x, 0x80, 0x200_0000_0000_0000)
  {
    PowersInUse();
    RotlIs(x, 7);
  }

  lemma RotlBy11(x: u64)
    ensures Rotl(x, 11) == Turned(x, 0x800, 0x20_0000_0000_0000)
  {
    PowersInUse();
    RotlIs(x, 11);
  }

  lemma RotlBy12(x: u64)
    ensures Rotl(x, 12) == Turned(x, 0x1000, 0x10_0000_0000_0000)
  {
    PowersInUse();
    RotlIs(x, 12);
  }

  lemma RotlBy18(x: u64)
    ensures Rotl(x, 18) == Turned(x, 0x4_0000, 0x4000_0000_0000)
  {
    PowersInUse();
    RotlIs(x, 18);
  }

  lemma RotlBy23(x: u64)
    ensures Rotl(x, 23) == Turned(x, 0x80_0000, 0x200_0000_0000)
  {
    PowersInUse();
    RotlIs(x, 23);
  }

  lemma RotlBy27(x: u64)
    ensures Rotl(x, 27) == Turned(x, 0x800_0000, 0x20_0000_0000)
  {
    PowersInUse();
    RotlIs(x, 27);
  }

  lemma RotlBy31(x: u64)
    ensures Rotl(x, 31) == Turned(x, 0x8000_0000, 0x2_0000_0000)
  {
    PowersInUse();
    RotlIs(x, 31);
  }

  lemma Shifts(x: u64)
    ensures Shr(x, 29) == x / 0x2000_0000 && Shr(x, 32) == x / 0x1_0000_0000 && Shr(x, 33) == x / 0x2_0000_0000
  {
    PowersInUse();
    ShrIs(x, 29);
    ShrIs(x, 32);
    ShrIs(x, 33);
  }

  // ----- The mixing functions on given words -----

  /** The number that a given word stands for. */
  function Raw(x: bv64): u64
  {
    x as nat
  }

  /** For a given word that is easily seen to be the same. */
  ghost predicate Plain(x: bv64)
  {
    Raw(x) == Number(x)
  }

  lemma RawXor(x: bv64, y: bv64)
    requires Plain(x) && Plain(y) && Plain(x ^ y)
    ensures Xor64(Raw(x), Raw(y)) == Raw(x ^ y)
  {
    ValXor(x, y);
    NumberIs(x);
    NumberIs(y);
    NumberIs(x ^ y);
  }

  /** One byte, with the words on the way. */
  lemma Mix1Is(h: bv64, b: byte, k: bv64, r: bv64, m: bv64)
    requires Mul(b, PRIME64_5) == Raw(k) && Turned(Raw(h ^ k), 0x800, 0x20_0000_0000_0000) == Raw(r)
    requires Mul(Raw(r), PRIME64_1) == Raw(m)
    requires Plain(h) && Plain(k) && Plain(h ^ k)
    ensures Mix1(Raw(h), b) == Raw(m)
  {
    RawXor(h, k);
    RotlBy11(Raw(h ^ k));
  }

  /** Four bytes. */
  lemma Mix4Is(h: bv64, s: seq<byte>, w: bv64, k: bv64, r: bv64, u: bv64, m: bv64)
    requires Read(s) == Raw(w) && Mul(Raw(w), PRIME64_1) == Raw(k)
    requires Turned(Raw(h ^ k), 0x80_0000, 0x200_0000_0000) == Raw(r)
    requires Mul(Raw(r), PRIME64_2) == Raw(u) && Add(Raw(u), PRIME64_3) == Raw(m)
    requires Plain(h) && Plain(k) && Plain(h ^ k)
    ensures Mix4(Raw(h), s) == Raw(m)
  {
    RawXor(h, k);
    RotlBy23(Raw(h ^ k));
  }

  /** Eight bytes. */
  lemma Mix8Is(h: bv64, s: seq<byte>, w: bv64, a: bv64, b: bv64, k: bv64, r: bv64, u: bv64, m: bv64)
    requires Read(s) == Raw(w) && Mul(Raw(w), PRIME64_2) == Raw(a)
    requires Turned(Raw(a), 0x8000_0000, 0x2_0000_0000) == Raw(b) && Mul(Raw(b), PRIME64_1) == Raw(k)
    requires Turned(Raw(h ^ k), 0x800_0000, 0x20_0000_0000) == Raw(r)
    requires Mul(Raw(r), PRIME64_1) == Raw(u) && Add(Raw(u), PRIME64_4) == Raw(m)
    requires Plain(h) && Plain(k) && Plain(h ^ k)
    ensures Mix8(Raw(h), s) == Raw(m)
  {
    RotlBy31(Raw(a));
    RawXor(h, k);
    RotlBy27(Raw(h ^ k));
  }

  /** One lane of a stripe. */
  lemma RoundIs(v: bv64, w: bv64, u: bv64, a: bv64, r: bv64, m: bv64)
    requires Mul(Raw(w), PRIME64_2) == Raw(u) && Add(Raw(v), Raw(u)) == Raw(a)
    requires Turned(Raw(a), 0x8000_0000, 0x2_0000_0000) == Raw(r) && Mul(Raw(r), PRIME64_1) == Raw(m)
    ensures Round(Raw(v), Raw(w)) == Raw(m)
  {
    RotlBy31(Raw(a));
  }

  /** One lane merged into the hash. */
  lemma MergeLaneIs(h: bv64, v: bv64, a: bv64, b: bv64, k: bv64, u: bv64, m: bv64)
    requires Mul(Raw(v), PRIME64_2) == Raw(a) && Turned(Raw(a), 0x8000_0000, 0x2_0000_0000) == Raw(b)
    requires Mul(Raw(b), PRIME64_1) == Raw(k) && Mul(Raw(h ^ k), PRIME64_1) == Raw(u)
    requires Add(Raw(u), PRIME64_4) == Raw(m)
    requires Plain(h) && Plain(k) && Plain(h ^ k)
    ensures MergeLane(Raw(h), Raw(v)) == Raw(m)
  {
    RotlBy31(Raw(a));
    RawXor(h, k);
  }

  /** The final mixing. */
  lemma AvalancheIs(h: bv64, a: bv64, h1: bv64, b: bv64, h2: bv64, c: bv64)
    requires Raw(h) / 0x2_0000_0000 == Raw(a) && Mul(Raw(h ^ a), PRIME64_2) == Raw(h1)
    requires Raw(h1) / 0x2000_0000 == Raw(b) && Mul(Raw(h1 ^ b), PRIME64_3) == Raw(h2)
    requires Raw(h2) / 0x1_0000_0000 == Raw(c)
    requires Plain(h) && Plain(a) && Plain(h ^ a) && Plain(h1) && Plain(b) && Plain(h1 ^ b)
    requires Plain(h2) && Plain(c) && Plain(h2 ^ c)
    ensures Avalanche(Raw(h)) == Raw(h2 ^ c)
  {
    Shifts(Raw(h));
    Shifts(Raw(h1));
    Shifts(Raw(h2));
    RawXor(h, a);
    RawXor(h1, b);
    RawXor(h2, c);
  }

  lemma TurnBy1(x: bv64, r: bv64)
    requires Turned(Raw(x), 2, 0x8000_0000_0000_0000) == Raw(r)
    ensures Rotl(Raw(x), 1) == Raw(r)
  {
    RotlBy1(Raw(x));
  }

  lemma TurnBy7(x: bv64, r: bv64)
    requires Turned(Raw(x), 0x80, 0x200_0000_0000_0000) == Raw(r)
    ensures Rotl(Raw(x), 7) == Raw(r)
  {
    RotlBy7(Raw(x));
  }

  lemma TurnBy12(x: bv64, r: bv64)
    requires Turned(Raw(x), 0x1000, 0x10_0000_0000_0000) == Raw(r)
    ensures Rotl(Raw(x), 12) == Raw(r)
  {
    RotlBy12(Raw(x));
  }

  lemma TurnBy18(x: bv64, r: bv64)
    requires Turned(Raw(x), 0x4_0000, 0x4000_0000_0000) == Raw(r)
    ensures Rotl(Raw(x), 18) == Raw(r)
  {
    RotlBy18(Raw(x));
  }

  // ----- Reading -----

  lemma LittleEndianFrom(s: seq<byte>, i: nat)
    requires i < |s|
    ensures LittleEndian(s[i..]) == s[i] as nat + 0x100 * LittleEndian(s[i + 1..])
  {
    assert s[i..][1..] == s[i + 1..];
  }

  lemma FourBytes(s: seq<byte>, i: nat)
    requires i + 4 <= |s|
    ensures LittleEndian(s[i..]) == s[i] as nat + 0x100 * s[i + 1] as nat + 0x1_0000 * s[i + 2] as nat
                                    + 0x100_0000 * s[i + 3] as nat + 0x1_0000_0000 * LittleEndian(s[i + 4..])
  {
    LittleEndianFrom(s, i);
    LittleEndianFrom(s, i + 1);
    LittleEndianFrom(s, i + 2);
    LittleEndianFrom(s, i + 3);
  }

  lemma Read4(s: seq<byte>)
    requires |s| == 4
    ensures Read(s) == s[0] as nat + 0x100 * s[1] as nat + 0x1_0000 * s[2] as nat + 0x100_0000 * s[3] as nat
  {
    FourBytes(s, 0);
    assert s[0..] == s;
  }

  lemma Read8(s: seq<byte>)
    requires |s| == 8
    ensures Read(s) == s[0] as nat + 0x100 * s[1] as nat + 0x1_0000 * s[2] as nat + 0x100_0000 * s[3] as nat
                       + 0x1_0000_0000 * (s[4] as nat + 0x100 * s[5] as nat + 0x1_0000 * s[6] as nat
                                          + 0x100_0000 * s[7] as nat)
  {
    FourBytes(s, 0);
    FourBytes(s, 4);
    assert s[0..] == s;
  }

  // ----- The shape of the hash of a message of given size, for any mixing functions -----

  lemma HashShort(m: Mixer, seed: u64, msg: seq<byte>, h: u64)
    requires |msg| < 32 && m.start(seed, m.init(seed), |msg|) == h
    ensures Hash(m, seed, msg) == m.avalanche(Tail(m, h, msg))
  {
    assert msg[0..] == msg;
  }

  lemma AbsorbOne(m: Mixer, l: Lanes, msg: seq<byte>, k: nat)
    requires 32 <= |msg| && k == 1
    ensures Absorb(m, l, msg, 0, k) == m.stripe(l, msg[0..32])
  {
    assert Absorb(m, l, msg, 0, k - 1) == l;
  }

  lemma HashFrom(m: Mixer, seed: u64, msg: seq<byte>, k: nat, l: Lanes, rest: seq<byte>, h: u64)
    requires k == |msg| / 32 && |msg| < TWO64 && Absorb(m, m.init(seed), msg, 0, k) == l
    requires rest == msg[32 * k..] && m.start(seed, l, |msg|) == h
    ensures Hash(m, seed, msg) == m.avalanche(Tail(m, h, rest))
  {}

  lemma HashLong(m: Mixer, seed: u64, msg: seq<byte>, l: Lanes, h: u64)
    requires 32 <= |msg| < 64 && m.stripe(m.init(seed), msg[0..32]) == l && m.start(seed, l, |msg|) == h
    ensures Hash(m, seed, msg) == m.avalanche(Tail(m, h, msg[32..]))
  {
    var k := |msg| / 32;
    assert msg[32 * k..] == msg[32..];
    AbsorbOne(m, m.init(seed), msg, k);
    HashFrom(m, seed, msg, k, l, msg[32..], h);
  }

  lemma TailOf1(m: Mixer, h: u64, s: seq<byte>, h1: u64)
    requires |s| == 1 && m.mix1(h, s[0]) == h1
    ensures Tail(m, h, s) == h1
  {
    assert Tail(m, h1, s[1..]) == h1;
  }

  lemma TailOf2(m: Mixer, h: u64, s: seq<byte>, h1: u64, h2: u64)
    requires |s| == 2 && m.mix1(h, s[0]) == h1 && m.mix1(h1, s[1]) == h2
    ensures Tail(m, h, s) == h2
  {
    TailOf1(m, h1, s[1..], h2);
  }

  lemma TailOf3(m: Mixer, h: u64, s: seq<byte>, h1: u64, h2: u64, h3: u64)
    requires |s| == 3 && m.mix1(h, s[0]) == h1 && m.mix1(h1, s[1]) == h2 && m.mix1(h2, s[2]) == h3
    ensures Tail(m, h, s) == h3
  {
    TailOf2(m, h1, s[1..], h2, h3);
  }

  lemma TailFrom4(m: Mixer, h: u64, s: seq<byte>, word: seq<byte>, rest: seq<byte>, h1: u64)
    requires s == word + rest && |word| == 4 && |rest| < 4 && m.mix4(h, word) == h1
    ensures Tail(m, h, s) == Tail(m, h1, rest)
  {
    assert s[..4] == word && s[4..] == rest;
  }

  lemma TailFrom8(m: Mixer, h: u64, s: seq<byte>, word: seq<byte>, rest: seq<byte>, h1: u64)
    requires s == word + rest && |word| == 8 && m.mix8(h, word) == h1
    ensures Tail(m, h, s) == Tail(m, h1, rest)
  {
    assert s[..8] == word && s[8..] == rest;
  }

  // ----- Values -----

  lemma EmptyEndsFacts()
    ensures Raw(0x27d4eb2f165667c5) / 0x2_0000_0000 == Raw(0x0000000013ea7597)
    ensures Mul(Raw(0x27d4eb2f165667c5 ^ 0x0000000013ea7597), PRIME64_2) == Raw(0xbeb13dda13c2ed4e)
    ensures Raw(0xbeb13dda13c2ed4e) / 0x2000_0000 == Raw(0x00000005f589eed0)
    ensures Mul(Raw(0xbeb13dda13c2ed4e ^ 0x00000005f589eed0), PRIME64_3) == Raw(0xef46db37be9e32ae)
    ensures Raw(0xef46db37be9e32ae) / 0x1_0000_0000 == Raw(0x00000000ef46db37)
    ensures Plain(0x27d4eb2f165667c5) && Plain(0x0000000013ea7597) && Plain(0x27d4eb2f165667c5 ^ 0x0000000013ea7597)
    ensures Plain(0xbeb13dda13c2ed4e) && Plain(0x00000005f589eed0) && Plain(0xbeb13dda13c2ed4e ^ 0x00000005f589eed0)
    ensures Plain(0xef46db37be9e32ae) && Plain(0x00000000ef46db37) && Plain(0xef46db37be9e32ae ^ 0x00000000ef46db37)
  {}

  lemma EmptyEnds()
    ensures Avalanche(Raw(0x27d4eb2f165667c5)) == Raw(0xef46db3751d8e999)
  {
    EmptyEndsFacts();
    AvalancheIs(0x27d4eb2f165667c5, 0x0000000013ea7597, 0xbeb13dda13c2ed4e, 0x00000005f589eed0, 0xef46db37be9e32ae,
                0x00000000ef46db37);
  }

  /** The hash of nothing. */
  lemma HashOfNothing(msg: seq<byte>)
    requires msg == []
    ensures Hash(XXH64, 0, msg) == 0xef46db3751d8e999
  {
    assert Add(Add(0, PRIME64_5), 0) == Raw(0x27d4eb2f165667c5);
    HashShort(XXH64, 0, msg, Raw(0x27d4eb2f165667c5));
    EmptyEnds();
  }

  lemma LetterMixedFacts()
    ensures Mul(0x61, PRIME64_5) == Raw(0x17ad1cd776bd51a5)
    ensures Turned(Raw(0x27d4eb2f165667c6 ^ 0x17ad1cd776bd51a5), 0x800, 0x20_0000_0000_0000) == Raw(0xcfbfc30759b31983)
    ensures Mul(Raw(0xcfbfc30759b31983), PRIME64_1) == Raw(0xb86597e419d4d215)
    ensures Plain(0x27d4eb2f165667c6) && Plain(0x17ad1cd776bd51a5) && Plain(0x27d4eb2f165667c6 ^ 0x17ad1cd776bd51a5)
  {}

  lemma LetterMixed()
    ensures Mix1(Raw(0x27d4eb2f165667c6), 0x61) == Raw(0xb86597e419d4d215)
  {
    LetterMixedFacts();
    Mix1Is(0x27d4eb2f165667c6, 0x61, 0x17ad1cd776bd51a5, 0xcfbfc30759b31983, 0xb86597e419d4d215);
  }

  lemma LetterEndsFacts()
    ensures Raw(0xb86597e419d4d215) / 0x2_0000_0000 == Raw(0x000000005c32cbf2)
    ensures Mul(Raw(0xb86597e419d4d215 ^ 0x000000005c32cbf2), PRIME64_2) == Raw(0xd7858a2670150b49)
    ensures Raw(0xd7858a2670150b49) / 0x2000_0000 == Raw(0x00000006bc2c5133)
    ensures Mul(Raw(0xd7858a2670150b49 ^ 0x00000006bc2c5133), PRIME64_3) == Raw(0xd24ec4f17bc2aaaa)
    ensures Raw(0xd24ec4f17bc2aaaa) / 0x1_0000_0000 == Raw(0x00000000d24ec4f1)
    ensures Plain(0xb86597e419d4d215) && Plain(0x000000005c32cbf2) && Plain(0xb86597e419d4d215 ^ 0x000000005c32cbf2)
    ensures Plain(0xd7858a2670150b49) && Plain(0x00000006bc2c5133) && Plain(0xd7858a2670150b49 ^ 0x00000006bc2c5133)
    ensures Plain(0xd24ec4f17bc2aaaa) && Plain(0x00000000d24ec4f1) && Plain(0xd24ec4f17bc2aaaa ^ 0x00000000d24ec4f1)
  {}

  lemma LetterEnds()
    ensures Avalanche(Raw(0xb86597e419d4d215)) == Raw(0xd24ec4f1a98c6e5b)
  {
    LetterEndsFacts();
    AvalancheIs(0xb86597e419d4d215, 0x000000005c32cbf2, 0xd7858a2670150b49, 0x00000006bc2c5133, 0xd24ec4f17bc2aaaa,
                0x00000000d24ec4f1);
  }

  /** The hash of the letter a. */
  lemma HashOfLetter(msg: seq<byte>)
    requires msg == [0x61]
    ensures Hash(XXH64, 0, msg) == 0xd24ec4f1a98c6e5b
  {
    assert Add(Add(0, PRIME64_5), 1) == Raw(0x27d4eb2f165667c6);
    HashShort(XXH64, 0, msg, Raw(0x27d4eb2f165667c6));
    LetterMixed();
    TailOf1(XXH64, Raw(0x27d4eb2f165667c6), msg, Raw(0xb86597e419d4d215));
    LetterEnds();
  }

  lemma SeededRead(s: seq<byte>)
    requires s == [0x78, 0x78, 0x68, 0x61]
    ensures Read(s) == Raw(0x0000000061687878)
  {
    Read4(s);
  }

  lemma SeededWordFacts()
    ensures Mul(Raw(0x0000000061687878), PRIME64_1) == Raw(0xdee90184bb4e3748)
    ensures Turned(Raw(0x27d4eb2f1789bbac ^ 0xdee90184bb4e3748), 0x80_0000, 0x200_0000_0000) == Raw(0x55d663c6727c9ef5)
    ensures Mul(Raw(0x55d663c6727c9ef5), PRIME64_2) == Raw(0x529e2721b043f49b)
    ensures Add(Raw(0x529e2721b043f49b), PRIME64_3) == Raw(0x68f48ed34e7b6e94)
    ensures Plain(0x27d4eb2f1789bbac) && Plain(0xdee90184bb4e3748) && Plain(0x27d4eb2f1789bbac ^ 0xdee90184bb4e3748)
  {}

  lemma SeededWord(s: seq<byte>)
    requires Read(s) == Raw(0x0000000061687878)
    ensures Mix4(Raw(0x27d4eb2f1789bbac), s) == Raw(0x68f48ed34e7b6e94)
  {
    SeededWordFacts();
    Mix4Is(0x27d4eb2f1789bbac, s, 0x0000000061687878, 0xdee90184bb4e3748, 0x55d663c6727c9ef5, 0x529e2721b043f49b,
           0x68f48ed34e7b6e94);
  }

  lemma SeededByte1Facts()
    ensures Mul(0x73, PRIME64_5) == Raw(0xe4a5a62708d09d7f)
    ensures Turned(Raw(0x68f48ed34e7b6e94 ^ 0xe4a5a62708d09d7f), 0x800, 0x20_0000_0000_0000) == Raw(0x8947a2355f9f5c62)
    ensures Mul(Raw(0x8947a2355f9f5c62), PRIME64_1) == Raw(0x51586ba3e3e50bae)
    ensures Plain(0x68f48ed34e7b6e94) && Plain(0xe4a5a62708d09d7f) && Plain(0x68f48ed34e7b6e94 ^ 0xe4a5a62708d09d7f)
  {}

  lemma SeededByte1()
    ensures Mix1(Raw(0x68f48ed34e7b6e94), 0x73) == Raw(0x51586ba3e3e50bae)
  {
    SeededByte1Facts();
    Mix1Is(0x68f48ed34e7b6e94, 0x73, 0xe4a5a62708d09d7f, 0x8947a2355f9f5c62, 0x51586ba3e3e50bae);
  }

  lemma SeededByte2Facts()
    ensures Mul(0x68, PRIME64_5) == Raw(0x2e7f8b21131a2808)
    ensures Turned(Raw(0x51586ba3e3e50bae ^ 0x2e7f8b21131a2808), 0x800, 0x20_0000_0000_0000) == Raw(0x3f041787f91d33f9)
    ensures Mul(Raw(0x3f041787f91d33f9), PRIME64_1) == Raw(0x97382d3d7bfbe24f)
    ensures Plain(0x51586ba3e3e50bae) && Plain(0x2e7f8b21131a2808) && Plain(0x51586ba3e3e50bae ^ 0x2e7f8b21131a2808)
  {}

  lemma SeededByte2()
    ensures Mix1(Raw(0x51586ba3e3e50bae), 0x68) == Raw(0x97382d3d7bfbe24f)
  {
    SeededByte2Facts();
    Mix1Is(0x51586ba3e3e50bae, 0x68, 0x2e7f8b21131a2808, 0x3f041787f91d33f9, 0x97382d3d7bfbe24f);
  }

  lemma SeededEndsFacts()
    ensures Raw(0x97382d3d7bfbe24f) / 0x2_0000_0000 == Raw(0x000000004b9c169e)
    ensures Mul(Raw(0x97382d3d7bfbe24f ^ 0x000000004b9c169e), PRIME64_2) == Raw(0xd1667180f1e4677f)
    ensures Raw(0xd1667180f1e4677f) / 0x2000_0000 == Raw(0x000000068b338c07)
    ensures Mul(Raw(0xd1667180f1e4677f ^ 0x000000068b338c07), PRIME64_3) == Raw(0xb559b98d3117bfb8)
    ensures Raw(0xb559b98d3117bfb8) / 0x1_0000_0000 == Raw(0x00000000b559b98d)
    ensures Plain(0x97382d3d7bfbe24f) && Plain(0x000000004b9c169e) && Plain(0x97382d3d7bfbe24f ^ 0x000000004b9c169e)
    ensures Plain(0xd1667180f1e4677f) && Plain(0x000000068b338c07) && Plain(0xd1667180f1e4677f ^ 0x000000068b338c07)
    ensures Plain(0xb559b98d3117bfb8) && Plain(0x00000000b559b98d) && Plain(0xb559b98d3117bfb8 ^ 0x00000000b559b98d)
  {}

  lemma SeededEnds()
    ensures Avalanche(Raw(0x97382d3d7bfbe24f)) == Raw(0xb559b98d844e0635)
  {
    SeededEndsFacts();
    AvalancheIs(0x97382d3d7bfbe24f, 0x000000004b9c169e, 0xd1667180f1e4677f, 0x000000068b338c07, 0xb559b98d3117bfb8,
                0x00000000b559b98d);
  }

  lemma SeededTail(msg: seq<byte>, word: seq<byte>, rest: seq<byte>)
    requires msg == word + rest && word == [0x78, 0x78, 0x68, 0x61] && rest == [0x73, 0x68]
    ensures Tail(XXH64, Raw(0x27d4eb2f1789bbac), msg) == Raw(0x97382d3d7bfbe24f)
  {
    SeededRead(word);
    SeededWord(word);
    TailFrom4(XXH64, Raw(0x27d4eb2f1789bbac), msg, word, rest, Raw(0x68f48ed34e7b6e94));
    SeededByte1();
    SeededByte2();
    TailOf2(XXH64, Raw(0x68f48ed34e7b6e94), rest, Raw(0x51586ba3e3e50bae), Raw(0x97382d3d7bfbe24f));
  }

  /** The hash of the word xxhash, with a seed. */
  lemma HashWithSeed(msg: seq<byte>)
    requires msg == [0x78, 0x78, 0x68, 0x61] + [0x73, 0x68]
    ensures Hash(XXH64, 20141025, msg) == 0xb559b98d844e0635
  {
    assert Add(Add(20141025, PRIME64_5), 6) == Raw(0x27d4eb2f1789bbac);
    HashShort(XXH64, 20141025, msg, Raw(0x27d4eb2f1789bbac));
    SeededTail(msg, [0x78, 0x78, 0x68, 0x61], [0x73, 0x68]);
    SeededEnds();
  }

  lemma BufferReadLong(s: seq<byte>)
    requires s == [0x9e, 0xff, 0x1f, 0x4b, 0x5e, 0x53, 0x2f, 0xdd]
    ensures Read(s) == Raw(0xdd2f535e4b1fff9e)
  {
    Read8(s);
  }

  lemma BufferLongFacts()
    ensures Mul(Raw(0xdd2f535e4b1fff9e), PRIME64_2) == Raw(0x38e3ac264f5debc2)
    ensures Turned(Raw(0x38e3ac264f5debc2), 0x8000_0000, 0x2_0000_0000) == Raw(0x27aef5e11c71d613)
    ensures Mul(Raw(0x27aef5e11c71d613), PRIME64_1) == Raw(0xd5ac89023563e205)
    ensures Turned(Raw(0x27d4eb2fb48de184 ^ 0xd5ac89023563e205), 0x800_0000, 0x20_0000_0000) == Raw(0x6c0f701c0f93c311)
    ensures Mul(Raw(0x6c0f701c0f93c311), PRIME64_1) == Raw(0xab783bd3b47247f7)
    ensures Add(Raw(0xab783bd3b47247f7), PRIME64_4) == Raw(0x3164064b7724f65a)
    ensures Plain(0x27d4eb2fb48de184) && Plain(0xd5ac89023563e205) && Plain(0x27d4eb2fb48de184 ^ 0xd5ac89023563e205)
  {}

  lemma BufferLong(s: seq<byte>)
    requires Read(s) == Raw(0xdd2f535e4b1fff9e)
    ensures Mix8(Raw(0x27d4eb2fb48de184), s) == Raw(0x3164064b7724f65a)
  {
    BufferLongFacts();
    Mix8Is(0x27d4eb2fb48de184, s, 0xdd2f535e4b1fff9e, 0x38e3ac264f5debc2, 0x27aef5e11c71d613, 0xd5ac89023563e205,
           0x6c0f701c0f93c311, 0xab783bd3b47247f7, 0x3164064b7724f65a);
  }

  lemma BufferRead(s: seq<byte>)
    requires s == [0xb5, 0x54, 0x4d, 0x2a]
    ensures Read(s) == Raw(0x000000002a4d54b5)
  {
    Read4(s);
  }

  lemma BufferWordFacts()
    ensures Mul(Raw(0x000000002a4d54b5), PRIME64_1) == Raw(0xcb85419b1ec57d73)
    ensures Turned(Raw(0x3164064b7724f65a ^ 0xcb85419b1ec57d73), 0x80_0000, 0x200_0000_0000) == Raw(0xe834f0c594fd70a3)
    ensures Mul(Raw(0xe834f0c594fd70a3), PRIME64_2) == Raw(0x58f64b9ebc97634d)
    ensures Add(Raw(0x58f64b9ebc97634d), PRIME64_3) == Raw(0x6f4cb3505acedd46)
    ensures Plain(0x3164064b7724f65a) && Plain(0xcb85419b1ec57d73) && Plain(0x3164064b7724f65a ^ 0xcb85419b1ec57d73)
  {}

  lemma BufferWord(s: seq<byte>)
    requires Read(s) == Raw(0x000000002a4d54b5)
    ensures Mix4(Raw(0x3164064b7724f65a), s) == Raw(0x6f4cb3505acedd46)
  {
    BufferWordFacts();
    Mix4Is(0x3164064b7724f65a, s, 0x000000002a4d54b5, 0xcb85419b1ec57d73, 0xe834f0c594fd70a3, 0x58f64b9ebc97634d,
           0x6f4cb3505acedd46);
  }

  lemma BufferByte1Facts()
    ensures Mul(0x95, PRIME64_5) == Raw(0x2eece268004a65a9)
    ensures Turned(Raw(0x6f4cb3505acedd46 ^ 0x2eece268004a65a9), 0x800, 0x20_0000_0000_0000) == Raw(0x0289c2d425c77a0d)
    ensures Mul(Raw(0x0289c2d425c77a0d), PRIME64_1) == Raw(0xc126fc321d6e9edb)
    ensures Plain(0x6f4cb3505acedd46) && Plain(0x2eece268004a65a9) && Plain(0x6f4cb3505acedd46 ^ 0x2eece268004a65a9)
  {}

  lemma BufferByte1()
    ensures Mix1(Raw(0x6f4cb3505acedd46), 0x95) == Raw(0xc126fc321d6e9edb)
  {
    BufferByte1Facts();
    Mix1Is(0x6f4cb3505acedd46, 0x95, 0x2eece268004a65a9, 0x0289c2d425c77a0d, 0xc126fc321d6e9edb);
  }

  lemma BufferByte2Facts()
    ensures Mul(0x2b, PRIME64_5) == Raw(0xb0c380e8c0836e17)
    ensures Turned(Raw(0xc126fc321d6e9edb ^ 0xb0c380e8c0836e17), 0x800, 0x20_0000_0000_0000) == Raw(0x2be6d6ef6f86638f)
    ensures Mul(Raw(0x2be6d6ef6f86638f), PRIME64_1) == Raw(0x45c2e53989b25669)
    ensures Plain(0xc126fc321d6e9edb) && Plain(0xb0c380e8c0836e17) && Plain(0xc126fc321d6e9edb ^ 0xb0c380e8c0836e17)
  {}

  lemma BufferByte2()
    ensures Mix1(Raw(0xc126fc321d6e9edb), 0x2b) == Raw(0x45c2e53989b25669)
  {
    BufferByte2Facts();
    Mix1Is(0xc126fc321d6e9edb, 0x2b, 0xb0c380e8c0836e17, 0x2be6d6ef6f86638f, 0x45c2e53989b25669);
  }

  lemma BufferEndsFacts()
    ensures Raw(0x45c2e53989b25669) / 0x2_0000_0000 == Raw(0x0000000022e1729c)
    ensures Mul(Raw(0x45c2e53989b25669 ^ 0x0000000022e1729c), PRIME64_2) == Raw(0xbeb48cee1f794e9b)
    ensures Raw(0xbeb48cee1f794e9b) / 0x2000_0000 == Raw(0x00000005f5a46770)
    ensures Mul(Raw(0xbeb48cee1f794e9b ^ 0x00000005f5a46770), PRIME64_3) == Raw(0x5b961158056ad893)
    ensures Raw(0x5b961158056ad893) / 0x1_0000_0000 == Raw(0x000000005b961158)
    ensures Plain(0x45c2e53989b25669) && Plain(0x0000000022e1729c) && Plain(0x45c2e53989b25669 ^ 0x0000000022e1729c)
    ensures Plain(0xbeb48cee1f794e9b) && Plain(0x00000005f5a46770) && Plain(0xbeb48cee1f794e9b ^ 0x00000005f5a46770)
    ensures Plain(0x5b961158056ad893) && Plain(0x000000005b961158) && Plain(0x5b961158056ad893 ^ 0x000000005b961158)
  {}

  lemma BufferEnds()
    ensures Avalanche(Raw(0x45c2e53989b25669)) == Raw(0x5b9611585efcc9cb)
  {
    BufferEndsFacts();
    AvalancheIs(0x45c2e53989b25669, 0x0000000022e1729c, 0xbeb48cee1f794e9b, 0x00000005f5a46770, 0x5b961158056ad893,
                0x000000005b961158);
  }

  lemma BufferTail(msg: seq<byte>, long: seq<byte>, word: seq<byte>, rest: seq<byte>)
    requires msg == long + (word + rest) && long == [0x9e, 0xff, 0x1f, 0x4b, 0x5e, 0x53, 0x2f, 0xdd]
    requires word == [0xb5, 0x54, 0x4d, 0x2a] && rest == [0x95, 0x2b]
    ensures Tail(XXH64, Raw(0x27d4eb2fb48de184), msg) == Raw(0x45c2e53989b25669)
  {
    BufferReadLong(long);
    BufferLong(long);
    TailFrom8(XXH64, Raw(0x27d4eb2fb48de184), msg, long, word + rest, Raw(0x3164064b7724f65a));
    BufferRead(word);
    BufferWord(word);
    TailFrom4(XXH64, Raw(0x3164064b7724f65a), word + rest, word, rest, Raw(0x6f4cb3505acedd46));
    BufferByte1();
    BufferByte2();
    TailOf2(XXH64, Raw(0x6f4cb3505acedd46), rest, Raw(0xc126fc321d6e9edb), Raw(0x45c2e53989b25669));
  }

  /** The hash of 14 bytes, with a seed. */
  lemma HashOfBuffer(msg: seq<byte>)
    requires msg == [0x9e, 0xff, 0x1f, 0x4b, 0x5e, 0x53, 0x2f, 0xdd] + ([0xb5, 0x54, 0x4d, 0x2a] + [0x95, 0x2b])
    ensures Hash(XXH64, 2654435761, msg) == 0x5b9611585efcc9cb
  {
    assert Add(Add(2654435761, PRIME64_5), 14) == Raw(0x27d4eb2fb48de184);
    HashShort(XXH64, 2654435761, msg, Raw(0x27d4eb2fb48de184));
    BufferTail(msg, [0x9e, 0xff, 0x1f, 0x4b, 0x5e, 0x53, 0x2f, 0xdd], [0xb5, 0x54, 0x4d, 0x2a], [0x95, 0x2b]);
    BufferEnds();
  }

  lemma SentenceRead1(s: seq<byte>)
    requires s == [0x4e, 0x6f, 0x62, 0x6f, 0x64, 0x79, 0x20, 0x69]
    ensures Read(s) == Raw(0x692079646f626f4e)
  {
    Read8(s);
  }

  lemma SentenceRead2(s: seq<byte>)
    requires s == [0x6e, 0x73, 0x70, 0x65, 0x63, 0x74, 0x73, 0x20]
    ensures Read(s) == Raw(0x207374636570736e)
  {
    Read8(s);
  }

  lemma SentenceRead3(s: seq<byte>)
    requires s == [0x74, 0x68, 0x65, 0x20, 0x73, 0x70, 0x61, 0x6d]
    ensures Read(s) == Raw(0x6d61707320656874)
  {
    Read8(s);
  }

  lemma SentenceRead4(s: seq<byte>)
    requires s == [0x6d, 0x69, 0x73, 0x68, 0x20, 0x72, 0x65, 0x70]
    ensures Read(s) == Raw(0x706572206873696d)
  {
    Read8(s);
  }

  lemma SentenceRound1Facts()
    ensures Mul(Raw(0x692079646f626f4e), PRIME64_2) == Raw(0x06f06e4cca24f312)
    ensures Add(Raw(0x60ea27eeadc0b5d6), Raw(0x06f06e4cca24f312)) == Raw(0x67da963b77e5a8e8)
  {}

  lemma SentenceRound1More()
    ensures Turned(Raw(0x67da963b77e5a8e8), 0x8000_0000, 0x2_0000_0000) == Raw(0xbbf2d47433ed4b1d)
    ensures Mul(Raw(0xbbf2d47433ed4b1d), PRIME64_1) == Raw(0x37245127a4067e4b)
  {}

  lemma SentenceRound1()
    ensures Round(Raw(0x60ea27eeadc0b5d6), Raw(0x692079646f626f4e)) == Raw(0x37245127a4067e4b)
  {
    SentenceRound1Facts();
    SentenceRound1More();
    RoundIs(0x60ea27eeadc0b5d6, 0x692079646f626f4e, 0x06f06e4cca24f312, 0x67da963b77e5a8e8, 0xbbf2d47433ed4b1d,
            0x37245127a4067e4b);
  }

  lemma SentenceRound2Facts()
    ensures Mul(Raw(0x207374636570736e), PRIME64_2) == Raw(0xbef890b5e0c198f2)
    ensures Add(Raw(0xc2b2ae3d27d4eb4f), Raw(0xbef890b5e0c198f2)) == Raw(0x81ab3ef308968441)
  {}

  lemma SentenceRound2More()
    ensures Turned(Raw(0x81ab3ef308968441), 0x8000_0000, 0x2_0000_0000) == Raw(0x844b4220c0d59f79)
    ensures Mul(Raw(0x844b4220c0d59f79), PRIME64_1) == Raw(0x1b302b0a818f92cf)
  {}

  lemma SentenceRound2()
    ensures Round(Raw(0xc2b2ae3d27d4eb4f), Raw(0x207374636570736e)) == Raw(0x1b302b0a818f92cf)
  {
    SentenceRound2Facts();
    SentenceRound2More();
    RoundIs(0xc2b2ae3d27d4eb4f, 0x207374636570736e, 0xbef890b5e0c198f2, 0x81ab3ef308968441, 0x844b4220c0d59f79,
            0x1b302b0a818f92cf);
  }

  lemma SentenceRound3Facts()
    ensures Mul(Raw(0x6d61707320656874), PRIME64_2) == Raw(0x0a6264cc423db7cc)
    ensures Add(Raw(0x0000000000000000), Raw(0x0a6264cc423db7cc)) == Raw(0x0a6264cc423db7cc)
  {}

  lemma SentenceRound3More()
    ensures Turned(Raw(0x0a6264cc423db7cc), 0x8000_0000, 0x2_0000_0000) == Raw(0x211edbe605313266)
    ensures Mul(Raw(0x211edbe605313266), PRIME64_1) == Raw(0xcd62d843d0580fca)
  {}

  lemma SentenceRound3()
    ensures Round(Raw(0x0000000000000000), Raw(0x6d61707320656874)) == Raw(0xcd62d843d0580fca)
  {
    SentenceRound3Facts();
    SentenceRound3More();
    RoundIs(0x0000000000000000, 0x6d61707320656874, 0x0a6264cc423db7cc, 0x0a6264cc423db7cc, 0x211edbe605313266,
            0xcd62d843d0580fca);
  }

  lemma SentenceRound4Facts()
    ensures Mul(Raw(0x706572206873696d), PRIME64_2) == Raw(0x7ec4417e16a897a3)
    ensures Add(Raw(0x61c8864e7a143579), Raw(0x7ec4417e16a897a3)) == Raw(0xe08cc7cc90bccd1c)
  {}

  lemma SentenceRound4More()
    ensures Turned(Raw(0xe08cc7cc90bccd1c), 0x8000_0000, 0x2_0000_0000) == Raw(0x485e668e704663e6)
    ensures Mul(Raw(0x485e668e704663e6), PRIME64_1) == Raw(0x1c16e43ef2142a4a)
  {}

  lemma SentenceRound4()
    ensures Round(Raw(0x61c8864e7a143579), Raw(0x706572206873696d)) == Raw(0x1c16e43ef2142a4a)
  {
    SentenceRound4Facts();
    SentenceRound4More();
    RoundIs(0x61c8864e7a143579, 0x706572206873696d, 0x7ec4417e16a897a3, 0xe08cc7cc90bccd1c, 0x485e668e704663e6,
            0x1c16e43ef2142a4a);
  }

  lemma SentenceTurn1()
    ensures Rotl(Raw(0x37245127a4067e4b), 1) == Raw(0x6e48a24f480cfc96)
  {
    TurnBy1(0x37245127a4067e4b, 0x6e48a24f480cfc96);
  }

  lemma SentenceTurn2()
    ensures Rotl(Raw(0x1b302b0a818f92cf), 7) == Raw(0x98158540c7c9678d)
  {
    TurnBy7(0x1b302b0a818f92cf, 0x98158540c7c9678d);
  }

  lemma SentenceTurn3()
    ensures Rotl(Raw(0xcd62d843d0580fca), 12) == Raw(0x2d843d0580fcacd6)
  {
    TurnBy12(0xcd62d843d0580fca, 0x2d843d0580fcacd6);
  }

  lemma SentenceTurn4()
    ensures Rotl(Raw(0x1c16e43ef2142a4a), 18) == Raw(0x90fbc850a928705b)
  {
    TurnBy18(0x1c16e43ef2142a4a, 0x90fbc850a928705b);
  }

  lemma SentenceMerge1Facts()
    ensures Mul(Raw(0x37245127a4067e4b), PRIME64_2) == Raw(0xbf0e534a970bd225)
    ensures Turned(Raw(0xbf0e534a970bd225), 0x8000_0000, 0x2_0000_0000) == Raw(0x4b85e912df8729a5)
    ensures Mul(Raw(0x4b85e912df8729a5), PRIME64_1) == Raw(0x7790ff1f7a9a2803)
    ensures Mul(Raw(0xc4de2ce639fb8154 ^ 0x7790ff1f7a9a2803), PRIME64_1) == Raw(0xaae843653dfbf2e1)
    ensures Add(Raw(0xaae843653dfbf2e1), PRIME64_4) == Raw(0x30d40ddd00aea144)
    ensures Plain(0xc4de2ce639fb8154) && Plain(0x7790ff1f7a9a2803) && Plain(0xc4de2ce639fb8154 ^ 0x7790ff1f7a9a2803)
  {}

  lemma SentenceMerge1()
    ensures MergeLane(Raw(0xc4de2ce639fb8154), Raw(0x37245127a4067e4b)) == Raw(0x30d40ddd00aea144)
  {
    SentenceMerge1Facts();
    MergeLaneIs(0xc4de2ce639fb8154, 0x37245127a4067e4b, 0xbf0e534a970bd225, 0x4b85e912df8729a5, 0x7790ff1f7a9a2803,
                0xaae843653dfbf2e1, 0x30d40ddd00aea144);
  }

  lemma SentenceMerge2Facts()
    ensures Mul(Raw(0x1b302b0a818f92cf), PRIME64_2) == Raw(0x40bcc4c2e37e52e1)
    ensures Turned(Raw(0x40bcc4c2e37e52e1), 0x8000_0000, 0x2_0000_0000) == Raw(0x71bf2970a05e6261)
    ensures Mul(Raw(0x71bf2970a05e6261), PRIME64_1) == Raw(0xdeced6c0bf716b27)
    ensures Mul(Raw(0x30d40ddd00aea144 ^ 0xdeced6c0bf716b27), PRIME64_1) == Raw(0x5fb6261dfc96d835)
    ensures Add(Raw(0x5fb6261dfc96d835), PRIME64_4) == Raw(0xe5a1f095bf498698)
    ensures Plain(0x30d40ddd00aea144) && Plain(0xdeced6c0bf716b27) && Plain(0x30d40ddd00aea144 ^ 0xdeced6c0bf716b27)
  {}

  lemma SentenceMerge2()
    ensures MergeLane(Raw(0x30d40ddd00aea144), Raw(0x1b302b0a818f92cf)) == Raw(0xe5a1f095bf498698)
  {
    SentenceMerge2Facts();
    MergeLaneIs(0x30d40ddd00aea144, 0x1b302b0a818f92cf, 0x40bcc4c2e37e52e1, 0x71bf2970a05e6261, 0xdeced6c0bf716b27,
                0x5fb6261dfc96d835, 0xe5a1f095bf498698);
  }

  lemma SentenceMerge3Facts()
    ensures Mul(Raw(0xcd62d843d0580fca), PRIME64_2) == Raw(0x1917ffa4faf34d56)
    ensures Turned(Raw(0x1917ffa4faf34d56), 0x8000_0000, 0x2_0000_0000) == Raw(0x7d79a6ab0c8bffd2)
    ensures Mul(Raw(0x7d79a6ab0c8bffd2), PRIME64_1) == Raw(0x70073eb805759bbe)
    ensures Mul(Raw(0xe5a1f095bf498698 ^ 0x70073eb805759bbe), PRIME64_1) == Raw(0x73e31caa24955b0a)
    ensures Add(Raw(0x73e31caa24955b0a), PRIME64_4) == Raw(0xf9cee721e748096d)
    ensures Plain(0xe5a1f095bf498698) && Plain(0x70073eb805759bbe) && Plain(0xe5a1f095bf498698 ^ 0x70073eb805759bbe)
  {}

  lemma SentenceMerge3()
    ensures MergeLane(Raw(0xe5a1f095bf498698), Raw(0xcd62d843d0580fca)) == Raw(0xf9cee721e748096d)
  {
    SentenceMerge3Facts();
    MergeLaneIs(0xe5a1f095bf498698, 0xcd62d843d0580fca, 0x1917ffa4faf34d56, 0x7d79a6ab0c8bffd2, 0x70073eb805759bbe,
                0x73e31caa24955b0a, 0xf9cee721e748096d);
  }

  lemma SentenceMerge4Facts()
    ensures Mul(Raw(0x1c16e43ef2142a4a), PRIME64_2) == Raw(0x2898226b8252fad6)
    ensures Turned(Raw(0x2898226b8252fad6), 0x8000_0000, 0x2_0000_0000) == Raw(0xc1297d6b144c1135)
    ensures Mul(Raw(0xc1297d6b144c1135), PRIME64_1) == Raw(0xc1cbbae50e57e4f3)
    ensures Mul(Raw(0xf9cee721e748096d ^ 0xc1cbbae50e57e4f3), PRIME64_1) == Raw(0xff0661ca575efa52)
    ensures Add(Raw(0xff0661ca575efa52), PRIME64_4) == Raw(0x84f22c421a11a8b5)
    ensures Plain(0xf9cee721e748096d) && Plain(0xc1cbbae50e57e4f3) && Plain(0xf9cee721e748096d ^ 0xc1cbbae50e57e4f3)
  {}

  lemma SentenceMerge4()
    ensures MergeLane(Raw(0xf9cee721e748096d), Raw(0x1c16e43ef2142a4a)) == Raw(0x84f22c421a11a8b5)
  {
    SentenceMerge4Facts();
    MergeLaneIs(0xf9cee721e748096d, 0x1c16e43ef2142a4a, 0x2898226b8252fad6, 0xc1297d6b144c1135, 0xc1cbbae50e57e4f3,
                0xff0661ca575efa52, 0x84f22c421a11a8b5);
  }

  lemma StripeIs(l: Lanes, s: seq<byte>, a: seq<byte>, b: seq<byte>, c: seq<byte>, d: seq<byte>)
    requires s == a + b + c + d && |a| == |b| == |c| == |d| == 8
    ensures Stripe(l, s)
         == Lanes(Round(l.v1, Read(a)), Round(l.v2, Read(b)), Round(l.v3, Read(c)), Round(l.v4, Read(d)))
  {
    assert s[0..8] == a && s[8..16] == b && s[16..24] == c && s[24..32] == d;
  }

  lemma SentenceStarts(l: Lanes)
    requires l == Init(0)
    ensures l.v1 == Raw(0x60ea27eeadc0b5d6) && l.v2 == Raw(0xc2b2ae3d27d4eb4f)
    ensures l.v3 == Raw(0x0000000000000000) && l.v4 == Raw(0x61c8864e7a143579)
  {}

  lemma SentenceLanes(s: seq<byte>, a: seq<byte>, b: seq<byte>, c: seq<byte>, d: seq<byte>)
    requires s == a + b + c + d && a == [0x4e, 0x6f, 0x62, 0x6f, 0x64, 0x79, 0x20, 0x69]
    requires b == [0x6e, 0x73, 0x70, 0x65, 0x63, 0x74, 0x73, 0x20]
    requires c == [0x74, 0x68, 0x65, 0x20, 0x73, 0x70, 0x61, 0x6d]
    requires d == [0x6d, 0x69, 0x73, 0x68, 0x20, 0x72, 0x65, 0x70]
    ensures Stripe(Init(0), s)
         == Lanes(Raw(0x37245127a4067e4b), Raw(0x1b302b0a818f92cf), Raw(0xcd62d843d0580fca),
                  Raw(0x1c16e43ef2142a4a))
  {
    StripeIs(Init(0), s, a, b, c, d);
    SentenceStarts(Init(0));
    SentenceRead1(a);
    SentenceRead2(b);
    SentenceRead3(c);
    SentenceRead4(d);
    SentenceRound1();
    SentenceRound2();
    SentenceRound3();
    SentenceRound4();
  }

  lemma MergeIs(l: Lanes, r1: u64, r2: u64, r3: u64, r4: u64, h: u64, h1: u64, h2: u64, h3: u64, h4: u64)
    requires Rotl(l.v1, 1) == r1 && Rotl(l.v2, 7) == r2 && Rotl(l.v3, 12) == r3 && Rotl(l.v4, 18) == r4
    requires Add(Add(Add(r1, r2), r3), r4) == h && MergeLane(h, l.v1) == h1 && MergeLane(h1, l.v2) == h2
    requires MergeLane(h2, l.v3) == h3 && MergeLane(h3, l.v4) == h4
    ensures Merge(l) == h4
  {}

  lemma SentenceSum()
    ensures Add(Raw(0x6e48a24f480cfc96), Raw(0x98158540c7c9678d)) == Raw(0x065e27900fd66423)
    ensures Add(Raw(0x065e27900fd66423), Raw(0x2d843d0580fcacd6)) == Raw(0x33e2649590d310f9)
    ensures Add(Raw(0x33e2649590d310f9), Raw(0x90fbc850a928705b)) == Raw(0xc4de2ce639fb8154)
    ensures Add(Raw(0x84f22c421a11a8b5), 39) == Raw(0x84f22c421a11a8dc)
  {}

  lemma SentenceMerged(l: Lanes)
    requires l == Lanes(Raw(0x37245127a4067e4b), Raw(0x1b302b0a818f92cf), Raw(0xcd62d843d0580fca),
                        Raw(0x1c16e43ef2142a4a))
    ensures Start(0, l, 39) == Raw(0x84f22c421a11a8dc)
  {
    SentenceTurn1();
    SentenceTurn2();
    SentenceTurn3();
    SentenceTurn4();
    SentenceSum();
    SentenceMerge1();
    SentenceMerge2();
    SentenceMerge3();
    SentenceMerge4();
    MergeIs(l, Raw(0x6e48a24f480cfc96), Raw(0x98158540c7c9678d), Raw(0x2d843d0580fcacd6),
            Raw(0x90fbc850a928705b), Raw(0xc4de2ce639fb8154), Raw(0x30d40ddd00aea144),
            Raw(0xe5a1f095bf498698), Raw(0xf9cee721e748096d), Raw(0x84f22c421a11a8b5));
  }

  lemma SentenceRead(s: seq<byte>)
    requires s == [0x65, 0x74, 0x69, 0x74]
    ensures Read(s) == Raw(0x0000000074697465)
  {
    Read4(s);
  }

  lemma SentenceWordFacts()
    ensures Mul(Raw(0x0000000074697465), PRIME64_1) == Raw(0xe9863933eb2b1343)
    ensures Turned(Raw(0x84f22c421a11a8dc ^ 0xe9863933eb2b1343), 0x80_0000, 0x200_0000_0000) == Raw(0xb8f89d5dcfb6ba0a)
    ensures Mul(Raw(0xb8f89d5dcfb6ba0a), PRIME64_2) == Raw(0x8973a7ab6c729716)
    ensures Add(Raw(0x8973a7ab6c729716), PRIME64_3) == Raw(0x9fca0f5d0aaa110f)
    ensures Plain(0x84f22c421a11a8dc) && Plain(0xe9863933eb2b1343) && Plain(0x84f22c421a11a8dc ^ 0xe9863933eb2b1343)
  {}

  lemma SentenceWord(s: seq<byte>)
    requires Read(s) == Raw(0x0000000074697465)
    ensures Mix4(Raw(0x84f22c421a11a8dc), s) == Raw(0x9fca0f5d0aaa110f)
  {
    SentenceWordFacts();
    Mix4Is(0x84f22c421a11a8dc, s, 0x0000000074697465, 0xe9863933eb2b1343, 0xb8f89d5dcfb6ba0a, 0x8973a7ab6c729716,
           0x9fca0f5d0aaa110f);
  }

  lemma SentenceByte1Facts()
    ensures Mul(0x69, PRIME64_5) == Raw(0x5654765029708fcd)
    ensures Turned(Raw(0x9fca0f5d0aaa110f ^ 0x5654765029708fcd), 0x800, 0x20_0000_0000_0000) == Raw(0xf3c8691ed4f6164c)
    ensures Mul(Raw(0xf3c8691ed4f6164c), PRIME64_1) == Raw(0x769671546f21ba14)
    ensures Plain(0x9fca0f5d0aaa110f) && Plain(0x5654765029708fcd) && Plain(0x9fca0f5d0aaa110f ^ 0x5654765029708fcd)
  {}

  lemma SentenceByte1()
    ensures Mix1(Raw(0x9fca0f5d0aaa110f), 0x69) == Raw(0x769671546f21ba14)
  {
    SentenceByte1Facts();
    Mix1Is(0x9fca0f5d0aaa110f, 0x69, 0x5654765029708fcd, 0xf3c8691ed4f6164c, 0x769671546f21ba14);
  }

  lemma SentenceByte2Facts()
    ensures Mul(0x6f, PRIME64_5) == Raw(0x4551f96aaf76fe6b)
    ensures Turned(Raw(0x769671546f21ba14 ^ 0x4551f96aaf76fe6b), 0x800, 0x20_0000_0000_0000) == Raw(0x3c41f602ba23f99e)
    ensures Mul(Raw(0x3c41f602ba23f99e), PRIME64_1) == Raw(0xeae9b643c5f94e52)
    ensures Plain(0x769671546f21ba14) && Plain(0x4551f96aaf76fe6b) && Plain(0x769671546f21ba14 ^ 0x4551f96aaf76fe6b)
  {}

  lemma SentenceByte2()
    ensures Mix1(Raw(0x769671546f21ba14), 0x6f) == Raw(0xeae9b643c5f94e52)
  {
    SentenceByte2Facts();
    Mix1Is(0x769671546f21ba14, 0x6f, 0x4551f96aaf76fe6b, 0x3c41f602ba23f99e, 0xeae9b643c5f94e52);
  }

  lemma SentenceByte3Facts()
    ensures Mul(0x6e, PRIME64_5) == Raw(0x1d7d0e3b992096a6)
    ensures Turned(Raw(0xeae9b643c5f94e52 ^ 0x1d7d0e3b992096a6), 0x800, 0x20_0000_0000_0000) == Raw(0xa5c3c2e6cec7a7bc)
    ensures Mul(Raw(0xa5c3c2e6cec7a7bc), PRIME64_1) == Raw(0x1d0a47483b37cc24)
    ensures Plain(0xeae9b643c5f94e52) && Plain(0x1d7d0e3b992096a6) && Plain(0xeae9b643c5f94e52 ^ 0x1d7d0e3b992096a6)
  {}

  lemma SentenceByte3()
    ensures Mix1(Raw(0xeae9b643c5f94e52), 0x6e) == Raw(0x1d0a47483b37cc24)
  {
    SentenceByte3Facts();
    Mix1Is(0xeae9b643c5f94e52, 0x6e, 0x1d7d0e3b992096a6, 0xa5c3c2e6cec7a7bc, 0x1d0a47483b37cc24);
  }

  lemma SentenceEndsFacts()
    ensures Raw(0x1d0a47483b37cc24) / 0x2_0000_0000 == Raw(0x000000000e8523a4)
    ensures Mul(Raw(0x1d0a47483b37cc24 ^ 0x000000000e8523a4), PRIME64_2) == Raw(0x5f0214beaa126880)
    ensures Raw(0x5f0214beaa126880) / 0x2000_0000 == Raw(0x00000002f810a5f5)
    ensures Mul(Raw(0x5f0214beaa126880 ^ 0x00000002f810a5f5), PRIME64_3) == Raw(0xfbcea83c71f923cd)
    ensures Raw(0xfbcea83c71f923cd) / 0x1_0000_0000 == Raw(0x00000000fbcea83c)
    ensures Plain(0x1d0a47483b37cc24) && Plain(0x000000000e8523a4) && Plain(0x1d0a47483b37cc24 ^ 0x000000000e8523a4)
    ensures Plain(0x5f0214beaa126880) && Plain(0x00000002f810a5f5) && Plain(0x5f0214beaa126880 ^ 0x00000002f810a5f5)
    ensures Plain(0xfbcea83c71f923cd) && Plain(0x00000000fbcea83c) && Plain(0xfbcea83c71f923cd ^ 0x00000000fbcea83c)
  {}

  lemma SentenceEnds()
    ensures Avalanche(Raw(0x1d0a47483b37cc24)) == Raw(0xfbcea83c8a378bf1)
  {
    SentenceEndsFacts();
    AvalancheIs(0x1d0a47483b37cc24, 0x000000000e8523a4, 0x5f0214beaa126880, 0x00000002f810a5f5, 0xfbcea83c71f923cd,
                0x00000000fbcea83c);
  }

  lemma SentenceTail(s: seq<byte>, word: seq<byte>, rest: seq<byte>)
    requires s == word + rest && word == [0x65, 0x74, 0x69, 0x74] && rest == [0x69, 0x6f, 0x6e]
    ensures Tail(XXH64, Raw(0x84f22c421a11a8dc), s) == Raw(0x1d0a47483b37cc24)
  {
    SentenceRead(word);
    SentenceWord(word);
    TailFrom4(XXH64, Raw(0x84f22c421a11a8dc), s, word, rest, Raw(0x9fca0f5d0aaa110f));
    SentenceByte1();
    SentenceByte2();
    SentenceByte3();
    TailOf3(XXH64, Raw(0x9fca0f5d0aaa110f), rest, Raw(0x769671546f21ba14), Raw(0xeae9b643c5f94e52),
            Raw(0x1d0a47483b37cc24));
  }

  /** The hash of the sentence "Nobody inspects the spammish repetition". */
  lemma HashOfSentence(msg: seq<byte>, a: seq<byte>, b: seq<byte>, c: seq<byte>, d: seq<byte>, word: seq<byte>,
                       rest: seq<byte>)
    requires msg == a + b + c + d + (word + rest) && a == [0x4e, 0x6f, 0x62, 0x6f, 0x64, 0x79, 0x20, 0x69]
    requires b == [0x6e, 0x73, 0x70, 0x65, 0x63, 0x74, 0x73, 0x20]
    requires c == [0x74, 0x68, 0x65, 0x20, 0x73, 0x70, 0x61, 0x6d]
    requires d == [0x6d, 0x69, 0x73, 0x68, 0x20, 0x72, 0x65, 0x70] && word == [0x65, 0x74, 0x69, 0x74]
    requires rest == [0x69, 0x6f, 0x6e]
    ensures Hash(XXH64, 0, msg) == 0xfbcea83c8a378bf1
  {
    var s := a + b + c + d;
    assert msg[0..32] == s && msg[32..] == word + rest;
    SentenceLanes(s, a, b, c, d);
    SentenceMerged(Stripe(Init(0), s));
    HashLong(XXH64, 0, msg, Stripe(Init(0), s), Raw(0x84f22c421a11a8dc));
    SentenceTail(msg[32..], word, rest);
    SentenceEnds();
  }
}
