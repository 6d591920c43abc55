/**
 * XXH64: the hash of a whole message, and the streaming form that carries up to 31 bytes from one
 * update to the next.
 */
module XxHash {
  import opened Bytes
  import opened Words

  const PRIME64_1: u64 := 11400714785074694791
  const PRIME64_2: u64 := 14029467366897019727
  const PRIME64_3: u64 := 1609587929392839161
  const PRIME64_4: u64 := 9650029242287828579
  const PRIME64_5: u64 := 2870177450012600261

  // ----- 64-bit arithmetic -----

  function Add(a: u64, b: u64): u64 { (a + b) % TWO64 }

  function Sub(a: u64, b: u64): u64 { (a - b) % TWO64 }

  function Mul(a: u64, b: u64): u64 { (a * b) % TWO64 }

  /** Rotation left by `r` bits. */
  function Rotl(x: u64, r: nat): u64
    requires r <= 64
  {
    (Shl(x, r) + Shr(x, 64 - r)) % TWO64
  }

  /** The little-endian word of up to eight bytes. */
  function Read(s: seq<byte>): u64
  {
    LittleEndian(s) % TWO64
  }

  // ----- The hash of a message -----

  datatype Lanes = Lanes(v1: u64, v2: u64, v3: u64, v4: u64)

  function Init(seed: u64): Lanes
  {
    Lanes(Add(Add(seed, PRIME64_1), PRIME64_2), Add(seed, PRIME64_2), seed, Sub(seed, PRIME64_1))
  }

  function Round(v: u64, word: u64): u64
  {
    Mul(Rotl(Add(v, Mul(word, PRIME64_2)), 31), PRIME64_1)
  }

  /** The i-th eight-byte word of a stripe. */
  function Word(s: seq<byte>, i: nat): u64
  {
    if 8 * i + 8 <= |s| then Read(s[8 * i..8 * i + 8]) else 0
  }

  /** One stripe of 32 bytes, eight to a lane. */
  function Stripe(l: Lanes, s: seq<byte>): Lanes
  {
    Lanes(Round(l.v1, Word(s, 0)), Round(l.v2, Word(s, 1)), Round(l.v3, Word(s, 2)), Round(l.v4, Word(s, 3)))
  }

  function MergeLane(h: u64, v: u64): u64
  {
    Add(Mul(Xor64(h, Mul(Rotl(Mul(v, PRIME64_2), 31), PRIME64_1)), PRIME64_1), PRIME64_4)
  }

  function Merge(l: Lanes): u64
  {
    var h := Add(Add(Add(Rotl(l.v1, 1), Rotl(l.v2, 7)), Rotl(l.v3, 12)), Rotl(l.v4, 18));
    MergeLane(MergeLane(MergeLane(MergeLane(h, l.v1), l.v2), l.v3), l.v4)
  }

  function Mix8(h: u64, s: seq<byte>): u64
  {
    var k1 := Mul(Rotl(Mul(Read(s), PRIME64_2), 31), PRIME64_1);
    Add(Mul(Rotl(Xor64(h, k1), 27), PRIME64_1), PRIME64_4)
  }

  function Mix4(h: u64, s: seq<byte>): u64
  {
    Add(Mul(Rotl(Xor64(h, Mul(Read(s), PRIME64_1)), 23), PRIME64_2), PRIME64_3)
  }

  function Mix1(h: u64, b: byte): u64
  {
    Mul(Rotl(Xor64(h, Mul(b, PRIME64_5)), 11), PRIME64_1)
  }

  function Avalanche(h: u64): u64
  {
    var h1 := Mul(Xor64(h, Shr(h, 33)), PRIME64_2);
    var h2 := Mul(Xor64(h1, Shr(h1, 29)), PRIME64_3);
    Xor64(h2, Shr(h2, 32))
  }

  function Start(seed: u64, l: Lanes, length: u64): u64
  {
    Add(if length >= 32 then Merge(l) else Add(seed, PRIME64_5), length)
  }

  // ----- The shape of the hash, for any mixing functions -----

  /** How lanes start, take a stripe and are merged, and how the bytes after the last stripe are mixed in. */
  datatype Mixer = Mixer(
    init: u64 -> Lanes,
    stripe: (Lanes, seq<byte>) -> Lanes,
    start: (u64, Lanes, u64) -> u64,
    mix8: (u64, seq<byte>) -> u64,
    mix4: (u64, seq<byte>) -> u64,
    mix1: (u64, byte) -> u64,
    avalanche: u64 -> u64)

  /** The mixing functions of XXH64. */
  const XXH64: Mixer := Mixer(Init, Stripe, Start, Mix8, Mix4, Mix1, Avalanche)

  /** The lanes after k stripes of data, the first of them at position `from`. */
  function Absorb(m: Mixer, l: Lanes, data: seq<byte>, from: nat, k: nat): Lanes
    requires from + 32 * k <= |data|
    decreases k
  {
    if k == 0 then l
    else m.stripe(Absorb(m, l, data, from, k - 1), data[from + 32 * k - 32..from + 32 * k])
  }

  /** The bytes after the last stripe: eight, then four, then one at a time. */
  function Tail(m: Mixer, h: u64, s: seq<byte>): u64
    decreases |s|
  {
    if |s| >= 8 then Tail(m, m.mix8(h, s[..8]), s[8..])
    else if |s| >= 4 then Tail(m, m.mix4(h, s[..4]), s[4..])
    else if |s| >= 1 then Tail(m, m.mix1(h, s[0]), s[1..])
    else h
  }

  /** The hash of a message. */
  function Hash(m: Mixer, seed: u64, msg: seq<byte>): u64
    requires |msg| < TWO64
  {
    var k := |msg| / 32;
    var l := Absorb(m, m.init(seed), msg, 0, k);
    m.avalanche(Tail(m, m.start(seed, l, |msg|), msg[32 * k..]))
  }

  // ----- Stripes of a message, and of a piece of it -----

  /** The stripes are the same wherever the same bytes lie. */
  lemma {:induction false} AbsorbElsewhere(m: Mixer, l: Lanes, a: seq<byte>, p: nat, b: seq<byte>, q: nat, k: nat)
    requires p + 32 * k <= |a| && q + 32 * k <= |b|
    requires a[p..p + 32 * k] == b[q..q + 32 * k]
    ensures Absorb(m, l, a, p, k) == Absorb(m, l, b, q, k)
    decreases k
  {
    if k > 0 {
      var d := 32 * (k - 1);
      var x, y := a[p..p + 32 * k], b[q..q + 32 * k];
      assert a[p..p + d] == x[..d] && b[q..q + d] == y[..d];
      assert a[p + d..p + d + 32] == x[d..] && b[q + d..q + d + 32] == y[d..];
      AbsorbElsewhere(m, l, a, p, b, q, k - 1);
    }
  }

  /** Stripes are absorbed in any number of goes. */
  lemma {:induction false} AbsorbMore(m: Mixer, l: Lanes, a: seq<byte>, p: nat, j: nat, k: nat)
    requires p + 32 * (j + k) <= |a|
    ensures Absorb(m, l, a, p, j + k) == Absorb(m, Absorb(m, l, a, p, j), a, p + 32 * j, k)
    decreases k
  {
    if k > 0 {
      AbsorbMore(m, l, a, p, j, k - 1);
    }
  }

  // ----- The loops -----

  /** Whole stripes of `input` from position `from` on, while 32 bytes remain. */
  method AbsorbLoop(m: Mixer, l0: Lanes, input: seq<byte>, from: nat) returns (l: Lanes, ghost k: nat, p: nat)
    requires from <= |input|
    ensures p == from + 32 * k <= |input| && |input| - p < 32
    ensures l == Absorb(m, l0, input, from, k)
  {
    l, k, p := l0, 0, from;
    while p <= |input| - 32
      invariant p == from + 32 * k <= |input|
      invariant l == Absorb(m, l0, input, from, k)
    {
      l := m.stripe(l, input[p..p + 32]);
      k, p := k + 1, p + 32;
    }
  }

  /** The loops over the bytes after the last stripe. */
  method TailLoop(m: Mixer, h0: u64, s: seq<byte>) returns (h: u64)
    ensures h == Tail(m, h0, s)
  {
    h := h0;
    var p := 0;
    assert s[0..] == s;
    while p <= |s| - 8
      invariant 0 <= p <= |s| && Tail(m, h0, s) == Tail(m, h, s[p..])
    {
      assert s[p..][..8] == s[p..p + 8] && s[p..][8..] == s[p + 8..];
      h := m.mix8(h, s[p..p + 8]);
      p := p + 8;
    }
    if p <= |s| - 4 {
      assert s[p..][..4] == s[p..p + 4] && s[p..][4..] == s[p + 4..];
      h := m.mix4(h, s[p..p + 4]);
      p := p + 4;
    }
    while p < |s|
      invariant 0 <= p <= |s| && |s| - p < 4 && Tail(m, h0, s) == Tail(m, h, s[p..])
    {
      assert s[p..][0] == s[p] && s[p..][1..] == s[p + 1..];
      h := m.mix1(h, s[p]);
      p := p + 1;
    }
  }

  /** XXH64_endian_align: the hash of a message in one go. */
  method Xxh64(m: Mixer, input: seq<byte>, seed: u64) returns (h: u64)
    requires |input| < 0x1_0000_0000
    ensures h == Hash(m, seed, input)
  {
    var p: nat := 0;
    var l := m.init(seed);
    ghost var k: nat := 0;
    if |input| >= 32 {
      l, k, p := AbsorbLoop(m, l, input, 0);
    }
    assert k == |input| / 32;
    h := TailLoop(m, m.start(seed, l, |input|), input[p..]);
    h := m.avalanche(h);
  }

  // ----- Streaming -----

  /** The lanes and the kept bytes stand for the message fed so far. */
  ghost predicate Represents(m: Mixer, seed: u64, l: Lanes, kept: seq<byte>, msg: seq<byte>, k: nat)
  {
    && |msg| == 32 * k + |kept| && |kept| < 32
    && kept == msg[32 * k..]
    && l == Absorb(m, m.init(seed), msg, 0, k)
  }

  lemma NoWrap(n: nat)
    requires n < TWO64
    ensures n % TWO64 == n
  {}

  lemma SameStripes(n: nat, kept: nat, more: nat)
    requires n == 32 * (n / 32) + kept && kept + more < 32
    ensures (n + more) / 32 == n / 32
  {}

  /** An update that does not complete a stripe only adds to what is kept. */
  lemma KeepMore(m: Mixer, seed: u64, l: Lanes, kept: seq<byte>, msg: seq<byte>, k: nat, input: seq<byte>)
    requires Represents(m, seed, l, kept, msg, k) && |kept| + |input| < 32
    ensures Represents(m, seed, l, kept + input, msg + input, k)
  {
    assert (msg + input)[0..32 * k] == msg[0..32 * k];
    AbsorbElsewhere(m, m.init(seed), msg, 0, msg + input, 0, k);
  }

  /** Bytes of the input that complete the kept ones to a stripe. */
  lemma CompleteStripe(m: Mixer, seed: u64, l: Lanes, kept: seq<byte>, msg: seq<byte>, k: nat, input: seq<byte>, p: nat)
    requires Represents(m, seed, l, kept, msg, k) && p == 32 - |kept| && p <= |input|
    ensures m.stripe(l, kept + input[..p]) == Absorb(m, m.init(seed), msg + input, 0, k + 1)
  {
    var all := msg + input;
    assert all[0..32 * k] == msg[0..32 * k];
    AbsorbElsewhere(m, m.init(seed), msg, 0, all, 0, k);
    AcrossJoin(msg, input, 32 * k, p);
    assert all[32 * k..|msg| + p] == all[32 * (k + 1) - 32..32 * (k + 1)];
  }

  /** Where the stripes of the input lie in the whole message. */
  lemma StripesOfInput(msg: seq<byte>, input: seq<byte>, k: nat, p: nat, j: nat)
    requires |msg| + p == 32 * k && p + 32 * j <= |input|
    ensures (msg + input)[32 * k..32 * k + 32 * j] == input[p..p + 32 * j]
    ensures (msg + input)[32 * (k + j)..] == input[p + 32 * j..]
  {
    var all, q := msg + input, p + 32 * j;
    assert 32 * k == |msg| + p && 32 * k + 32 * j == 32 * (k + j) == |msg| + q;
    SliceOfJoin(msg, input, p, q);
  }

  lemma SliceOfJoin(a: seq<byte>, b: seq<byte>, p: nat, q: nat)
    requires p <= q <= |b|
    ensures (a + b)[|a| + p..|a| + q] == b[p..q] && (a + b)[|a| + q..] == b[q..]
  {}

  /** Whole stripes of the input, and what is left of it. */
  lemma WholeStripes(m: Mixer, seed: u64, l: Lanes, msg: seq<byte>, k: nat, input: seq<byte>, p: nat, j: nat)
    requires p <= |input| && |msg| + p == 32 * k && l == Absorb(m, m.init(seed), msg + input, 0, k)
    requires p + 32 * j <= |input| && |input| - (p + 32 * j) < 32
    ensures Represents(m, seed, Absorb(m, l, input, p, j), input[p + 32 * j..], msg + input, k + j)
  {
    StripesOfInput(msg, input, k, p, j);
    AbsorbElsewhere(m, l, input, p, msg + input, 32 * k, j);
    AbsorbMore(m, m.init(seed), msg + input, 0, k, j);
  }

  /** The state of a streaming hash: the lanes, and the bytes that do not yet fill a stripe. */
  class State {
    var totalLen: u64
    const m: Mixer
    const seed: u64
    var lanes: Lanes
    var memsize: nat
    const memory: array<byte>

    /** The state stands for the message fed to it so far. */
    ghost predicate Holds(msg: seq<byte>)
      reads this, memory
    {
      && memory.Length == 32 && memsize < 32 && totalLen == |msg|
      && Represents(m, seed, lanes, memory[..memsize], msg, |msg| / 32)
    }

    /** XXH64_resetState. */
    constructor (m: Mixer, seed: u64)
      ensures Holds([]) && this.m == m && this.seed == seed && fresh(memory)
    {
      this.m, this.seed := m, seed;
      memory := new byte[32](_ => 0);
      lanes := m.init(seed);
      totalLen := 0;
      memsize := 0;
    }

    method Keep(s: seq<byte>, from: nat)
      requires memory.Length == 32 && from + |s| <= 32
      modifies memory
      ensures memory[..from + |s|] == old(memory[..from]) + s
    {
      for i := 0 to |s|
        invariant forall k :: 0 <= k < from ==> memory[k] == old(memory[k])
        invariant forall k :: from <= k < from + i ==> memory[k] == s[k - from]
      {
        memory[from + i] := s[i];
      }
      assert memory[..from] == old(memory[..from]);
    }

    /** The stripe that the kept bytes start and the input completes, if any are kept. */
    method FillStripe(input: seq<byte>, ghost msg: seq<byte>, ghost k: nat) returns (p: nat, ghost done: nat)
      requires memory.Length == 32 && memsize < 32 && memsize + |input| >= 32
      requires Represents(m, seed, lanes, memory[..memsize], msg, k)
      modifies this, memory
      ensures memsize == 0 && totalLen == old(totalLen)
      ensures p <= |input| && |msg| + p == 32 * done && lanes == Absorb(m, m.init(seed), msg + input, 0, done)
    {
      p, done := 0, k;
      if memsize != 0 {
        p, done := 32 - memsize, k + 1;
        CompleteStripe(m, seed, lanes, memory[..memsize], msg, k, input, p);
        Keep(input[..p], memsize);
        assert memory[..32] == memory[..];
        lanes := m.stripe(lanes, memory[..]);
        memsize := 0;
      } else {
        assert msg[0..32 * k] == (msg + input)[0..32 * k];
        AbsorbElsewhere(m, m.init(seed), msg, 0, msg + input, 0, k);
      }
    }

    /** Absorbing an input that completes at least one stripe. */
    method AbsorbInput(input: seq<byte>, ghost msg: seq<byte>, ghost k: nat)
      requires memory.Length == 32 && memsize < 32 && memsize + |input| >= 32
      requires Represents(m, seed, lanes, memory[..memsize], msg, k)
      modifies this, memory
      ensures memsize < 32 && totalLen == old(totalLen)
      ensures Represents(m, seed, lanes, memory[..memsize], msg + input, (|msg| + |input|) / 32)
    {
      ghost var done, j;
      var p;
      p, done := FillStripe(input, msg, k);
      ghost var l0, from := lanes, p;
      lanes, j, p := AbsorbLoop(m, lanes, input, p);
      WholeStripes(m, seed, l0, msg, done, input, from, j);
      if p < |input| {
        Keep(input[p..], 0);
        memsize := |input| - p;
      }
      assert memory[..memsize] == input[p..];
      assert (|msg| + |input|) / 32 == done + j;
    }

    /** Keeping an input that does not complete a stripe. */
    method KeepInput(input: seq<byte>, ghost msg: seq<byte>, ghost k: nat)
      requires memory.Length == 32 && memsize + |input| < 32
      requires Represents(m, seed, lanes, memory[..memsize], msg, k)
      modifies this`memsize, memory
      ensures memsize < 32 && Represents(m, seed, lanes, memory[..memsize], msg + input, k)
    {
      KeepMore(m, seed, lanes, memory[..memsize], msg, k, input);
      Keep(input, memsize);
      memsize := memsize + |input|;
    }

    /** XXH64_update_endian. The length is an int there, so a chunk is shorter than 2^31 bytes. */
    method Update(input: seq<byte>, ghost msg: seq<byte>)
      requires Holds(msg) && |input| < 0x8000_0000 && |msg| + |input| < TWO64
      modifies this, memory
      ensures Holds(msg + input)
    {
      NoWrap(totalLen + |input|);
      totalLen := (totalLen + |input|) % TWO64;
      if memsize + |input| < 32 {
        SameStripes(|msg|, memsize, |input|);
        KeepInput(input, msg, |msg| / 32);
      } else {
        AbsorbInput(input, msg, |msg| / 32);
      }
    }

    /** XXH64_intermediateDigest_endian. */
    method IntermediateDigest(ghost msg: seq<byte>) returns (h: u64)
      requires Holds(msg)
      ensures h == Hash(m, seed, msg)
    {
      h := TailLoop(m, m.start(seed, lanes, totalLen), memory[..memsize]);
      h := m.avalanche(h);
    }
  }

  /** However a message is chopped into updates, the digest is the hash of the whole message. */
  method HashChunks(m: Mixer, seed: u64, chunks: seq<seq<byte>>) returns (h: u64)
    requires |Concat(chunks)| < TWO64
    requires forall i :: 0 <= i < |chunks| ==> |chunks[i]| < 0x8000_0000
    ensures h == Hash(m, seed, Concat(chunks))
  {
    var state := new State(m, seed);
    for i := 0 to |chunks|
      invariant state.Holds(Concat(chunks[..i])) && state.m == m && state.seed == seed && fresh(state)
      invariant fresh(state.memory)
    {
      assert chunks[..i + 1][..i] == chunks[..i];
      ConcatGrows(chunks, i + 1);
      state.Update(chunks[i], Concat(chunks[..i]));
    }
    assert chunks[..|chunks|] == chunks;
    h := state.IntermediateDigest(Concat(chunks));
  }

  /** XXH64 itself: what streaming finds for a message, in any chunks, is what one pass over it finds. */
  method StreamedAndAtOnce(seed: u64, chunks: seq<seq<byte>>) returns (streamed: u64, once: u64)
    requires |Concat(chunks)| < 0x1_0000_0000 && forall i :: 0 <= i < |chunks| ==> |chunks[i]| < 0x8000_0000
    ensures streamed == once == Hash(XXH64, seed, Concat(chunks))
  {
    streamed := HashChunks(XXH64, seed, chunks);
    once := Xxh64(XXH64, Concat(chunks), seed);
  }
}
