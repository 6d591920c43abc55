/** Fixed-width and variable-width integers as bytes. */
module Coding {
  import opened Bytes

  function Pow(base: nat, n: nat): (p: nat)
    requires 1 <= base
    ensures 1 <= p
  {
    if n == 0 then 1 else base * Pow(base, n - 1)
  }

  // ----- Fixed width -----

  const BYTES32: nat := 4
  const BYTES64: nat := 8

  /** The lowest `width` bytes of a number, the lowest first. */
  function Fixed(n: nat, width: nat): (s: seq<byte>)
    ensures |s| == width
    decreases width
  {
    if width == 0 then [] else [n % 256] + Fixed(n / 256, width - 1)
  }

  lemma {:induction false} FixedReads(n: nat, width: nat)
    requires n < Pow(256, width)
    ensures LittleEndian(Fixed(n, width)) == n
    decreases width
  {
    if width > 0 {
      var s := Fixed(n, width);
      assert s[1..] == Fixed(n / 256, width - 1);
      FixedReads(n / 256, width - 1);
    }
  }

  lemma Fixed32Reads(n: nat)
    requires n < 0x1_0000_0000
    ensures LittleEndian(Fixed(n, BYTES32)) == n
  {
    FixedReads(n, 4);
  }

  lemma Fixed64Reads(n: nat)
    requires n < 0x1_0000_0000_0000_0000
    ensures LittleEndian(Fixed(n, BYTES64)) == n
  {
    var p := Pow(256, 4);
    assert p == 0x1_0000_0000;
    PowSum(256, 4, 4);
    FixedReads(n, 8);
  }

  lemma {:induction false} PowSum(base: nat, a: nat, b: nat)
    requires 1 <= base
    ensures Pow(base, a + b) == Pow(base, a) * Pow(base, b)
    decreases a
  {
    if a > 0 {
      PowSum(base, a - 1, b);
      Regroup(base, Pow(base, a - 1), Pow(base, b));
    }
  }

  lemma Regroup(x: nat, y: nat, z: nat)
    ensures x * (y * z) == x * y * z
  {}

  // ----- Variable width -----

  /** Seven bits a byte, the lowest first; every byte but the last has its top bit set. */
  function Varint(v: nat): (s: seq<byte>)
    ensures 1 <= |s|
  {
    if v < 128 then [v] else [v % 128 + 128] + Varint(v / 128)
  }

  const MOST32: nat := 5
  const MOST64: nat := 10

  /** A variable-width integer of at most `most` bytes at p, and the position after it. */
  function ReadVarint(s: seq<byte>, p: nat, limit: nat, most: nat): (r: Option<(nat, nat)>)
    requires limit <= |s|
    ensures r.Some? ==> p < r.value.1 <= limit && r.value.1 <= p + most
    decreases most
  {
    if most == 0 || p >= limit then None
    else if s[p] < 128 then Some((s[p], p + 1))
    else match ReadVarint(s, p + 1, limit, most - 1)
      case None => None
      case Some((high, next)) => Some((s[p] % 128 + 128 * high, next))
  }

  /** Reading gives back what was written, wherever it stands. */
  lemma {:induction false} ReadVarintReads(v: nat, s: seq<byte>, p: nat, limit: nat, most: nat)
    requires p + |Varint(v)| <= limit <= |s| && s[p..p + |Varint(v)|] == Varint(v)
    requires |Varint(v)| <= most
    ensures ReadVarint(s, p, limit, most) == Some((v, p + |Varint(v)|))
    decreases v
  {
    var t := Varint(v);
    assert s[p] == t[0];
    if v >= 128 {
      var u := Varint(v / 128);
      assert t[1..] == u;
      assert s[p + 1..p + |t|] == s[p..p + |t|][1..] == u;
      ReadVarintReads(v / 128, s, p + 1, limit, most - 1);
    }
  }

  /** A number under 128^n takes at most n bytes. */
  lemma {:induction false} VarintFits(v: nat, n: nat)
    requires 1 <= n && v < Pow(128, n)
    ensures |Varint(v)| <= n
    decreases n
  {
    if v >= 128 {
      assert Pow(128, 1) == 128 * Pow(128, 0) == 128;
      VarintFits(v / 128, n - 1);
    }
  }

  lemma Varint64Fits(v: nat)
    requires v < 0x1_0000_0000_0000_0000
    ensures |Varint(v)| <= MOST64
  {
    assert Pow(128, 5) == 0x8_0000_0000;
    PowSum(128, 5, 5);
    VarintFits(v, 10);
  }

  lemma Varint32Fits(v: nat)
    requires v < 0x1_0000_0000
    ensures |Varint(v)| <= MOST32
  {
    assert Pow(128, 5) == 0x8_0000_0000;
    VarintFits(v, 5);
  }

  /** A buffer with some bytes stored over it from `start`. */
  function Overwrite(s: seq<byte>, start: nat, bytes: seq<byte>): (r: seq<byte>)
    requires start + |bytes| <= |s|
    ensures |r| == |s|
  {
    s[..start] + bytes + s[start + |bytes|..]
  }

  lemma OverwriteNext(s: seq<byte>, start: nat, bytes: seq<byte>, x: byte)
    requires start + |bytes| < |s|
    ensures Overwrite(s, start, bytes)[start + |bytes| := x] == Overwrite(s, start, bytes + [x])
  {}

  lemma OverwriteNothing(s: seq<byte>, start: nat)
    requires start <= |s|
    ensures Overwrite(s, start, []) == s
  {}

  /** EncodeVarint64. */
  method EncodeVarint64(dst: array<byte>, start: nat, value: nat) returns (ptr: nat)
    requires start + |Varint(value)| <= dst.Length
    modifies dst
    ensures ptr == start + |Varint(value)|
    ensures dst[..] == Overwrite(old(dst[..]), start, Varint(value))
  {
    var v := value;
    ptr := start;
    ghost var before: seq<byte>, bytes: seq<byte> := dst[..], [];
    OverwriteNothing(before, start);
    while v >= 128
      invariant ptr == start + |bytes| && ptr + |Varint(v)| == start + |Varint(value)|
      invariant bytes + Varint(v) == Varint(value)
      invariant dst[..] == Overwrite(before, start, bytes)
    {
      var digit: byte := v % 128 + 128;
      OverwriteNext(before, start, bytes, digit);
      assert bytes + [digit] + Varint(v / 128) == Varint(value);
      dst[ptr] := digit;
      bytes := bytes + [digit];
      v := v / 128;
      ptr := ptr + 1;
    }
    OverwriteNext(before, start, bytes, v);
    dst[ptr] := v;
    ptr := ptr + 1;
  }

  /** The bytes that the five branches of EncodeVarint32 store. */
  function EncodeVarint32(v: nat): (s: seq<byte>)
    requires v < 0x1_0000_0000
  {
    if v < 128 then [v]
    else if v < 0x4000 then [v % 128 + 128, v / 128]
    else if v < 0x20_0000 then [v % 128 + 128, v / 128 % 128 + 128, v / 0x4000]
    else if v < 0x1000_0000 then [v % 128 + 128, v / 128 % 128 + 128, v / 0x4000 % 128 + 128, v / 0x20_0000]
    else
      [v % 128 + 128, v / 128 % 128 + 128, v / 0x4000 % 128 + 128, v / 0x20_0000 % 128 + 128, v / 0x1000_0000]
  }

  /** The unrolled encoder writes what the loop writes. */
  lemma EncodeVarint32IsVarint(v: nat)
    requires v < 0x1_0000_0000
    ensures EncodeVarint32(v) == Varint(v)
  {
    var v1, v2, v3, v4 := v / 128, v / 0x4000, v / 0x20_0000, v / 0x1000_0000;
    assert v1 / 128 == v2 && v2 / 128 == v3 && v3 / 128 == v4;
    VarintUnfolds(v);
    VarintUnfolds(v1);
    VarintUnfolds(v2);
    VarintUnfolds(v3);
    VarintUnfolds(v4);
  }

  lemma VarintUnfolds(v: nat)
    ensures Varint(v) == if v < 128 then [v] else [v % 128 + 128] + Varint(v / 128)
  {}

  /** VarintLength. */
  method VarintLength(value: nat) returns (len: nat)
    ensures len == |Varint(value)|
  {
    var v := value;
    len := 1;
    while v >= 128
      invariant len + |Varint(v)| == 1 + |Varint(value)|
    {
      v := v / 128;
      len := len + 1;
    }
  }

  datatype Width = Bits32 | Bits64
  {
    function Bits(): nat { if this == Bits32 then 32 else 64 }

    /** The most bytes that an integer of this width takes. */
    function Most(): nat { if this == Bits32 then MOST32 else MOST64 }

    function Truncate(x: nat): nat
    {
      if this == Bits32 then (if x < 0x1_0000_0000 then x else x % 0x1_0000_0000)
      else if x < 0x1_0000_0000_0000_0000 then x
      else x % 0x1_0000_0000_0000_0000
    }
  }

  lemma TruncateStep(result: nat, digit: nat, place: nat, high: nat, w: Width)
    ensures w.Truncate(result + place * (digit + 128 * high))
         == w.Truncate(w.Truncate(result + place * digit) + place * 128 * high)
  {
    var a, b := result + place * digit, place * 128 * high;
    assert result + place * (digit + 128 * high) == a + b;
    TruncateSum(a, b, w);
  }

  lemma TruncateSum(a: nat, b: nat, w: Width)
    ensures w.Truncate(a + b) == w.Truncate(w.Truncate(a) + b)
  {
    if w == Bits32 {
      TruncateSum32(a, b);
    } else {
      TruncateSum64(a, b);
    }
  }

  lemma TruncateSum32(a: nat, b: nat)
    ensures (a + b) % 0x1_0000_0000 == (a % 0x1_0000_0000 + b) % 0x1_0000_0000
  {}

  lemma TruncateSum64(a: nat, b: nat)
    ensures (a + b) % 0x1_0000_0000_0000_0000 == (a % 0x1_0000_0000_0000_0000 + b) % 0x1_0000_0000_0000_0000
  {}

  /** A reading that has gathered `result`, and whose next digit has weight `place`, ends like the whole one. */
  ghost predicate Gathered(whole: Option<(nat, nat)>, rest: Option<(nat, nat)>, result: nat, place: nat, w: Width)
  {
    if whole.None? || rest.None? then whole == rest
    else whole.value.1 == rest.value.1 && w.Truncate(whole.value.0) == w.Truncate(result + place * rest.value.0)
  }

  lemma GatherDigit(s: seq<byte>, p: nat, limit: nat, left: nat,
                    whole: Option<(nat, nat)>, result: nat, place: nat, w: Width)
    requires p < limit <= |s| && 0 < left && 128 <= s[p]
    requires Gathered(whole, ReadVarint(s, p, limit, left), result, place, w)
    ensures Gathered(whole, ReadVarint(s, p + 1, limit, left - 1),
                     w.Truncate(result + place * (s[p] % 128)), place * 128, w)
  {
    var rest := ReadVarint(s, p + 1, limit, left - 1);
    if rest.Some? {
      TruncateStep(result, s[p] % 128, place, rest.value.0, w);
    }
  }

  /**
   * GetVarint32 and GetVarint64, where digits shifted beyond the width are lost. The digits never
   * overlap, so adding them is or-ing them.
   */
  method GetVarint(s: seq<byte>, start: nat, limit: nat, w: Width) returns (r: Option<(nat, nat)>)
    requires limit <= |s|
    ensures var read := ReadVarint(s, start, limit, w.Most());
            && (r.None? <==> read.None?)
            && (r.Some? ==> r.value.0 == w.Truncate(read.value.0) && r.value.1 == read.value.1)
  {
    var result: nat, place: nat, p: nat, shift: nat := 0, 1, start, 0;
    ghost var whole := ReadVarint(s, start, limit, w.Most());
    ghost var left: nat := w.Most();
    while shift < w.Bits() && p < limit
      invariant shift == 7 * (w.Most() - left) && left <= w.Most()
      invariant Gathered(whole, ReadVarint(s, p, limit, left), result, place, w)
      decreases left
    {
      var b := s[p];
      if b < 128 {
        return Some((w.Truncate(result + place * b), p + 1));
      }
      GatherDigit(s, p, limit, left, whole, result, place, w);
      result := w.Truncate(result + place * (b % 128));
      place := place * 128;
      shift := shift + 7;
      p, left := p + 1, left - 1;
    }
    return None;
  }
}
