/**
 * The LZ4 block decoder: a byte-by-byte reading of the format, and the decoder that copies
 * overlapping matches eight bytes at a time and must agree with it on every input.
 */
module Lz4Decoder {
  import opened Bytes
  import opened Lz4Format

  const COPYLENGTH := 8

  /** What decoding ends in. An offset of 0 is outside the format: its match would copy unwritten output. */
  datatype Decoding =
    | Decoded(out: seq<byte>)
    | Malformed(position: nat)
    | OffsetZero

  // ----- The byte-by-byte decoder -----

  /** The bytes that extend a literal length; the loop also stops close to the end of the input. */
  function ReadRun(input: seq<byte>, ip: nat): (r: (nat, nat))
    requires ip < |input|
    ensures ip < r.1 <= |input|
    decreases |input| - ip
  {
    if ip + 1 < |input| - RUN_MASK && input[ip] == 255 then
      var (length, next) := ReadRun(input, ip + 1);
      (255 + length, next)
    else
      (input[ip], ip + 1)
  }

  datatype MatchRun = MatchRun(length: nat, next: nat) | TooFar(position: nat)

  /** The bytes that extend a match length; none of them may lie in the last four bytes of the input. */
  function ReadMatchRun(input: seq<byte>, ip: nat): (r: MatchRun)
    ensures r.MatchRun? ==> ip < r.next <= |input| - LASTLITERALS + 1
    decreases |input| - ip
  {
    if ip > |input| - LASTLITERALS then TooFar(ip)
    else if input[ip] == 255 then
      match ReadMatchRun(input, ip + 1)
      case MatchRun(length, next) => MatchRun(255 + length, next)
      case TooFar(position) => TooFar(position)
    else MatchRun(input[ip], ip + 1)
  }

  /** A token, and the first byte that extends its literal length, can be read at ip. */
  predicate Readable(input: seq<byte>, ip: nat)
  {
    ip < |input| && (input[ip] / 16 == RUN_MASK ==> ip + 1 < |input|)
  }

  function LiteralRun(input: seq<byte>, ip: nat): (r: (nat, nat))
    requires Readable(input, ip)
    ensures ip < r.1 <= |input|
  {
    var length := input[ip] / 16;
    if length == RUN_MASK then
      var (more, next) := ReadRun(input, ip + 1);
      (length + more, next)
    else
      (length, ip + 1)
  }

  function MatchRunAfter(input: seq<byte>, token: byte, ip: nat): (r: MatchRun)
    ensures r.MatchRun? && ip <= |input| - 6 ==> ip <= r.next <= |input| - 4
  {
    var length := token % 16;
    if length == ML_MASK then
      match ReadMatchRun(input, ip)
      case MatchRun(more, next) => MatchRun(length + more, next)
      case TooFar(position) => TooFar(position)
    else
      MatchRun(length, ip)
  }

  /** The two little-endian bytes of an offset. */
  function ReadOffset(input: seq<byte>, ip: nat): (r: nat)
    requires ip + 1 < |input|
  {
    input[ip] as int + 256 * (input[ip + 1] as int)
  }

  /** Decoding from position ip with `out` already produced, for an output of n bytes, stopping after oexit. */
  function DecodeFrom(input: seq<byte>, ip: nat, out: seq<byte>, oexit: int, n: nat): (r: Decoding)
    requires Readable(input, ip)
    requires |out| <= n && oexit <= n - MFLIMIT
    decreases |input| - ip
  {
    var token := input[ip];
    var (length, ip1) := LiteralRun(input, ip);
    if |out| + length > oexit || ip1 + length > |input| - 8 then
      if |out| + length > n || ip1 + length > |input| then Malformed(ip1)
      else Decoded(out + input[ip1..ip1 + length])
    else
      DecodeMatchFrom(input, token, ip1 + length, out + input[ip1..ip1 + length], oexit, n)
  }

  /** Decoding the match of a sequence, and what follows it. */
  function DecodeMatchFrom(input: seq<byte>, token: byte, ip: nat, out: seq<byte>, oexit: int, n: nat): (r: Decoding)
    requires ip <= |input| - 8
    requires |out| <= n && oexit <= n - MFLIMIT
    decreases |input| - ip
  {
    var offset := ReadOffset(input, ip);
    if offset > |out| then Malformed(ip + 2)
    else match MatchRunAfter(input, token, ip + 2)
      case TooFar(position) => Malformed(position)
      case MatchRun(extra, next) =>
        if offset == 0 then OffsetZero
        else if |out| + extra + MINMATCH > n - LASTLITERALS then Malformed(next)
        else DecodeFrom(input, next, CopyMatch(out, offset, extra + MINMATCH), oexit, n)
  }

  /** Decoding a whole input into at most n bytes, stopping early once `target` bytes are out. */
  function Decode(input: seq<byte>, target: nat, n: nat): (r: Decoding)
    requires Readable(input, 0)
  {
    if n == 0 then
      if input == [0] then Decoded([]) else Malformed(0)
    else
      DecodeFrom(input, 0, [], if target > n - MFLIMIT then n - MFLIMIT else target, n)
  }

  // ----- The decoder inverts the encoder -----

  lemma {:induction false} ReadRunReadsLength(input: seq<byte>, ip: nat, n: nat)
    requires ip + |LengthBytes(n)| <= |input|
    requires input[ip..ip + |LengthBytes(n)|] == LengthBytes(n)
    requires ip + |LengthBytes(n)| + n + RUN_MASK <= |input|
    ensures ReadRun(input, ip) == (n, ip + |LengthBytes(n)|)
    decreases n
  {
    var bytes := LengthBytes(n);
    assert input[ip] == input[ip..ip + |bytes|][0] == bytes[0];
    if n >= 255 {
      assert bytes[1..] == LengthBytes(n - 255);
      assert input[ip + 1..ip + |bytes|] == input[ip..ip + |bytes|][1..];
      ReadRunReadsLength(input, ip + 1, n - 255);
    }
  }

  lemma {:induction false} ReadMatchRunReadsLength(input: seq<byte>, ip: nat, n: nat)
    requires ip + |LengthBytes(n)| + LASTLITERALS <= |input|
    requires input[ip..ip + |LengthBytes(n)|] == LengthBytes(n)
    ensures ReadMatchRun(input, ip) == MatchRun(n, ip + |LengthBytes(n)|)
    decreases n
  {
    var bytes := LengthBytes(n);
    assert input[ip] == input[ip..ip + |bytes|][0] == bytes[0];
    if n >= 255 {
      assert bytes[1..] == LengthBytes(n - 255);
      assert input[ip + 1..ip + |bytes|] == input[ip..ip + |bytes|][1..];
      ReadMatchRunReadsLength(input, ip + 1, n - 255);
    }
  }

  /** The literal header that EncodeLiterals writes is read back as its length. */
  lemma LiteralRunReadsLength(input: seq<byte>, ip: nat, end: nat, literals: seq<byte>, low: nat)
    requires low <= 15 && end == ip + |EncodeLiterals(literals, low)| <= |input|
    requires input[ip..end] == EncodeLiterals(literals, low)
    ensures Readable(input, ip) && input[ip] % 16 == low
    ensures LiteralRun(input, ip) == (|literals|, end - |literals|)
    ensures input[end - |literals|..end] == literals
  {
    var n := |literals|;
    var token: seq<byte> := [Nibble(n) * 16 + low];
    Split3(input, ip, end, token, Extension(n), literals);
    At(input, ip, ip + 1, token, 0);
    if n >= 15 {
      ReadRunReadsLength(input, ip + 1, n - 15);
    }
  }

  /** The match header that EncodeMatch writes is read back as its offset and length. */
  lemma MatchRunReadsLength(input: seq<byte>, token: byte, ip: nat, offset: nat, extra: nat, next: nat)
    requires offset <= MAX_DISTANCE && token % 16 == Nibble(extra)
    requires next == ip + |EncodeMatch(offset, extra)| && next + LASTLITERALS <= |input|
    requires input[ip..next] == EncodeMatch(offset, extra)
    ensures ReadOffset(input, ip) == offset
    ensures MatchRunAfter(input, token, ip + 2) == MatchRun(extra, next)
  {
    var bytes := OffsetBytes(offset);
    Split2(input, ip, next, bytes, Extension(extra));
    At(input, ip, ip + 2, bytes, 0);
    At(input, ip, ip + 2, bytes, 1);
    if extra >= 15 {
      ReadMatchRunReadsLength(input, ip + 2, extra - 15);
    }
  }

  lemma AfterLiterals(input: seq<byte>, ip: nat, mid: nat, out: seq<byte>, length: nat, n: nat)
    requires Readable(input, ip) && LiteralRun(input, ip) == (length, mid - length)
    requires mid <= |input| - 8 && |out| + length <= n - MFLIMIT
    ensures DecodeFrom(input, ip, out, n - MFLIMIT, n)
         == DecodeMatchFrom(input, input[ip], mid, out + input[mid - length..mid], n - MFLIMIT, n)
  {}

  /** Encoded literals are decoded as such, and decoding goes on with the match after them. */
  lemma DecodeLiterals(input: seq<byte>, ip: nat, mid: nat, out: seq<byte>, literals: seq<byte>, low: nat, n: nat)
    requires low <= 15 && mid == ip + |EncodeLiterals(literals, low)| && mid <= |input| - 8
    requires input[ip..mid] == EncodeLiterals(literals, low)
    requires |out| + |literals| <= n - MFLIMIT
    ensures Readable(input, ip) && input[ip] % 16 == low
    ensures DecodeFrom(input, ip, out, n - MFLIMIT, n)
         == DecodeMatchFrom(input, input[ip], mid, out + literals, n - MFLIMIT, n)
  {
    LiteralRunReadsLength(input, ip, mid, literals, low);
    AfterLiterals(input, ip, mid, out, |literals|, n);
  }

  /** An encoded match is decoded as the bytes it repeats. */
  lemma DecodeMatch(input: seq<byte>, token: byte, mid: nat, next: nat, out: seq<byte>, offset: nat, extra: nat,
                    length: nat, n: nat)
    requires 1 <= offset <= MAX_DISTANCE && token % 16 == Nibble(extra) && length == extra + MINMATCH
    requires next == mid + |EncodeMatch(offset, extra)| && next + 6 <= |input|
    requires input[mid..next] == EncodeMatch(offset, extra)
    requires offset <= |out| && |out| + length <= n - LASTLITERALS
    ensures Readable(input, next)
    ensures DecodeMatchFrom(input, token, mid, out, n - MFLIMIT, n)
         == DecodeFrom(input, next, CopyMatch(out, offset, length), n - MFLIMIT, n)
  {
    MatchRunReadsLength(input, token, mid, offset, extra, next);
  }

  /** Encoded literals and an encoded match after them are decoded as what they stand for. */
  lemma DecodeOneSequence(input: seq<byte>, ip: nat, mid: nat, next: nat, out: seq<byte>,
                          literals: seq<byte>, offset: nat, extra: nat, length: nat, n: nat)
    requires length == extra + MINMATCH && mid == ip + |EncodeLiterals(literals, Nibble(extra))| && mid + 8 <= |input|
    requires input[ip..mid] == EncodeLiterals(literals, Nibble(extra))
    requires 1 <= offset <= MAX_DISTANCE && next == mid + |EncodeMatch(offset, extra)| && next + 6 <= |input|
    requires input[mid..next] == EncodeMatch(offset, extra)
    requires offset <= |out| + |literals| <= n - MFLIMIT
    requires |out| + |literals| + length <= n - LASTLITERALS
    ensures Readable(input, ip) && Readable(input, next)
    ensures DecodeFrom(input, ip, out, n - MFLIMIT, n)
         == DecodeFrom(input, next, CopyMatch(out + literals, offset, length), n - MFLIMIT, n)
  {
    DecodeLiterals(input, ip, mid, out, literals, Nibble(extra), n);
    DecodeMatch(input, input[ip], mid, next, out + literals, offset, extra, length, n);
  }

  lemma SplitSequence(input: seq<byte>, ip: nat, mid: nat, next: nat, s: Sequence, extra: nat)
    requires s.matchLength == MINMATCH + extra && s.offset <= MAX_DISTANCE
    requires next == ip + |EncodeSequence(s)| <= |input| && mid == ip + |EncodeLiterals(s.literals, Nibble(extra))|
    requires input[ip..next] == EncodeSequence(s)
    ensures input[ip..mid] == EncodeLiterals(s.literals, Nibble(extra))
    ensures mid + 2 <= next == mid + |EncodeMatch(s.offset, extra)| && input[mid..next] == EncodeMatch(s.offset, extra)
  {
    Split2(input, ip, next, EncodeLiterals(s.literals, Nibble(extra)), EncodeMatch(s.offset, extra));
  }

  lemma DecodeSequence(input: seq<byte>, ip: nat, next: nat, out: seq<byte>, s: Sequence, n: nat)
    requires MINMATCH <= s.matchLength && 1 <= s.offset <= MAX_DISTANCE
    requires next == ip + |EncodeSequence(s)| && next + 6 <= |input|
    requires input[ip..next] == EncodeSequence(s)
    requires s.offset <= |out| + |s.literals| <= n - MFLIMIT
    requires |out| + |s.literals| + s.matchLength <= n - LASTLITERALS
    ensures Readable(input, ip) && Readable(input, next)
    ensures DecodeFrom(input, ip, out, n - MFLIMIT, n)
         == DecodeFrom(input, next, CopyMatch(out + s.literals, s.offset, s.matchLength), n - MFLIMIT, n)
  {
    var extra := s.matchLength - MINMATCH;
    var mid := ip + |EncodeLiterals(s.literals, Nibble(extra))|;
    SplitSequence(input, ip, mid, next, s, extra);
    DecodeOneSequence(input, ip, mid, next, out, s.literals, s.offset, extra, s.matchLength, n);
  }

  /** The final literals are decoded as such, whatever is already out. */
  lemma DecodeLastLiterals(input: seq<byte>, ip: nat, out: seq<byte>, last: seq<byte>, n: nat)
    requires ip <= |input| && input[ip..] == EncodeLiterals(last, 0)
    requires n == |out| + |last|
    ensures Readable(input, ip)
    ensures DecodeFrom(input, ip, out, n - MFLIMIT, n) == Decoded(out + last)
  {
    assert input[ip..|input|] == input[ip..];
    LiteralRunReadsLength(input, ip, |input|, last, 0);
  }

  /** Decoding an input from its start comes to a position with some output, and goes on from there. */
  ghost predicate ComesTo(input: seq<byte>, n: nat, ip: nat, out: seq<byte>)
    requires |out| <= n
  {
    && Readable(input, 0) && Readable(input, ip)
    && DecodeFrom(input, 0, [], n - MFLIMIT, n) == DecodeFrom(input, ip, out, n - MFLIMIT, n)
  }

  lemma SequenceAfter(init: Sequences, last: Sequence, input: seq<byte>)
    requires Valid(Append(init, last)) && EncodeSequences(Append(init, last)) <= input
    ensures var ip, next := |EncodeSequences(init)|, |EncodeSequences(Append(init, last))|;
            && EncodeSequences(init) <= input && next == ip + |EncodeSequence(last)| <= |input|
            && input[ip..next] == EncodeSequence(last)
  {
    SecondPart(EncodeSequences(init), EncodeSequence(last), input);
  }

  lemma DecodeNext(init: Sequences, last: Sequence, input: seq<byte>, ip: nat, next: nat, n: nat)
    requires Valid(Append(init, last)) && next == ip + |EncodeSequence(last)| && next + 6 <= |input|
    requires input[ip..next] == EncodeSequence(last)
    requires Size(init) + |last.literals| <= n - MFLIMIT && Size(Append(init, last)) + LASTLITERALS <= n
    requires ComesTo(input, n, ip, Expand(init))
    ensures ComesTo(input, n, next, Expand(Append(init, last)))
  {
    DecodeSequence(input, ip, next, Expand(init), last, n);
  }

  /** Decoding an input that starts with encoded sequences expands them and goes on after them. */
  lemma {:induction false} DecodeSequences(ss: Sequences, input: seq<byte>, n: nat)
    requires Valid(ss) && StartsEarly(ss, n) && Size(ss) + LASTLITERALS <= n
    requires EncodeSequences(ss) <= input && |EncodeSequences(ss)| + 6 <= |input|
    ensures ComesTo(input, n, |EncodeSequences(ss)|, Expand(ss))
  {
    match ss
    case Empty =>
    case Append(init, last) =>
      SequenceAfter(init, last, input);
      DecodeSequences(init, input, n);
      DecodeNext(init, last, input, |EncodeSequences(init)|, |EncodeSequences(ss)|, n);
  }

  lemma DecodeBlock(ss: Sequences, last: seq<byte>, input: seq<byte>, n: nat)
    requires Valid(ss) && EndsLegally(ss, last) && n == Size(ss) + |last|
    requires input == EncodeBlock(ss, last)
    ensures Readable(input, 0)
    ensures DecodeFrom(input, 0, [], n - MFLIMIT, n) == Decoded(Expand(ss) + last)
  {
    var ip := |EncodeSequences(ss)|;
    assert input[ip..] == EncodeLiterals(last, 0);
    if ss.Append? {
      DecodeSequences(ss, input, n);
    }
    DecodeLastLiterals(input, ip, Expand(ss), last, n);
  }

  /** Parser and printer are inverse: decoding the bytes of a legal block yields the data it stands for. */
  lemma DecodeInvertsEncode(ss: Sequences, last: seq<byte>, n: nat)
    requires Valid(ss) && EndsLegally(ss, last) && n == |Expand(ss)| + |last|
    ensures Readable(EncodeBlock(ss, last), 0)
    ensures Decode(EncodeBlock(ss, last), n, n) == Decoded(Expand(ss) + last)
  {
    var input := EncodeBlock(ss, last);
    DecodeBlock(ss, last, input, n);
    if n == 0 {
      assert input == [0];
    }
  }

  // ----- The decoder that copies whole words -----

  /** One eight-byte store of eight bytes loaded beforehand. */
  method Copy8(dest: array<byte>, d: nat, s: nat)
    requires s + 8 <= dest.Length && d + 8 <= dest.Length
    modifies dest
    ensures forall k :: 0 <= k < dest.Length ==>
              dest[k] == if d <= k < d + 8 then old(dest[k - d + s]) else old(dest[k])
  {
    dest[d], dest[d + 1], dest[d + 2], dest[d + 3], dest[d + 4], dest[d + 5], dest[d + 6], dest[d + 7] :=
      dest[s], dest[s + 1], dest[s + 2], dest[s + 3], dest[s + 4], dest[s + 5], dest[s + 6], dest[s + 7];
  }

  /** The wild copy: eight bytes at a time until d reaches e, which may overshoot by up to seven. */
  method WildCopy(dest: array<byte>, d0: nat, s0: nat, e: nat) returns (d: nat)
    requires s0 < d0 && e + 7 <= dest.Length && d0 + 8 <= dest.Length
    modifies dest
    ensures e <= d && d0 < d && (d < e + 8 || d == d0 + 8) && d <= dest.Length
    ensures forall k :: 0 <= k < d0 ==> dest[k] == old(dest[k])
    ensures 8 <= d0 - s0 ==> forall k :: d0 <= k < d ==> dest[k] == dest[k - (d0 - s0)]
  {
    d := d0;
    var s := s0;
    var first := true;
    while first || d < e
      invariant d - s == d0 - s0 && d0 <= d && (first <==> d == d0)
      invariant d < e + 8 || d == d0 + 8 || d == d0
      invariant d + (if first || d < e then 8 else 0) <= dest.Length
      invariant forall k :: 0 <= k < d0 ==> dest[k] == old(dest[k])
      invariant 8 <= d0 - s0 ==> forall k :: d0 <= k < d ==> dest[k] == dest[k - (d0 - s0)]
      decreases if first then 1 else 0, if d < e then e - d else 0
    {
      Copy8(dest, d, s);
      d, s, first := d + 8, s + 8, false;
    }
  }

  /** The step back that keeps the period when the copy goes on in words: a multiple of the offset, at least 8. */
  function WordDistance(offset: nat): (d: nat)
  {
    if 8 <= offset then offset
    else if offset == 0 then 4
    else if offset == 3 then 9
    else if offset == 5 then 10
    else if offset == 6 then 12
    else if offset == 7 then 14
    else 8
  }

  /** Going back m periods from a position gives the same byte as going back one. */
  lemma {:induction false} PeriodChain(s: seq<byte>, lo: int, k: int, period: int, m: nat)
    requires 1 <= m && 1 <= period <= lo && k < |s|
    requires lo <= k - (m - 1) * period
    requires Periodic(s, lo, k, period)
    ensures 0 <= k - m * period && s[k - m * period] == s[k - period]
    decreases m
  {
    if m > 1 {
      assert k - (m - 1) * period == k - (m - 2) * period - period;
      PeriodChain(s, lo, k, period, m - 1);
      var j := k - (m - 1) * period;
      PeriodicAt(s, lo, k, period, j);
      assert j - period == k - m * period;
    }
  }

  /** Eight periodic bytes followed by copies from WordDistance back are periodic throughout. */
  lemma {:induction false} WordCopyIsPeriodic(s: seq<byte>, lo: int, hi: int, offset: nat)
    requires 1 <= offset <= lo && lo + 8 <= hi <= |s|
    requires Periodic(s, lo, lo + 8, offset)
    requires forall k :: lo + 8 <= k < hi ==> s[k] == s[k - WordDistance(offset)]
    ensures Periodic(s, lo, hi, offset)
    decreases hi
  {
    if lo + 8 < hi {
      WordCopyIsPeriodic(s, lo, hi - 1, offset);
      WordBack(s, lo, hi - 1, offset);
      PeriodicSnoc(s, lo, hi, offset);
    }
  }

  /**
   * The distance of words is a number of periods, so going back that far gives the same byte as going back
   * one period.
   */
  lemma WordBack(s: seq<byte>, lo: int, k: int, offset: nat)
    requires 1 <= offset <= lo && lo + 8 <= k < |s| && Periodic(s, lo, k, offset)
    ensures 0 <= k - WordDistance(offset) && s[k - WordDistance(offset)] == s[k - offset]
  {
    var m := if 8 <= offset then 1 else if offset == 1 then 8 else if offset == 2 then 4
             else if offset == 3 then 3 else 2;
    assert WordDistance(offset) == m * offset && (m - 1) * offset <= 8;
    PeriodChain(s, lo, k, offset, m);
  }

  lemma PeriodicUpTo(s: seq<byte>, lo: int, mid: int, hi: int, offset: nat)
    requires 1 <= offset <= lo <= hi <= |s| && mid == lo + 8 <= |s|
    requires Periodic(s, lo, mid, offset)
    requires forall k :: mid <= k < hi ==> s[k] == s[k - WordDistance(offset)]
    ensures Periodic(s, lo, hi, offset)
  {
    if mid <= hi {
      WordCopyIsPeriodic(s, lo, hi, offset);
    } else {
      assert s[lo..hi] == s[lo..mid][..hi - lo];
      assert s[lo - offset..hi - offset] == s[lo - offset..mid - offset][..hi - lo];
    }
  }

  const DEC32TABLE: seq<int> := [4, 1, 2, 1, 4, 4, 4, 4]
  const DEC64TABLE: seq<int> := [0, 0, 0, -1, 0, 1, 2, 3]

  /** The first four bytes of a match, one at a time. */
  method StartBytes(dest: array<byte>, op: nat, ref: nat)
    requires ref <= op && op + 4 <= dest.Length
    modifies dest
    ensures forall k :: 0 <= k < dest.Length && !(op <= k < op + 4) ==> dest[k] == old(dest[k])
    ensures forall k :: op <= k < op + 4 ==> dest[k] == dest[k - (op - ref)]
  {
    dest[op] := dest[ref];
    dest[op + 1] := dest[ref + 1];
    dest[op + 2] := dest[ref + 2];
    dest[op + 3] := dest[ref + 3];
    forall k | op <= k < op + 4
      ensures dest[k] == dest[k - (op - ref)]
    {
      assert k == op || k == op + 1 || k == op + 2 || k == op + 3;
    }
  }

  /** One four-byte store of four bytes loaded beforehand. */
  method Copy4(dest: array<byte>, d: nat, s: nat)
    requires s + 4 <= dest.Length && d + 4 <= dest.Length
    modifies dest
    ensures forall k :: 0 <= k < dest.Length ==>
              dest[k] == if d <= k < d + 4 then old(dest[k - d + s]) else old(dest[k])
  {
    dest[d], dest[d + 1], dest[d + 2], dest[d + 3] := dest[s], dest[s + 1], dest[s + 2], dest[s + 3];
  }

  /** For each short offset, the table points at bytes a whole number of periods before the word they fill. */
  lemma ShortStart(s: seq<byte>, op: nat, offset: nat)
    requires 1 <= offset < 8 && offset <= op && op + 8 <= |s|
    requires forall k :: op <= k < op + 4 ==> s[k] == s[k - offset]
    requires forall k :: op + 4 <= k < op + 8 ==> s[k] == s[k - 4 - offset + DEC32TABLE[offset]]
    ensures Periodic(s, op, op + 8, offset)
  {
    forall k | op + 4 <= k < op + 8
      ensures s[k] == s[k - offset]
    {
      assert k == op + 4 || k == op + 5 || k == op + 6 || k == op + 7;
      if offset == 1 {
        assert s[op] == s[op + 1] == s[op + 2] == s[op + 3] == s[op - 1];
        assert s[op + 4] == s[op] && s[op + 5] == s[op + 1] && s[op + 6] == s[op + 2] && s[op + 7] == s[op + 3];
      } else if offset == 2 {
        assert s[op + 2] == s[op] && s[op + 3] == s[op + 1];
        assert s[op + 4] == s[op] && s[op + 5] == s[op + 1] && s[op + 6] == s[op + 2] && s[op + 7] == s[op + 3];
      } else if offset == 3 {
        assert s[op + 1] == s[op - 2] && s[op + 2] == s[op - 1] && s[op + 3] == s[op];
        assert s[op + 4] == s[op - 2] && s[op + 5] == s[op - 1] && s[op + 6] == s[op] && s[op + 7] == s[op + 1];
      }
    }
    PeriodicFrom(s, op, op + 8, offset);
  }

  /** The first eight bytes of a match: single bytes and a table-adjusted word for short offsets. */
  method StartMatch(dest: array<byte>, op0: nat, offset: nat) returns (op: nat, ref: nat)
    requires offset <= op0 && op0 + 8 <= dest.Length
    modifies dest
    ensures op == op0 + 8 && ref == op - WordDistance(offset)
    ensures forall k :: 0 <= k < op0 ==> dest[k] == old(dest[k])
    ensures 1 <= offset ==> Periodic(dest[..], op0, op0 + 8, offset)
  {
    op, ref := op0, op0 - offset;
    if offset < 8 {
      StartBytes(dest, op, ref);
      ref := ref + DEC32TABLE[offset];
      Copy4(dest, op + 4, ref);
      if 1 <= offset {
        ShortStart(dest[..], op, offset);
      }
      op, ref := op + 8, ref - DEC64TABLE[offset];
    } else {
      Copy8(dest, op, ref);
      PeriodicFrom(dest[..], op, op + 8, offset);
      op, ref := op + 8, ref + 8;
    }
  }

  /** Copying from `distance` back, in words while there is room for them and then in bytes. */
  method FinishMatch(dest: array<byte>, op0: nat, ref0: nat, cpy: nat, oend: nat)
    requires ref0 < op0 && oend <= dest.Length
    requires op0 <= oend - 4 && cpy <= oend - LASTLITERALS
    requires op0 <= cpy + 4
    modifies dest
    ensures forall k :: 0 <= k < op0 ==> dest[k] == old(dest[k])
    ensures 8 <= op0 - ref0 ==> forall k :: op0 <= k < cpy ==> dest[k] == dest[k - (op0 - ref0)]
  {
    if cpy > oend - COPYLENGTH - 4 {
      var op, ref := op0, ref0;
      if op < oend - COPYLENGTH {
        op := WildCopy(dest, op0, ref0, oend - COPYLENGTH);
        ref := ref0 + (op - op0);
      }
      while op < cpy
        invariant op - ref == op0 - ref0 && op0 <= op <= dest.Length
        invariant forall k :: 0 <= k < op0 ==> dest[k] == old(dest[k])
        invariant 8 <= op0 - ref0 ==> forall k :: op0 <= k < op ==> dest[k] == dest[k - (op0 - ref0)]
      {
        dest[op] := dest[ref];
        op, ref := op + 1, ref + 1;
      }
    } else {
      var _ := WildCopy(dest, op0, ref0, cpy);
    }
  }

  /** Copying a match as the decoder does is copying it byte by byte, for every offset and length. */
  method CopyRepeated(dest: array<byte>, op0: nat, offset: nat, length: nat, oend: nat) returns (ok: bool)
    requires offset <= op0 <= oend - MFLIMIT && oend <= dest.Length
    modifies dest
    ensures ok <==> op0 + length + MINMATCH <= oend - LASTLITERALS
    ensures dest[..op0] == old(dest[..op0])
    ensures ok && 1 <= offset ==>
              dest[..op0 + length + MINMATCH] == CopyMatch(old(dest[..op0]), offset, length + MINMATCH)
  {
    var op, ref := StartMatch(dest, op0, offset);
    label started:
    var cpy := op + length - (8 - 4);
    if cpy > oend - LASTLITERALS {
      return false;
    }
    FinishMatch(dest, op, ref, cpy, oend);
    ok := true;
    if 1 <= offset {
      assert dest[..][..op] == old@started(dest[..])[..op];
      RepeatedIsCopy(old@started(dest[..]), dest[..], op0, cpy, offset, length + MINMATCH);
      assert dest[..][..cpy] == dest[..cpy] && dest[..][..op0] == old(dest[..op0]);
    }
  }

  /** Output that starts with a period, and goes on at the distance of words, is the copy byte by byte. */
  lemma RepeatedIsCopy(started: seq<byte>, s: seq<byte>, op: nat, end: nat, offset: nat, n: nat)
    requires Periodic(started, op, op + 8, offset) && op + 8 <= |s| && s[..op + 8] == started[..op + 8]
    requires end == op + n <= |s| && forall k :: op + 8 <= k < end ==> s[k] == s[k - WordDistance(offset)]
    ensures s[..end] == CopyMatch(s[..op], offset, n)
  {
    PeriodicStable(started, s, op, op + 8, offset);
    PeriodicUpTo(s, op, op + 8, end, offset);
    var t := s[..end];
    PeriodicPrefix(s, op, end, offset, end);
    assert t[..op] == s[..op];
    PeriodicIsCopyMatch(s[..op], offset, n, t);
  }

  // ----- The main loop -----

  method ReadRunLoop(input: seq<byte>, ip0: nat) returns (length: nat, ip: nat)
    requires ip0 < |input|
    ensures (length, ip) == ReadRun(input, ip0)
  {
    length, ip := input[ip0], ip0 + 1;
    var s := input[ip0];
    while ip < |input| - RUN_MASK && s == 255
      invariant ip0 < ip <= |input| && s == input[ip - 1] && s <= length
      invariant ReadRun(input, ip0) == (length - s + ReadRun(input, ip - 1).0, ReadRun(input, ip - 1).1)
    {
      s := input[ip];
      length, ip := length + s, ip + 1;
    }
  }

  method ReadMatchRunLoop(input: seq<byte>, ip0: nat) returns (r: MatchRun)
    requires ip0 <= |input|
    ensures r == ReadMatchRun(input, ip0)
  {
    var length: nat, ip: nat := 0, ip0;
    while true
      invariant ip0 <= ip <= |input|
      invariant var rest := ReadMatchRun(input, ip);
                ReadMatchRun(input, ip0) == if rest.MatchRun? then MatchRun(length + rest.length, rest.next) else rest
      decreases |input| - ip
    {
      if ip > |input| - LASTLITERALS {
        return TooFar(ip);
      }
      var s := input[ip];
      length, ip := length + s, ip + 1;
      if s != 255 {
        return MatchRun(length, ip);
      }
    }
  }

  method ReadLiteralRun(input: seq<byte>, ip0: nat) returns (length: nat, ip: nat)
    requires Readable(input, ip0)
    ensures (length, ip) == LiteralRun(input, ip0)
  {
    length, ip := input[ip0] / 16, ip0 + 1;
    if length == RUN_MASK {
      var more;
      more, ip := ReadRunLoop(input, ip);
      length := length + more;
    }
  }

  method ReadMatchLength(input: seq<byte>, token: byte, ip: nat) returns (r: MatchRun)
    requires ip <= |input|
    ensures r == MatchRunAfter(input, token, ip)
  {
    r := MatchRun(token % 16, ip);
    if r.length == ML_MASK {
      r := ReadMatchRunLoop(input, ip);
      if r.MatchRun? {
        r := MatchRun(ML_MASK + r.length, r.next);
      }
    }
  }

  /** The exact copy of literals out of the input. */
  method CopyExactly(input: seq<byte>, ip: nat, dest: array<byte>, op: nat, length: nat)
    requires ip + length <= |input| && op + length <= dest.Length
    modifies dest
    ensures dest[..op + length] == old(dest[..op]) + input[ip..ip + length]
  {
    for j := 0 to length
      invariant forall k :: 0 <= k < op ==> dest[k] == old(dest[k])
      invariant forall k :: op <= k < op + j ==> dest[k] == input[k - op + ip]
    {
      dest[op + j] := input[ip + j];
    }
    assert forall k :: 0 <= k < op ==> dest[..op + length][k] == old(dest[..op])[k];
  }

  /** The wild copy of literals out of the input. */
  method WildCopyLiterals(input: seq<byte>, ip: nat, dest: array<byte>, op: nat, length: nat)
    requires ip + length + 8 <= |input| && op + length + 8 <= dest.Length
    modifies dest
    ensures dest[..op + length] == old(dest[..op]) + input[ip..ip + length]
  {
    var i: nat := 0;
    var first := true;
    while first || i < length
      invariant (i < length + 8 || i == 8) && (first <==> i == 0)
      invariant forall k :: 0 <= k < op ==> dest[k] == old(dest[k])
      invariant forall k :: op <= k < op + i ==> dest[k] == input[k - op + ip]
      decreases if first then 1 else 0, length + 8 - i
    {
      for j := 0 to 8
        invariant forall k :: 0 <= k < op ==> dest[k] == old(dest[k])
        invariant forall k :: op <= k < op + i + j ==> dest[k] == input[k - op + ip]
      {
        dest[op + i + j] := input[ip + i + j];
      }
      i, first := i + 8, false;
    }
    assert forall k :: 0 <= k < op ==> dest[..op + length][k] == old(dest[..op])[k];
  }

  /** One match: a negative status is the error code, otherwise decoding goes on at ip' with op' bytes out. */
  method MatchStep(source: seq<byte>, token: byte, ip: nat, dest: array<byte>, op: nat, oexit: int, n: nat)
    returns (status: int, ip': nat, op': nat)
    requires ip <= |source| - 8 && op <= oexit <= n - MFLIMIT && n <= dest.Length
    modifies dest
    ensures 0 <= status ==> ip < ip' && Readable(source, ip') && op' <= n
    ensures var spec := DecodeMatchFrom(source, token, ip, old(dest[..op]), oexit, n);
            spec.OffsetZero? ||
            spec == if status < 0 then Malformed(-1 - status) else DecodeFrom(source, ip', dest[..op'], oexit, n)
  {
    ip', op' := ip, op;
    var offset: nat := source[ip] as int + 256 * (source[ip + 1] as int);
    if offset > op {
      status := -1 - (ip + 2);
      return;
    }
    var run := ReadMatchLength(source, token, ip + 2);
    if run.TooFar? {
      status := -1 - run.position;
      return;
    }
    status, ip', op' := RepeatStep(source, token, ip, dest, op, offset, run.length, run.next, oexit, n);
  }

  /** A match whose offset and length are read. */
  method RepeatStep(source: seq<byte>, token: byte, ip: nat, dest: array<byte>, op: nat, offset: nat, length: nat,
                    next: nat, oexit: int, n: nat)
    returns (status: int, ip': nat, op': nat)
    requires ip <= |source| - 8 && op <= oexit <= n - MFLIMIT && n <= dest.Length
    requires offset == ReadOffset(source, ip) <= op && MatchRunAfter(source, token, ip + 2) == MatchRun(length, next)
    modifies dest
    ensures 0 <= status ==> ip < ip' && Readable(source, ip') && op' <= n
    ensures var spec := DecodeMatchFrom(source, token, ip, old(dest[..op]), oexit, n);
            spec.OffsetZero? ||
            spec == if status < 0 then Malformed(-1 - status) else DecodeFrom(source, ip', dest[..op'], oexit, n)
  {
    var ok := CopyRepeated(dest, op, offset, length, n);
    ip', op' := next, op + length + MINMATCH;
    status := if ok then 0 else -1 - next;
  }

  /** What a step of the decoder reports. */
  datatype Step = Finished(ret: int) | Continue(ip: nat, op: nat)

  /** A step ends as the byte-by-byte decoder does, or leaves it the rest of the input. */
  ghost predicate Refines(step: Step, spec: Decoding, source: seq<byte>, out: seq<byte>, oexit: int, n: nat)
    requires oexit <= n - MFLIMIT
  {
    spec.OffsetZero? ||
    match step
    case Finished(ret) => if ret < 0 then spec == Malformed(-1 - ret) else spec == Decoded(out) && |out| == ret
    case Continue(ip, op) => Readable(source, ip) && |out| <= n && spec == DecodeFrom(source, ip, out, oexit, n)
  }

  /** One sequence: its literals, then its match unless the block ends. */
  method SequenceStep(source: seq<byte>, ip: nat, dest: array<byte>, op: nat, oexit: int, n: nat)
    returns (step: Step)
    requires Readable(source, ip) && op <= n && oexit <= n - MFLIMIT && n <= dest.Length
    modifies dest
    ensures step.Finished? ==> step.ret <= n
    ensures step.Continue? ==> ip < step.ip && Readable(source, step.ip) && step.op <= n
    ensures var spec := DecodeFrom(source, ip, old(dest[..op]), oexit, n);
            var op' := if step.Continue? then step.op else if step.ret < 0 then 0 else step.ret;
            Refines(step, spec, source, dest[..op'], oexit, n)
  {
    var length, ip1 := ReadLiteralRun(source, ip);
    if op + length > oexit || ip1 + length > |source| - (2 + 1 + LASTLITERALS) {
      if op + length > n || ip1 + length > |source| {
        return Finished(-1 - ip1);
      }
      CopyExactly(source, ip1, dest, op, length);
      return Finished(op + length);
    }
    WildCopyLiterals(source, ip1, dest, op, length);
    assert DecodeFrom(source, ip, old(dest[..op]), oexit, n)
        == DecodeMatchFrom(source, source[ip], ip1 + length, dest[..op + length], oexit, n);
    var status, ip', op' := MatchStep(source, source[ip], ip1 + length, dest, op + length, oexit, n);
    step := if status < 0 then Finished(status) else Continue(ip', op');
  }

  /**
   * LZ4_decompress_safe_partial. The two reads it does not check are those of the first token and of
   * the byte extending it, which Readable asks for.
   */
  method DecompressSafePartial(source: seq<byte>, dest: array<byte>, target: nat, n: nat) returns (ret: int)
    requires Readable(source, 0) && n <= dest.Length
    modifies dest
    ensures Decode(source, target, n).Decoded? ==>
              ret == |Decode(source, target, n).out| <= n && dest[..ret] == Decode(source, target, n).out
    ensures Decode(source, target, n).Malformed? ==> ret == -1 - Decode(source, target, n).position
  {
    if n == 0 {
      return if |source| == 1 && source[0] == 0 then 0 else -1;
    }
    var oexit := if target > n - MFLIMIT then n - MFLIMIT else target;
    ghost var spec := Decode(source, target, n);
    var step := Continue(0, 0);
    assert dest[..0] == [];
    while step.Continue?
      invariant step.Finished? ==> step.ret <= n
      invariant step.Continue? ==> Readable(source, step.ip) && step.op <= n
      invariant var op := if step.Continue? then step.op else if step.ret < 0 then 0 else step.ret;
                Refines(step, spec, source, dest[..op], oexit, n)
      decreases if step.Continue? then |source| - step.ip else -1
    {
      step := SequenceStep(source, step.ip, dest, step.op, oexit, n);
    }
    return step.ret;
  }
}
