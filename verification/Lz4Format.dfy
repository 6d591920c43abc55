/**
 * The LZ4 block format: what a block is, the bytes it is written as, and the data it stands for.
 *
 * A block is a list of sequences (literals followed by a match) and a final run of literals. A match
 * repeats earlier output one byte at a time, so it may overlap the bytes it is producing.
 */
module Lz4Format {
  import opened Bytes

  const MINMATCH := 4
  const LASTLITERALS := 5
  const MFLIMIT := 12
  const RUN_MASK := 15
  const ML_MASK := 15
  const MAX_DISTANCE := 65535

  /** One sequence of a block: a run of literals, then a match of `matchLength` bytes `offset` back. */
  datatype Sequence = Sequence(literals: seq<byte>, offset: nat, matchLength: nat)

  // ----- Meaning: the data a list of sequences stands for -----

  /** Copying a match one byte at a time. */
  function CopyMatch(out: seq<byte>, offset: nat, n: nat): (r: seq<byte>)
    requires 1 <= offset <= |out|
    ensures |r| == |out| + n
    decreases n
  {
    if n == 0 then out
    else
      var copied := CopyMatch(out, offset, n - 1);
      copied + [copied[|copied| - offset]]
  }

  /** The sequences of a block, in the order they are written. */
  datatype Sequences = Empty | Append(init: Sequences, last: Sequence)

  /** The number of bytes a list of sequences expands to. */
  function Size(ss: Sequences): (n: nat)
  {
    match ss
    case Empty => 0
    case Append(init, last) => Size(init) + |last.literals| + last.matchLength
  }

  /** Every match is long enough, and refers inside what the block has produced by then. */
  predicate Valid(ss: Sequences)
  {
    match ss
    case Empty => true
    case Append(init, last) =>
      && Valid(init)
      && MINMATCH <= last.matchLength
      && 1 <= last.offset <= MAX_DISTANCE
      && last.offset <= Size(init) + |last.literals|
  }

  /** The data that a list of sequences stands for. */
  function Expand(ss: Sequences): (r: seq<byte>)
    requires Valid(ss)
    ensures |r| == Size(ss)
  {
    match ss
    case Empty => []
    case Append(init, last) => CopyMatch(Expand(init) + last.literals, last.offset, last.matchLength)
  }

  /** No match starts in the last twelve of n bytes. */
  predicate StartsEarly(ss: Sequences, n: nat)
  {
    match ss
    case Empty => true
    case Append(init, last) => StartsEarly(init, n) && Size(init) + |last.literals| + MFLIMIT <= n
  }

  /** The end-of-block restrictions: five final literals, and no match starting in the last twelve bytes. */
  predicate EndsLegally(ss: Sequences, last: seq<byte>)
  {
    ss.Append? ==> LASTLITERALS <= |last| && StartsEarly(ss, Size(ss) + |last|)
  }

  // ----- Encoding: the bytes of a block -----

  function LengthBytes(n: nat): (r: seq<byte>)
    ensures 1 <= |r|
  {
    if n >= 255 then [255] + LengthBytes(n - 255) else [n]
  }

  /** The bytes that extend a length which does not fit its four bits of the token. */
  function Extension(n: nat): (r: seq<byte>)
  {
    if n >= 15 then LengthBytes(n - 15) else []
  }

  /** How many bytes extend a length. */
  lemma {:induction false} ExtensionSize(n: nat)
    ensures |LengthBytes(n)| == n / 255 + 1
    ensures |Extension(n)| == (n + 240) / 255
    decreases n
  {
    if n >= 255 {
      ExtensionSize(n - 255);
    }
    if n >= 15 {
      ExtensionSize(n - 15);
    }
  }

  function Nibble(n: nat): (r: nat)
    ensures r <= 15
  {
    if n >= 15 then 15 else n
  }

  function EncodeLiterals(literals: seq<byte>, low: nat): (r: seq<byte>)
    requires low <= 15
  {
    [Nibble(|literals|) * 16 + low] + Extension(|literals|) + literals
  }

  /** The two little-endian bytes of an offset. */
  function OffsetBytes(offset: nat): (r: seq<byte>)
    requires offset <= MAX_DISTANCE
    ensures |r| == 2 && r[0] as int + 256 * (r[1] as int) == offset
  {
    [offset % 256, offset / 256]
  }

  function EncodeMatch(offset: nat, extra: nat): (r: seq<byte>)
    requires offset <= MAX_DISTANCE
  {
    OffsetBytes(offset) + Extension(extra)
  }

  function EncodeSequence(s: Sequence): (r: seq<byte>)
    requires s.offset <= MAX_DISTANCE && MINMATCH <= s.matchLength
  {
    var extra := s.matchLength - MINMATCH;
    EncodeLiterals(s.literals, Nibble(extra)) + EncodeMatch(s.offset, extra)
  }

  function EncodeSequences(ss: Sequences): (r: seq<byte>)
    requires Valid(ss)
  {
    match ss
    case Empty => []
    case Append(init, last) => EncodeSequences(init) + EncodeSequence(last)
  }

  function EncodeBlock(ss: Sequences, last: seq<byte>): (r: seq<byte>)
    requires Valid(ss)
  {
    EncodeSequences(ss) + EncodeLiterals(last, 0)
  }

  // ----- Facts about copying and about prefixes -----

  /** Any sequence that extends `out` periodically is the byte-by-byte copy. */
  lemma {:induction false} PeriodicIsCopyMatch(out: seq<byte>, offset: nat, n: nat, s: seq<byte>)
    requires 1 <= offset <= |out|
    requires |s| == |out| + n && s[..|out|] == out
    requires Periodic(s, |out|, |s|, offset)
    ensures s == CopyMatch(out, offset, n)
    decreases n
  {
    if n > 0 {
      var last := |s| - 1;
      var t := s[..last];
      assert t[..|out|] == out;
      PeriodicPrefix(s, |out|, |s|, offset, last);
      PeriodicIsCopyMatch(out, offset, n - 1, t);
      PeriodicAt(s, |out|, |s|, offset, last);
      assert s == t + [s[last]] && t[last - offset] == s[last - offset];
    } else {
      assert s == s[..|out|];
    }
  }
}
