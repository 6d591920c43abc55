/** What compression makes of equal bytes: one literal, one match and the last literals, in one frame. */
module Lz4Runs {
  import opened Bytes
  import opened Lz4Format
  import opened Lz4Parse
  import opened Lz4Compressor
  import Stream

  ghost predicate AllEqual(s: seq<byte>)
  {
    forall i, j :: 0 <= i < |s| && 0 <= j < |s| ==> s[i] == s[j]
  }

  lemma {:induction false} CommonOfEqual(s: seq<byte>, p: nat, r: nat, limit: nat)
    requires AllEqual(s) && r <= p <= limit <= |s|
    ensures Common(s, p, r, limit) == limit - p
    decreases limit - p
  {
    if p < limit {
      CommonOfEqual(s, p + 1, r + 1, limit);
    }
  }

  /** The first position finds none but itself in the table. */
  lemma FirstIsFound(s: seq<byte>, t: TableType)
    requires AllEqual(s) && MIN_LENGTH < |s|
    ensures Taken(s, t, 1, 0) && FirstTable(s, t)[Hash(s, 1, t)] == 0
  {
    assert s[1..5] == s[0..4];
  }

  lemma SearchOfEqual(s: seq<byte>, t: TableType)
    requires AllEqual(s) && MIN_LENGTH < |s|
    ensures SearchFrom(s, t, FirstTable(s, t), 1, 0) == Found(1, 0, Put(s, t, FirstTable(s, t), 1))
  {
    FirstIsFound(s, t);
    SearchOne(s, t, FirstTable(s, t), 1, 0, 0);
  }

  lemma EndOfEqual(s: seq<byte>)
    requires AllEqual(s) && MIN_LENGTH < |s|
    ensures MatchEnd(s, 1, 0) == |s| - LASTLITERALS
  {
    CommonOfEqual(s, 5, 4, |s| - LASTLITERALS);
  }

  lemma LastMatch(s: seq<byte>, t: TableType, table: Table, anchor: nat, ip: nat, ref: nat, ss: Sequences, end: nat)
    requires |table| == TableSize(t) && anchor <= ip && ref < ip && ip + MFLIMIT <= |s|
    requires end == MatchEnd(s, ip, ref) > |s| - MFLIMIT
    ensures FromMatch(s, t, table, anchor, ip, ref, ss) == Append(ss, Sequence(s[anchor..ip], ip - ref, end - ip))
  {}

  /** The match reaches to the last five bytes. */
  lemma MatchOfEqual(s: seq<byte>, t: TableType, table: Table)
    requires AllEqual(s) && MIN_LENGTH < |s| && |table| == TableSize(t)
    ensures FromMatch(s, t, table, 0, 1, 0, Empty) == Append(Empty, Sequence(s[0..1], 1, |s| - 6))
  {
    EndOfEqual(s);
    LastMatch(s, t, table, 0, 1, 0, Empty, |s| - LASTLITERALS);
  }

  lemma ParseOfEqual(s: seq<byte>, t: TableType)
    requires AllEqual(s) && MIN_LENGTH < |s|
    ensures Parse(s, t) == Append(Empty, Sequence(s[0..1], 1, |s| - 6))
  {
    SearchOfEqual(s, t);
    assert BackUp(s, 0, 1, 0) == (1, 0);
    MatchOfEqual(s, t, Put(s, t, FirstTable(s, t), 1));
  }

  lemma SequenceSize(literal: seq<byte>, n: nat)
    requires |literal| == 1 && 14 <= n
    ensures |EncodeSequence(Sequence(literal, 1, n - 6))| == 4 + (n + 230) / 255
  {
    ExtensionSize(n - 10);
    assert |EncodeLiterals(literal, Nibble(n - 10))| == 2;
  }

  lemma OneSequence(literal: seq<byte>, n: nat)
    requires |literal| == 1 && 14 <= n
    ensures var ss := Append(Empty, Sequence(literal, 1, n - 6));
            Valid(ss) && Size(ss) == n - 5 && EncodeSequences(ss) == EncodeSequence(ss.last)
  {
    assert Valid(Empty) && Size(Empty) == 0 && EncodeSequences(Empty) == [];
  }

  /** The size of a block with one literal, one match and five last literals. */
  lemma BlockSize(literal: seq<byte>, n: nat, last: seq<byte>)
    requires |literal| == 1 && 14 <= n && |last| == 5 && Valid(Append(Empty, Sequence(literal, 1, n - 6)))
    ensures |EncodeBlock(Append(Empty, Sequence(literal, 1, n - 6)), last)| == 10 + (n + 230) / 255
  {
    OneSequence(literal, n);
    SequenceSize(literal, n);
    assert |EncodeLiterals(last, 0)| == 6;
  }

  lemma BlockOfEqual(s: seq<byte>, t: TableType, bytes: seq<byte>)
    requires AllEqual(s) && MIN_LENGTH < |s| && IsBlockOf(bytes, Parse(s, t), s)
    ensures |bytes| == 10 + (|s| + 230) / 255
  {
    ParseOfEqual(s, t);
    OneSequence(s[0..1], |s|);
    BlockSize(s[0..1], |s|, s[|s| - LASTLITERALS..]);
  }

  /** Equal bytes, fourteen or more, are compressed to ten bytes and one more for every 255 of them. */
  method CompressEqual(s: seq<byte>, dest: array<byte>, max: nat) returns (ret: nat)
    requires AllEqual(s) && 14 <= |s| <= MAX_INPUT_SIZE
    requires CompressBound(|s|) <= max && CompressBound(|s|) <= dest.Length
    modifies dest
    ensures ret == 10 + (|s| + 230) / 255
  {
    ret := CompressLimitedOutput(s, dest, max);
    BlockOfEqual(s, TableFor(|s|), dest[..ret]);
  }

  /** So a part of equal bytes is stored in a frame of that size and its header. */
  method FrameOfEqual(s: seq<byte>) returns (r: Option<seq<byte>>)
    requires AllEqual(s) && 14 <= |s| <= MAX_INPUT_SIZE
    ensures r.Some? && |r.value| == Stream.HEADER + 10 + (|s| + 230) / 255
  {
    r := Stream.Compress(s);
    ghost var block: seq<byte> :| Stream.FramedAs(r.value, block, s);
    BlockOfEqual(s, TableFor(|s|), block);
  }
}
