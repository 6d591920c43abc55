/**
 * How the LZ4 compressor cuts its input into sequences, as a function of the input: where the search looks, which
 * match it takes, how far that reaches back and forth, and what is tried after it.
 */
module Lz4Parse {
  import opened Bytes
  import opened Lz4Format

  const MIN_LENGTH := MFLIMIT + 1
  const SKIPSTRENGTH := 64

  /** The two position tables in use: 16-bit entries for short inputs, 32-bit entries otherwise. */
  datatype TableType = ByU16 | ByU32

  function TableSize(t: TableType): nat { if t.ByU16? then 8192 else 4096 }

  function Width(t: TableType): nat { if t.ByU16? then 0x1_0000 else 0x1_0000_0000 }

  /** The little-endian word at a position. */
  function Read32(s: seq<byte>, p: nat): (v: nat)
    requires p + 4 <= |s|
  {
    LittleEndian(s[p..p + 4])
  }

  /** The multiplicative hash of a word, cut to the index bits of the table. */
  function Hash(s: seq<byte>, p: nat, t: TableType): (h: nat)
    requires p + 4 <= |s|
    ensures h < TableSize(t)
  {
    var product := (Read32(s, p) * 2654435761) % 0x1_0000_0000;
    if t.ByU16? then product / 0x8_0000 else product / 0x10_0000
  }

  lemma HashOfWord(s: seq<byte>, p: nat, v: nat, product: nat)
    requires p + 4 <= |s| && Read32(s, p) == v && (v * 2654435761) % 0x1_0000_0000 == product
    ensures Hash(s, p, ByU16) == product / 0x8_0000 && Hash(s, p, ByU32) == product / 0x10_0000
  {}

  lemma ReadPowers()
    ensures LittleEndian([1, 0, 0, 0]) == 1 && LittleEndian([0, 0, 1, 0]) == 0x1_0000
    ensures LittleEndian([0, 0, 0, 0x20]) == 0x2000_0000
  {}

  /** The hashes of some powers of two, which between them give all bits of the multiplier. */
  lemma HashOfPowers(s: seq<byte>, p: nat)
    requires p + 4 <= |s|
    ensures s[p..p + 4] == [1, 0, 0, 0] ==> Hash(s, p, ByU16) == 5062 && Hash(s, p, ByU32) == 2531
    ensures s[p..p + 4] == [0, 0, 1, 0] ==> Hash(s, p, ByU16) == 3894 && Hash(s, p, ByU32) == 1947
    ensures s[p..p + 4] == [0, 0, 0, 0x20] ==> Hash(s, p, ByU16) == 1024 && Hash(s, p, ByU32) == 512
  {
    ReadPowers();
    if s[p..p + 4] == [1, 0, 0, 0] {
      HashOfWord(s, p, 1, 0x9e37_79b1);
    } else if s[p..p + 4] == [0, 0, 1, 0] {
      HashOfWord(s, p, 0x1_0000, 0x79b1_0000);
    } else if s[p..p + 4] == [0, 0, 0, 0x20] {
      HashOfWord(s, p, 0x2000_0000, 0x2000_0000);
    }
  }

  type Table = seq<nat>

  /** A position is entered, in the width of the table. */
  function Put(s: seq<byte>, t: TableType, table: Table, p: nat): (r: Table)
    requires |table| == TableSize(t) && p + 4 <= |s|
    ensures |r| == |table|
  {
    table[Hash(s, p, t) := p % Width(t)]
  }

  // ----- The search -----

  /** How far the search goes on after it has failed j times: the step grows by one every 64 times. */
  function StepAfter(j: nat): (n: nat)
    ensures 1 <= n
  {
    if j == 0 then 1 else (SKIPSTRENGTH - 1 + j) / 64
  }

  /** Four equal bytes at an earlier position. */
  predicate Repeats(s: seq<byte>, ip: nat, ref: nat)
  {
    ref < ip && ip + MINMATCH <= |s| && s[ip..ip + MINMATCH] == s[ref..ref + MINMATCH]
  }

  /** What the search takes; with 16-bit entries nothing is too far back. */
  predicate Taken(s: seq<byte>, t: TableType, ip: nat, ref: nat)
  {
    Repeats(s, ip, ref) && (t.ByU32? ==> ip <= ref + MAX_DISTANCE)
  }

  datatype Search = NotFound | Found(ip: nat, ref: nat, table: Table)

  /** The search from a position that it reaches after it has failed j times. */
  function SearchFrom(s: seq<byte>, t: TableType, table: Table, ip: nat, j: nat): (r: Search)
    requires MIN_LENGTH <= |s| && |table| == TableSize(t) && ip <= |s| - MFLIMIT + 1
    ensures r.Found? ==> ip <= r.ip < |s| - MFLIMIT && Taken(s, t, r.ip, r.ref) && |r.table| == |table|
    decreases |s| - ip
  {
    if ip + StepAfter(j) > |s| - MFLIMIT then NotFound
    else if Taken(s, t, ip, table[Hash(s, ip, t)]) then Found(ip, table[Hash(s, ip, t)], Put(s, t, table, ip))
    else SearchFrom(s, t, Put(s, t, table, ip), ip + StepAfter(j), j + 1)
  }

  // ----- The match -----

  /** Catching up: as far back as the bytes before are equal, not past the anchor or the start. */
  function BackUp(s: seq<byte>, anchor: nat, ip: nat, ref: nat): (r: (nat, nat))
    requires anchor <= ip <= |s| && ref < ip
    ensures anchor <= r.0 <= ip && r.1 < r.0 && ip - r.0 == ref - r.1
    ensures r.0 == anchor || r.1 == 0 || s[r.0 - 1] != s[r.1 - 1]
    decreases ref
  {
    if ip > anchor && ref > 0 && s[ip - 1] == s[ref - 1] then BackUp(s, anchor, ip - 1, ref - 1) else (ip, ref)
  }

  /** How many bytes are equal from two positions on, up to a limit. */
  function Common(s: seq<byte>, p: nat, r: nat, limit: nat): (n: nat)
    requires r <= p <= limit <= |s|
    ensures p + n <= limit
    decreases limit - p
  {
    if p < limit && s[p] == s[r] then 1 + Common(s, p + 1, r + 1, limit) else 0
  }

  /** The end of a match. */
  function MatchEnd(s: seq<byte>, ip: nat, ref: nat): (end: nat)
    requires ref < ip && ip + MINMATCH + LASTLITERALS <= |s|
    ensures ip + MINMATCH <= end <= |s| - LASTLITERALS
  {
    ip + MINMATCH + Common(s, ip + MINMATCH, ref + MINMATCH, |s| - LASTLITERALS)
  }

  // ----- The sequences -----

  /** Where a search begins: the input before the anchor is cut, and the rest is long enough. */
  predicate Ready(s: seq<byte>, t: TableType, table: Table, anchor: nat)
  {
    MIN_LENGTH <= |s| && |table| == TableSize(t) && anchor + MFLIMIT <= |s|
  }

  /** The sequences that are cut from a search on. */
  function FromSearch(s: seq<byte>, t: TableType, table: Table, anchor: nat, ss: Sequences): Sequences
    requires Ready(s, t, table, anchor)
    decreases |s| - anchor, 1
  {
    match SearchFrom(s, t, table, anchor + 1, 0)
    case NotFound => ss
    case Found(hi, ref, table') =>
      var (ip, back) := BackUp(s, anchor, hi, ref);
      FromMatch(s, t, table', anchor, ip, back, ss)
  }

  /** The same from a match on. */
  function FromMatch(s: seq<byte>, t: TableType, table: Table, anchor: nat, ip: nat, ref: nat, ss: Sequences): Sequences
    requires |table| == TableSize(t) && anchor <= ip && ref < ip && ip + MFLIMIT <= |s|
    decreases |s| - anchor, 0
  {
    var end := MatchEnd(s, ip, ref);
    var cut := Append(ss, Sequence(s[anchor..ip], ip - ref, end - ip));
    if end > |s| - MFLIMIT then cut else AfterMatch(s, t, Put(s, t, table, end - 2), end, cut)
  }

  /** After a match the next position is entered, and tried at once. */
  function AfterMatch(s: seq<byte>, t: TableType, filled: Table, end: nat, ss: Sequences): Sequences
    requires Ready(s, t, filled, end)
    decreases |s| - end, 2
  {
    var next := filled[Hash(s, end, t)];
    if Repeats(s, end, next) && end <= next + MAX_DISTANCE then
      FromMatch(s, t, Put(s, t, filled, end), end, end, next, ss)
    else FromSearch(s, t, Put(s, t, filled, end), end, ss)
  }

  lemma FromMatchOn(s: seq<byte>, t: TableType, table: Table, anchor: nat, ip: nat, ref: nat, ss: Sequences, end: nat)
    requires |table| == TableSize(t) && anchor <= ip && ref < ip && ip + MFLIMIT <= |s|
    requires end == MatchEnd(s, ip, ref) <= |s| - MFLIMIT
    ensures FromMatch(s, t, table, anchor, ip, ref, ss)
         == AfterMatch(s, t, Put(s, t, table, end - 2), end, Append(ss, Sequence(s[anchor..ip], ip - ref, end - ip)))
  {}

  /** The table after the first position has been entered. */
  function FirstTable(s: seq<byte>, t: TableType): (table: Table)
    requires 4 <= |s|
    ensures |table| == TableSize(t)
  {
    Put(s, t, seq(TableSize(t), _ => 0), 0)
  }

  /** The sequences of an input; what they leave of it are its last literals. */
  function Parse(s: seq<byte>, t: TableType): Sequences
  {
    if |s| < MIN_LENGTH then Empty else FromSearch(s, t, FirstTable(s, t), 0, Empty)
  }

  // ----- What the search tries -----

  /** The position that the search tries after it has failed k times. */
  function Probe(start: nat, k: nat): nat
  {
    if k == 0 then start else Probe(start, k - 1) + StepAfter(k - 1)
  }

  /** The table that it finds there: each position tried has replaced the one with the same hash. */
  ghost function TableAt(s: seq<byte>, t: TableType, table: Table, start: nat, k: nat): (r: Table)
    requires |table| == TableSize(t) && Probe(start, k) + 4 <= |s|
    ensures |r| == |table|
  {
    if k == 0 then table else Put(s, t, TableAt(s, t, table, start, k - 1), Probe(start, k - 1))
  }

  /** A position is tried, for what the table has for its hash. */
  ghost predicate Tries(s: seq<byte>, t: TableType, table: Table, start: nat, k: nat, ref: nat)
  {
    && |table| == TableSize(t) && Probe(start, k + 1) <= |s| - MFLIMIT && Probe(start, k) + 4 <= |s|
    && ref == TableAt(s, t, table, start, k)[Hash(s, Probe(start, k), t)]
  }

  /** No position tried before the k-th is taken. */
  ghost predicate NoneTaken(s: seq<byte>, t: TableType, table: Table, start: nat, k: nat)
  {
    forall i: nat, ref: nat :: i < k && Tries(s, t, table, start, i, ref) ==> !Taken(s, t, Probe(start, i), ref)
  }

  lemma NoneTakenNext(s: seq<byte>, t: TableType, table: Table, start: nat, k: nat, ref: nat)
    requires NoneTaken(s, t, table, start, k) && Tries(s, t, table, start, k, ref)
    requires !Taken(s, t, Probe(start, k), ref)
    ensures NoneTaken(s, t, table, start, k + 1)
  {
    forall i: nat, r: nat | i < k + 1 && Tries(s, t, table, start, i, r)
      ensures !Taken(s, t, Probe(start, i), r)
    {
      if i < k {
        assert Tries(s, t, table, start, i, r);
      }
    }
  }

  /** One position of the search. */
  lemma SearchOne(s: seq<byte>, t: TableType, table: Table, ip: nat, j: nat, ref: nat)
    requires MIN_LENGTH <= |s| && |table| == TableSize(t) && ip + StepAfter(j) <= |s| - MFLIMIT
    requires ref == table[Hash(s, ip, t)]
    ensures SearchFrom(s, t, table, ip, j)
         == if Taken(s, t, ip, ref) then Found(ip, ref, Put(s, t, table, ip))
            else SearchFrom(s, t, Put(s, t, table, ip), ip + StepAfter(j), j + 1)
  {}

  lemma SearchNext(s: seq<byte>, t: TableType, table: Table, start: nat, k: nat, ref: nat, r: Search)
    requires MIN_LENGTH <= |s| && Tries(s, t, table, start, k, ref) && !Taken(s, t, Probe(start, k), ref)
    requires r == SearchFrom(s, t, TableAt(s, t, table, start, k), Probe(start, k), k)
    ensures r == SearchFrom(s, t, TableAt(s, t, table, start, k + 1), Probe(start, k + 1), k + 1)
  {
    SearchOne(s, t, TableAt(s, t, table, start, k), Probe(start, k), k, ref);
  }

  /**
   * The search takes the first position tried that can be taken, for any k after which it has not ended; and it ends
   * without only when the next position to be tried is too near to the end.
   */
  lemma {:induction false} SearchTakesFirst(s: seq<byte>, t: TableType, table: Table, start: nat, k: nat, r: Search)
    returns (last: nat)
    requires MIN_LENGTH <= |s| && |table| == TableSize(t) && Probe(start, k) <= |s| - MFLIMIT + 1
    requires NoneTaken(s, t, table, start, k)
    requires r == SearchFrom(s, t, TableAt(s, t, table, start, k), Probe(start, k), k)
    ensures NoneTaken(s, t, table, start, last)
    ensures r.NotFound? ==> Probe(start, last + 1) > |s| - MFLIMIT
    ensures r.Found? ==>
              r.ip == Probe(start, last) && Tries(s, t, table, start, last, r.ref) && Taken(s, t, r.ip, r.ref)
    decreases |s| - Probe(start, k)
  {
    var ip, at := Probe(start, k), TableAt(s, t, table, start, k);
    var ref := at[Hash(s, ip, t)];
    last := k;
    if ip + StepAfter(k) <= |s| - MFLIMIT {
      assert Tries(s, t, table, start, k, ref);
      if Taken(s, t, ip, ref) {
        SearchOne(s, t, at, ip, k, ref);
      } else {
        NoneTakenNext(s, t, table, start, k, ref);
        SearchNext(s, t, table, start, k, ref, r);
        last := SearchTakesFirst(s, t, table, start, k + 1, r);
      }
    }
  }

  lemma {:induction false} ProbeGrows(start: nat, j: nat, k: nat)
    requires j <= k
    ensures Probe(start, j) <= Probe(start, k)
    decreases k
  {
    if j < k {
      ProbeGrows(start, j, k - 1);
    }
  }

  /** A search that finds nothing has not passed over anything: no position on its way can be taken. */
  lemma SearchIsComplete(s: seq<byte>, t: TableType, table: Table, start: nat)
    requires MIN_LENGTH <= |s| && |table| == TableSize(t) && start <= |s| - MFLIMIT + 1
    requires SearchFrom(s, t, table, start, 0) == NotFound
    ensures forall k: nat, ref: nat :: Tries(s, t, table, start, k, ref) ==> !Taken(s, t, Probe(start, k), ref)
  {
    var last := SearchTakesFirst(s, t, table, start, 0, NotFound);
    forall k: nat, ref: nat | Tries(s, t, table, start, k, ref)
      ensures !Taken(s, t, Probe(start, k), ref)
    {
      if last <= k {
        ProbeGrows(start, last + 1, k + 1);
      }
    }
  }
}
