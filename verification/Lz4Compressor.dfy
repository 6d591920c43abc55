/**
 * The LZ4 block compressor: a table of earlier positions, a search that skips ahead as it fails, and
 * sequences written as they are found. Its output is a legal block that stands for the input.
 */
module Lz4Compressor {
  import opened Bytes
  import opened Words
  import opened Lz4Format
  import opened Lz4Parse
  import Decoder = Lz4Decoder

  const MAX_INPUT_SIZE := 0x7E00_0000
  const LIMIT_64K := 64 * 1024 + (MFLIMIT - 1)

  /** The inputs that the compressor takes with a given table. */
  predicate Supported(n: nat, t: TableType)
  {
    n <= MAX_INPUT_SIZE && (t.ByU16? ==> n < LIMIT_64K)
  }

  /** The table that an input of some size is compressed with. */
  function TableFor(n: nat): TableType
  {
    if n < LIMIT_64K then ByU16 else ByU32
  }

  function CompressBound(n: nat): (r: nat)
  {
    if n > MAX_INPUT_SIZE then 0 else n + n / 255 + 16
  }

  // ----- The size of a block -----

  /** Encoding never grows the data by more than one byte in 255. */
  lemma {:induction false} EncodedSizeBound(ss: Sequences)
    requires Valid(ss)
    ensures |EncodeSequences(ss)| <= Size(ss) + Size(ss) / 255
  {
    match ss
    case Empty =>
    case Append(init, s) =>
      EncodedSizeBound(init);
      var l, m := |s.literals|, s.matchLength;
      ExtensionSize(l);
      ExtensionSize(m - 4);
      assert |EncodeSequence(s)| == 3 + l + (l + 240) / 255 + (m - 4 + 240) / 255;
  }

  // ----- The table -----

  /** Every position in the table lies before p. */
  ghost predicate TableBelow(table: seq<nat>, p: int)
  {
    forall h :: 0 <= h < |table| ==> table[h] < p
  }

  method PutPosition(table: array<nat>, h: nat, p: nat, t: TableType)
    requires h < table.Length
    modifies table
    ensures table[..] == old(table[..])[h := p % Width(t)]
  {
    table[h] := p % Width(t);
  }

  /** A position is entered in the table under its hash. */
  method EnterPosition(s: seq<byte>, table: array<nat>, t: TableType, p: nat)
    requires table.Length == TableSize(t) && p + 4 <= |s|
    modifies table
    ensures table[..] == Put(s, t, old(table[..]), p)
  {
    PutPosition(table, Hash(s, p, t), p, t);
  }

  lemma PutBelow(s: seq<byte>, t: TableType, table: seq<nat>, p: nat, q: nat)
    requires |table| == TableSize(t) && p + 4 <= |s| && p < q && TableBelow(table, q)
    ensures TableBelow(Put(s, t, table, p), q)
  {}

  // ----- Counting common bytes -----

  /** LZ4_NbCommonBytes: the whole bytes among the trailing zero bits of the exclusive or of two words. */
  function NbCommonBytes(diff: nat): (r: nat)
    requires 0 < diff
  {
    TrailingZeros(diff) / 8
  }

  /** One bit of the exclusive or. */
  lemma CommonBit(x: nat, y: nat)
    requires x != y
    ensures 0 < Xor(x, y)
    ensures if x % 2 == y % 2 then x / 2 != y / 2 && 0 < Xor(x / 2, y / 2)
            && TrailingZeros(Xor(x, y)) == 1 + TrailingZeros(Xor(x / 2, y / 2))
            else TrailingZeros(Xor(x, y)) == 0
  {
    XorIsZero(x, y);
    XorIsZero(x / 2, y / 2);
    XorHalves(x, y);
  }

  /** The low k bits of two words are the same. */
  predicate SameBits(x: nat, y: nat, k: nat)
  {
    k == 0 || (x % 2 == y % 2 && SameBits(x / 2, y / 2, k - 1))
  }

  lemma {:induction false} CommonBits(x: nat, y: nat, k: nat)
    requires x != y
    ensures 0 < Xor(x, y)
    ensures if SameBits(x, y, k) then
              Shr(x, k) != Shr(y, k) && 0 < Xor(Shr(x, k), Shr(y, k))
                && TrailingZeros(Xor(x, y)) == k + TrailingZeros(Xor(Shr(x, k), Shr(y, k)))
            else TrailingZeros(Xor(x, y)) < k
    decreases k
  {
    CommonBit(x, y);
    if k > 0 && x % 2 == y % 2 {
      CommonBits(x / 2, y / 2, k - 1);
    }
  }

  /** The low k bits of words in two parts are their low parts. */
  lemma {:induction false} LowBits(a: nat, u: nat, b: nat, v: nat, k: nat)
    requires a < Pow2(k) && b < Pow2(k)
    ensures SameBits(a + Shl(u, k), b + Shl(v, k), k) <==> a == b
    ensures Shr(a + Shl(u, k), k) == u
    decreases k
  {
    if k > 0 {
      var x, y := a + Shl(u, k), b + Shl(v, k);
      assert x % 2 == a % 2 && x / 2 == a / 2 + Shl(u, k - 1);
      assert y % 2 == b % 2 && y / 2 == b / 2 + Shl(v, k - 1);
      LowBits(a / 2, u, b / 2, v, k - 1);
    }
  }

  /** Eight bits are a byte. */
  lemma EightBits(x: nat, y: nat)
    ensures SameBits(x, y, 8) <==> x % 256 == y % 256
    ensures Shr(x, 8) == x / 256
  {
    Pow2Values();
    ShlValues(x / 256);
    ShlValues(y / 256);
    LowBits(x % 256, x / 256, y % 256, y / 256, 8);
  }

  /** One byte of two words. */
  lemma CommonByte(x: nat, y: nat)
    requires x != y
    ensures 0 < Xor(x, y)
    ensures if x % 256 == y % 256 then x / 256 != y / 256 && 0 < Xor(x / 256, y / 256)
            && NbCommonBytes(Xor(x, y)) == 1 + NbCommonBytes(Xor(x / 256, y / 256))
            else NbCommonBytes(Xor(x, y)) == 0
  {
    EightBits(x, y);
    EightBits(y, x);
    CommonBits(x, y, 8);
  }

  /** Two words of the same size differ first at the byte that the count of common bytes gives. */
  lemma {:induction false} NbCommonBytesIsFirstDifference(a: seq<byte>, b: seq<byte>)
    requires |a| == |b|
    ensures Xor(LittleEndian(a), LittleEndian(b)) == 0 <==> a == b
    ensures LittleEndian(a) == LittleEndian(b) <==> a == b
    ensures a != b ==>
              var k := NbCommonBytes(Xor(LittleEndian(a), LittleEndian(b)));
              k < |a| && a[..k] == b[..k] && a[k] != b[k]
    decreases |a|
  {
    XorIsZero(LittleEndian(a), LittleEndian(b));
    if a != [] {
      NbCommonBytesIsFirstDifference(a[1..], b[1..]);
      var x, y := LittleEndian(a), LittleEndian(b);
      assert x % 256 == a[0] && x / 256 == LittleEndian(a[1..]);
      assert y % 256 == b[0] && y / 256 == LittleEndian(b[1..]);
      assert a == [a[0]] + a[1..] && b == [b[0]] + b[1..];
      if x != y {
        CommonByte(x, y);
      }
      if a[0] == b[0] && a[1..] != b[1..] {
        var k := NbCommonBytes(Xor(LittleEndian(a[1..]), LittleEndian(b[1..])));
        assert a[..k + 1] == [a[0]] + a[1..][..k] && b[..k + 1] == [b[0]] + b[1..][..k];
      }
    }
  }

  /** The first m bytes at the two positions are the same. */
  ghost predicate Same(s: seq<byte>, p: nat, r: nat, m: nat)
    decreases m
  {
    r <= p && p + m <= |s| && (m > 0 ==> Same(s, p, r, m - 1) && s[p + m - 1] == s[r + m - 1])
  }

  lemma {:induction false} SameSlices(s: seq<byte>, p: nat, r: nat, m: nat)
    requires r <= p && p + m <= |s|
    ensures Same(s, p, r, m) <==> s[p..p + m] == s[r..r + m]
    decreases m
  {
    if m > 0 {
      SameSlices(s, p, r, m - 1);
      SliceEnds(s, p, p + m);
      SliceEnds(s, r, r + m);
      EqualEnds(s[p..p + m - 1], s[p + m - 1], s[r..r + m - 1], s[r + m - 1]);
    }
  }

  lemma SliceEnds(s: seq<byte>, lo: nat, hi: nat)
    requires lo < hi <= |s|
    ensures s[lo..hi] == s[lo..hi - 1] + [s[hi - 1]]
  {}

  lemma EqualEnds(a: seq<byte>, x: byte, b: seq<byte>, y: byte)
    ensures a + [x] == b + [y] <==> a == b && x == y
  {
    if a + [x] == b + [y] {
      assert (a + [x])[|a|] == (b + [y])[|b|] && (a + [x])[..|a|] == (b + [y])[..|b|];
    }
  }

  lemma {:induction false} SameAppend(s: seq<byte>, p: nat, r: nat, m: nat, k: nat)
    requires Same(s, p, r, m) && Same(s, p + m, r + m, k)
    ensures Same(s, p, r, m + k)
    decreases k
  {
    if k > 0 {
      SameAppend(s, p, r, m, k - 1);
    }
  }

  /** A run that is exact cannot be shorter than one that agrees. */
  lemma {:induction false} SameAt(s: seq<byte>, p: nat, r: nat, m: nat, k: nat)
    requires Same(s, p, r, m) && k < m
    ensures s[p + k] == s[r + k]
    decreases m
  {
    if k < m - 1 {
      SameAt(s, p, r, m - 1, k);
    }
  }

  /** Eight bytes at once: how many of them agree before the first that does not. */
  method CompareWords(s: seq<byte>, p: nat, r: nat) returns (k: nat)
    requires r <= p && p + 8 <= |s|
    ensures k <= 8 && Same(s, p, r, k)
    ensures k < 8 ==> s[p + k] != s[r + k]
  {
    var a, b := s[p..p + 8], s[r..r + 8];
    NbCommonBytesIsFirstDifference(a, b);
    var diff := Xor(LittleEndian(a), LittleEndian(b));
    if diff == 0 {
      SameSlices(s, p, r, 8);
      return 8;
    }
    k := NbCommonBytes(diff);
    SameFromWords(s, p, r, a, b, k);
  }

  lemma SameFromWords(s: seq<byte>, p: nat, r: nat, a: seq<byte>, b: seq<byte>, k: nat)
    requires r <= p && p + 8 <= |s| && a == s[p..p + 8] && b == s[r..r + 8] && k < 8 && a[..k] == b[..k] && a[k] != b[k]
    ensures Same(s, p, r, k) && s[p + k] != s[r + k]
  {
    assert s[p..p + k] == a[..k] && s[r..r + k] == b[..k];
    SameSlices(s, p, r, k);
  }

  method CompareHalfWords(s: seq<byte>, p: nat, r: nat) returns (equal: bool)
    requires r <= p && p + 4 <= |s|
    ensures equal <==> Same(s, p, r, 4)
  {
    NbCommonBytesIsFirstDifference(s[r..r + 4], s[p..p + 4]);
    SameSlices(s, p, r, 4);
    equal := Read32(s, r) == Read32(s, p);
  }

  /** LZ4_count: the exact length of the common run, found in words of 8, 4, 2 and 1 bytes. */
  method Count(s: seq<byte>, p0: nat, r0: nat, limit: nat) returns (m: nat)
    requires r0 <= p0 <= limit <= |s|
    ensures p0 + m <= limit && Same(s, p0, r0, m)
    ensures p0 + m < limit ==> s[p0 + m] != s[r0 + m]
  {
    m := 0;
    while p0 + m < limit - 7
      invariant p0 + m <= limit && Same(s, p0, r0, m)
    {
      var k := CompareWords(s, p0 + m, r0 + m);
      SameAppend(s, p0, r0, m, k);
      if k < 8 {
        return m + k;
      }
      m := m + 8;
    }
    var k := CountTail(s, p0 + m, r0 + m, limit - (p0 + m));
    SameAppend(s, p0, r0, m, k);
    m := m + k;
  }

  /** The last tests of Count, with fewer than eight bytes to go: four, two and one byte. */
  method CountTail(s: seq<byte>, p: nat, r: nat, left: nat) returns (m: nat)
    requires r <= p && p + left <= |s| && left < 8
    ensures m <= left && Same(s, p, r, m)
    ensures m < left ==> s[p + m] != s[r + m]
  {
    m := 0;
    if m < left - 3 {
      var equal := CompareHalfWords(s, p, r);
      if equal {
        m := m + 4;
      }
    }
    assert m + 4 <= left ==> m == 0 && !Same(s, p, r, 4);
    if m < left - 1 && s[r + m] == s[p + m] && s[r + m + 1] == s[p + m + 1] {
      assert Same(s, p, r, m + 1);
      m := m + 2;
    }
    if m < left && s[r + m] == s[p + m] {
      m := m + 1;
    }
  }

  // ----- Finding a match -----

  /** A usable match: four equal bytes at an earlier position no more than MAX_DISTANCE back. */
  ghost predicate MatchAt(s: seq<byte>, ip: nat, ref: nat)
  {
    ref < ip && ip - ref <= MAX_DISTANCE && Same(s, ip, ref, MINMATCH)
  }

  lemma SameRepeats(s: seq<byte>, ip: nat, ref: nat)
    requires ref < ip && ip + MINMATCH <= |s|
    ensures Repeats(s, ip, ref) <==> Same(s, ip, ref, MINMATCH)
  {
    SameSlices(s, ip, ref, MINMATCH);
  }

  /** One position of the search: the table is read and written, and what it had is tested. */
  method TryPosition(s: seq<byte>, table: array<nat>, t: TableType, ip: nat, h: nat) returns (found: bool, ref: nat)
    requires Supported(|s|, t) && MIN_LENGTH <= |s| && ip < |s| - MFLIMIT && h == Hash(s, ip, t)
    requires table.Length == TableSize(t) && TableBelow(table[..], ip)
    modifies table
    ensures ref == old(table[..])[Hash(s, ip, t)] && table[..] == Put(s, t, old(table[..]), ip)
    ensures TableBelow(table[..], ip + 1) && ref < ip
    ensures found <==> Taken(s, t, ip, ref)
  {
    ref := table[h];
    assert ref == table[..][h];
    PutPosition(table, h, ip, t);
    assert ip % Width(t) == ip;
    SameRepeats(s, ip, ref);
    found := false;
    if t.ByU16? || ref + MAX_DISTANCE >= ip {
      found := CompareHalfWords(s, ip, ref);
    }
  }

  /** What a search is going to find, from a table and a position that it has reached after so many failures. */
  type Searcher = (seq<nat>, nat, nat) -> Search

  ghost predicate IsSearch(search: Searcher, s: seq<byte>, t: TableType)
    requires MIN_LENGTH <= |s|
  {
    forall table: seq<nat>, ip: nat, j: nat {:trigger SearchFrom(s, t, table, ip, j)} ::
      |table| == TableSize(t) && ip <= |s| - MFLIMIT + 1 ==> search(table, ip, j) == SearchFrom(s, t, table, ip, j)
  }

  lemma SearchMoves(search: Searcher, s: seq<byte>, t: TableType, table: seq<nat>, ip: nat, j: nat, ref: nat,
                    table': seq<nat>)
    requires MIN_LENGTH <= |s| && IsSearch(search, s, t) && |table| == TableSize(t)
    requires ip + StepAfter(j) <= |s| - MFLIMIT && ref == table[Hash(s, ip, t)] && table' == Put(s, t, table, ip)
    ensures if Taken(s, t, ip, ref) then Finds(search(table, ip, j), true, ip, ref, table')
            else search(table, ip, j) == search(table', ip + StepAfter(j), j + 1)
  {
    SearchOne(s, t, table, ip, j, ref);
  }

  lemma SearchStops(search: Searcher, s: seq<byte>, t: TableType, table: seq<nat>, ip: nat, j: nat)
    requires MIN_LENGTH <= |s| && IsSearch(search, s, t) && |table| == TableSize(t)
    requires ip <= |s| - MFLIMIT + 1 && ip + StepAfter(j) > |s| - MFLIMIT
    ensures search(table, ip, j) == NotFound
  {
    assert SearchFrom(s, t, table, ip, j) == NotFound;
  }

  /** What the search finds. */
  ghost predicate Finds(r: Search, found: bool, ip: nat, ref: nat, table: seq<nat>)
  {
    r == if found then Found(ip, ref, table) else NotFound
  }

  /** One step of a search that is under way. */
  method SearchStep(s: seq<byte>, table: array<nat>, t: TableType, ip: nat, h: nat, ghost j: nat,
                    ghost search: Searcher)
    returns (found: bool, ref: nat)
    requires Supported(|s|, t) && MIN_LENGTH <= |s| && ip + StepAfter(j) <= |s| - MFLIMIT && IsSearch(search, s, t)
    requires table.Length == TableSize(t) && TableBelow(table[..], ip) && h == Hash(s, ip, t)
    modifies table
    ensures TableBelow(table[..], ip + 1)
    ensures if found then MatchAt(s, ip, ref) && Finds(search(old(table[..]), ip, j), true, ip, ref, table[..])
            else search(table[..], ip + StepAfter(j), j + 1) == search(old(table[..]), ip, j)
  {
    ghost var before := table[..];
    found, ref := TryPosition(s, table, t, ip, h);
    SearchMoves(search, s, t, before, ip, j, ref, table[..]);
    SameRepeats(s, ip, ref);
  }

  /** The loop of the search. */
  method SearchLoop(s: seq<byte>, table: array<nat>, t: TableType, start: nat, ghost search: Searcher)
    returns (found: bool, ip: nat, ref: nat)
    requires Supported(|s|, t) && MIN_LENGTH <= |s| && start <= |s| - MFLIMIT + 1 && IsSearch(search, s, t)
    requires table.Length == TableSize(t) && TableBelow(table[..], start)
    modifies table
    ensures Finds(search(old(table[..]), start, 0), found, ip, ref, table[..])
    ensures found ==> start <= ip < |s| - MFLIMIT && MatchAt(s, ip, ref) && TableBelow(table[..], ip + 1)
  {
    var forwardIp: nat, step: nat, searchMatchNb: nat := start, 1, SKIPSTRENGTH;
    var forwardH: nat := Hash(s, forwardIp, t);
    ghost var j: nat := 0;
    while true
      invariant start <= forwardIp <= |s| - MFLIMIT + 1 && step == StepAfter(j) && searchMatchNb == SKIPSTRENGTH + j
      invariant forwardH == Hash(s, forwardIp, t)
      invariant TableBelow(table[..], forwardIp) && search(table[..], forwardIp, j) == search(old(table[..]), start, 0)
      decreases |s| - forwardIp
    {
      var h := forwardH;
      ip := forwardIp;
      forwardIp := forwardIp + step;
      step, searchMatchNb := searchMatchNb / 64, searchMatchNb + 1;
      if forwardIp > |s| - MFLIMIT {
        SearchStops(search, s, t, table[..], ip, j);
        return false, ip, 0;
      }
      forwardH := Hash(s, forwardIp, t);
      found, ref := SearchStep(s, table, t, ip, h, j, search);
      if found {
        return true, ip, ref;
      }
      j := j + 1;
    }
  }

  /** The search, which takes longer steps the longer it fails. */
  method FindMatch(s: seq<byte>, table: array<nat>, t: TableType, start: nat) returns (found: bool, ip: nat, ref: nat)
    requires Supported(|s|, t) && MIN_LENGTH <= |s| && start <= |s| - MFLIMIT + 1
    requires table.Length == TableSize(t) && TableBelow(table[..], start)
    modifies table
    ensures Finds(SearchFrom(s, t, old(table[..]), start, 0), found, ip, ref, table[..])
    ensures found ==> start <= ip < |s| - MFLIMIT && MatchAt(s, ip, ref) && TableBelow(table[..], ip + 1)
  {
    ghost var search := (table: seq<nat>, ip: nat, j: nat) =>
      if |table| == TableSize(t) && ip <= |s| - MFLIMIT + 1 then SearchFrom(s, t, table, ip, j) else NotFound;
    found, ip, ref := SearchLoop(s, table, t, start, search);
  }

  /** Catching up: a match is extended backwards over the literals before it. */
  method CatchUp(s: seq<byte>, anchor: nat, ip0: nat, ref0: nat) returns (ip: nat, ref: nat)
    requires anchor <= ip0 && MatchAt(s, ip0, ref0)
    ensures (ip, ref) == BackUp(s, anchor, ip0, ref0) && anchor <= ip <= ip0 && ip0 - ip == ref0 - ref
    ensures MatchAt(s, ip, ref) && Same(s, ip, ref, ip0 - ip + MINMATCH)
  {
    ip, ref := ip0, ref0;
    while ip > anchor && ref > 0 && s[ip - 1] == s[ref - 1]
      invariant anchor <= ip <= ip0 && ip0 - ip == ref0 - ref
      invariant MatchAt(s, ip, ref) && Same(s, ip, ref, ip0 - ip + MINMATCH)
      invariant BackUp(s, anchor, ip, ref) == BackUp(s, anchor, ip0, ref0)
    {
      assert Same(s, ip - 1, ref - 1, 0);
      SameAppend(s, ip - 1, ref - 1, 1, ip0 - ip + MINMATCH);
      SameAppend(s, ip - 1, ref - 1, 1, MINMATCH - 1);
      ip, ref := ip - 1, ref - 1;
    }
  }

  // ----- Writing a sequence -----

  /** The bytes of dest from op to op' are `bytes`, and those before op are unchanged. */
  twostate predicate Wrote(dest: array<byte>, op: nat, op': nat, bytes: seq<byte>)
    reads dest
  {
    op + |bytes| == op' <= dest.Length && dest[..op'] == old(dest[..op]) + bytes
  }

  /** Length bytes are all 255 but the last. */
  lemma {:induction false} LengthBytesForm(n: nat, q: nat, r: nat, s: seq<byte>)
    requires n == 255 * q + r && r < 255
    requires |s| == q + 1 && s[q] == r
    requires forall k :: 0 <= k < q ==> s[k] == 255
    ensures s == LengthBytes(n)
    decreases q
  {
    if q > 0 {
      LengthBytesForm(n - 255, q - 1, r, s[1..]);
      assert s == [255] + s[1..];
    }
  }

  /** The byte below 255 that ends a length whose other bytes are out. */
  method WriteLastLengthByte(dest: array<byte>, op0: nat, op: nat, ghost n: nat, len: byte)
    requires op0 <= op < dest.Length && len < 255 && n == 255 * (op - op0) + len
    requires forall k :: op0 <= k < op ==> dest[k] == 255
    modifies dest
    ensures dest[..op + 1] == old(dest[..op0]) + LengthBytes(n)
  {
    dest[op] := len;
    LengthBytesForm(n, op - op0, len, dest[op0..op + 1]);
    assert dest[..op + 1] == dest[..op0] + dest[op0..op + 1];
    assert dest[..op0] == old(dest[..op0]);
  }

  method WriteLength(dest: array<byte>, op0: nat, n: nat) returns (op: nat)
    requires op0 + n / 255 + 1 <= dest.Length
    modifies dest
    ensures Wrote(dest, op0, op, LengthBytes(n))
  {
    op := op0;
    var len: nat := n;
    ghost var q: nat, r: nat := n / 255, n % 255;
    ghost var before := dest[..op0];
    while len >= 255
      invariant len == 255 * (q - (op - op0)) + r && op0 <= op <= op0 + q
      invariant dest[..op0] == before
      invariant forall k :: op0 <= k < op ==> dest[k] == 255
    {
      dest[op] := 255;
      op, len := op + 1, len - 255;
    }
    WriteLastLengthByte(dest, op0, op, n, len);
    op := op + 1;
  }

  /** The match length goes out two bytes at a time. */
  method WriteMatchLength(dest: array<byte>, op0: nat, n: nat) returns (op: nat)
    requires op0 + n / 255 + 1 <= dest.Length
    modifies dest
    ensures Wrote(dest, op0, op, LengthBytes(n))
  {
    op := op0;
    var len: nat := n;
    ghost var q: nat, r: nat := n / 255, n % 255;
    ghost var before := dest[..op0];
    while len >= 510
      invariant len == 255 * (q - (op - op0)) + r && op0 <= op <= op0 + q
      invariant dest[..op0] == before
      invariant forall k :: op0 <= k < op ==> dest[k] == 255
    {
      dest[op] := 255;
      dest[op + 1] := 255;
      op, len := op + 2, len - 510;
    }
    if len >= 255 {
      dest[op] := 255;
      op, len := op + 1, len - 255;
    }
    WriteLastLengthByte(dest, op0, op, n, len);
    op := op + 1;
  }

  method WriteLiteralHeader(dest: array<byte>, op0: nat, n: nat) returns (op: nat)
    requires op0 + 1 + (n + 240) / 255 <= dest.Length
    modifies dest
    ensures op == op0 + 1 + (n + 240) / 255
    ensures Wrote(dest, op0, op, [Nibble(n) * 16] + Extension(n))
  {
    ExtensionSize(n);
    dest[op0] := Nibble(n) * 16;
    op := op0 + 1;
    ghost var before, token := old(dest[..op0]), [Nibble(n) * 16];
    assert dest[..op] == before + token;
    if n >= RUN_MASK {
      op := WriteLength(dest, op, n - RUN_MASK);
    } else {
      assert dest[..op] == before + token + Extension(n);
    }
    Assoc3(before, token, Extension(n));
  }

  /** The literals of a sequence, copied in words that may run past their end. */
  method WriteLiterals(s: seq<byte>, anchor: nat, end: nat, dest: array<byte>, op0: nat) returns (op: nat)
    requires anchor <= end && end + 8 <= |s|
    requires op0 + 1 + (end - anchor + 240) / 255 + (end - anchor) + 8 <= dest.Length
    modifies dest
    ensures Wrote(dest, op0, op, EncodeLiterals(s[anchor..end], 0))
  {
    var n := end - anchor;
    op := WriteLiteralHeader(dest, op0, n);
    Decoder.WildCopyLiterals(s, anchor, dest, op, n);
    op := op + n;
    assert s[anchor..anchor + n] == s[anchor..end];
    Assoc3(old(dest[..op0]), [Nibble(n) * 16] + Extension(n), s[anchor..end]);
  }

  method WriteLastLiterals(s: seq<byte>, anchor: nat, end: nat, dest: array<byte>, op0: nat) returns (op: nat)
    requires anchor <= end <= |s|
    requires op0 + 1 + (end - anchor + 240) / 255 + (end - anchor) <= dest.Length
    modifies dest
    ensures op == op0 + 1 + (end - anchor + 240) / 255 + (end - anchor)
    ensures Wrote(dest, op0, op, EncodeLiterals(s[anchor..end], 0))
  {
    var n := end - anchor;
    op := WriteLiteralHeader(dest, op0, n);
    Decoder.CopyExactly(s, anchor, dest, op, n);
    op := op + n;
    assert s[anchor..anchor + n] == s[anchor..end];
    Assoc3(old(dest[..op0]), [Nibble(n) * 16] + Extension(n), s[anchor..end]);
  }

  method WriteOffset(dest: array<byte>, op: nat, offset: nat)
    requires op + 2 <= dest.Length && offset <= MAX_DISTANCE
    modifies dest
    ensures Wrote(dest, op, op + 2, OffsetBytes(offset))
  {
    dest[op], dest[op + 1] := offset % 256, offset / 256;
  }

  /** Adding the match length to a token already followed by its literals and by `post`. */
  method PatchToken(dest: array<byte>, token: nat, low: byte, ghost op: nat,
                    ghost pre: seq<byte>, ghost literals: seq<byte>, ghost post: seq<byte>)
    requires low <= 15 && token == |pre| < op <= dest.Length
    requires dest[..op] == pre + EncodeLiterals(literals, 0) + post
    modifies dest
    ensures dest[..op] == pre + EncodeLiterals(literals, low) + post
  {
    ghost var e := pre + EncodeLiterals(literals, 0) + post;
    assert dest[token] == e[token] == Nibble(|literals|) * 16;
    dest[token] := dest[token] + low;
    assert dest[..op] == e[token := Nibble(|literals|) * 16 + low];
    TokenPatched(pre, literals, low, post);
  }

  lemma TokenPatched(pre: seq<byte>, literals: seq<byte>, low: byte, post: seq<byte>)
    requires low <= 15
    ensures (pre + EncodeLiterals(literals, 0) + post)[|pre| := Nibble(|literals|) * 16 + low]
         == pre + EncodeLiterals(literals, low) + post
  {
    var nibble, rest := Nibble(|literals|) * 16, Extension(|literals|) + literals;
    Assoc3([nibble], Extension(|literals|), literals);
    Assoc3([nibble + low], Extension(|literals|), literals);
    HeadReplaced(pre, nibble, nibble + low, rest, post);
  }

  lemma HeadReplaced(pre: seq<byte>, x: byte, y: byte, rest: seq<byte>, post: seq<byte>)
    ensures (pre + ([x] + rest) + post)[|pre| := y] == pre + ([y] + rest) + post
  {}

  /** A match written after `pre` and the literals of its sequence, or the exit for lack of room. */
  ghost predicate MatchWritten(dest: seq<byte>, ok: bool, op: nat, op0: nat, max: nat,
                               pre: seq<byte>, literals: seq<byte>, offset: nat, extra: nat)
    requires offset <= MAX_DISTANCE
  {
    if ok then
      op <= |dest| && dest[..op] == pre + EncodeSequence(Sequence(literals, offset, MINMATCH + extra))
    else
      op0 + 2 + 1 + LASTLITERALS + extra / 256 > max
  }

  /** The offset and the length of a match, whose low four bits go into the token written before its literals. */
  method WriteMatch(dest: array<byte>, op0: nat, max: nat, offset: nat, extra: nat, token: nat,
                    ghost pre: seq<byte>, ghost literals: seq<byte>)
    returns (ok: bool, op: nat)
    requires offset <= MAX_DISTANCE && op0 + 2 + (extra + 240) / 255 <= dest.Length
    requires token == |pre| && dest[..][..op0] == pre + EncodeLiterals(literals, 0)
    modifies dest
    ensures MatchWritten(dest[..], ok, op, op0, max, pre, literals, offset, extra)
  {
    ghost var post := OffsetBytes(offset);
    assert dest[..op0] == dest[..][..op0];
    WriteOffset(dest, op0, offset);
    op := op0 + 2;
    if extra >= ML_MASK {
      if op + (1 + LASTLITERALS) + extra / 256 > max {
        return false, op;
      }
      PatchToken(dest, token, ML_MASK, op, pre, literals, post);
      op := WriteMatchLength(dest, op, extra - ML_MASK);
      assert dest[..op] == pre + EncodeLiterals(literals, ML_MASK) + post + Extension(extra);
    } else {
      PatchToken(dest, token, extra, op, pre, literals, post);
    }
    ok := true;
    Assoc4(pre, EncodeLiterals(literals, Nibble(extra)), post, Extension(extra));
    assert dest[..][..op] == dest[..op];
  }

  // ----- The main loop -----

  /** The sequences written so far stand for s[..anchor], and every match starts early enough. */
  ghost predicate Progress(s: seq<byte>, ss: Sequences, anchor: nat)
  {
    && Valid(ss) && anchor <= |s| && Expand(ss) == s[..anchor]
    && (ss.Append? ==> anchor <= |s| - LASTLITERALS)
    && StartsEarly(ss, |s|)
  }

  /** Copying a match found in the input reproduces the input. */
  lemma MatchReproducesInput(s: seq<byte>, ip: nat, ref: nat, length: nat, end: nat)
    requires ref < ip && end == ip + length && Same(s, ip, ref, length)
    ensures CopyMatch(s[..ip], ip - ref, length) == s[..end]
  {
    SameSlices(s, ip, ref, length);
    var t := s[..end];
    assert t[..ip] == s[..ip];
    SliceOfPrefix(s, end, ip, end);
    SliceOfPrefix(s, end, ref, ref + length);
    PeriodicIsCopyMatch(s[..ip], ip - ref, length, t);
  }

  lemma ExpandAppend(ss: Sequences, q: Sequence, out: seq<byte>)
    requires Valid(ss) && MINMATCH <= q.matchLength && 1 <= q.offset <= MAX_DISTANCE
    requires Expand(ss) + q.literals == out && q.offset <= |out|
    ensures Valid(Append(ss, q))
    ensures Expand(Append(ss, q)) == CopyMatch(out, q.offset, q.matchLength)
  {}

  /** A match found in the input is a sequence that extends what has been written. */
  lemma AddSequence(s: seq<byte>, ss: Sequences, anchor: nat, ip: nat, end: nat, q: Sequence)
    requires Progress(s, ss, anchor) && anchor <= ip && ip + MFLIMIT <= |s|
    requires MINMATCH <= q.matchLength && end == ip + q.matchLength <= |s| - LASTLITERALS
    requires 1 <= q.offset <= MAX_DISTANCE && q.offset <= ip && q.literals == s[anchor..ip]
    requires CopyMatch(s[..ip], q.offset, q.matchLength) == s[..end]
    ensures Progress(s, Append(ss, q), end)
  {
    Glue(s, anchor, ip);
    ExpandAppend(ss, q, s[..ip]);
  }

  /** What an input is cut into, from a search or a match on. */
  datatype Parser = Parser(fromSearch: (seq<nat>, nat, Sequences) -> Sequences,
                           fromMatch: (seq<nat>, nat, nat, nat, Sequences) -> Sequences)

  ghost predicate IsParser(parser: Parser, s: seq<byte>, t: TableType)
  {
    && (forall table: seq<nat>, anchor: nat, ss: Sequences {:trigger FromSearch(s, t, table, anchor, ss)} ::
          Ready(s, t, table, anchor) ==> parser.fromSearch(table, anchor, ss) == FromSearch(s, t, table, anchor, ss))
    && (forall table: seq<nat>, anchor: nat, ip: nat, ref: nat,
          ss: Sequences {:trigger FromMatch(s, t, table, anchor, ip, ref, ss)} ::
          |table| == TableSize(t) && anchor <= ip && ref < ip && ip + MFLIMIT <= |s| ==>
            parser.fromMatch(table, anchor, ip, ref, ss) == FromMatch(s, t, table, anchor, ip, ref, ss))
  }

  /** A search that finds nothing ends the cutting. */
  lemma SearchFails(parser: Parser, s: seq<byte>, t: TableType, table: seq<nat>, anchor: nat, ss: Sequences)
    requires IsParser(parser, s, t) && Ready(s, t, table, anchor)
    requires SearchFrom(s, t, table, anchor + 1, 0) == NotFound
    ensures parser.fromSearch(table, anchor, ss) == ss
  {
    assert FromSearch(s, t, table, anchor, ss) == ss;
  }

  /** One that finds something goes on with a match. */
  lemma SearchSucceeds(parser: Parser, s: seq<byte>, t: TableType, table: seq<nat>, anchor: nat, ss: Sequences, hi: nat,
                       ref: nat, table': seq<nat>)
    requires IsParser(parser, s, t) && Ready(s, t, table, anchor)
    requires SearchFrom(s, t, table, anchor + 1, 0) == Found(hi, ref, table')
    ensures var (ip, back) := BackUp(s, anchor, hi, ref);
            parser.fromSearch(table, anchor, ss) == parser.fromMatch(table', anchor, ip, back, ss)
  {
    var (ip, back) := BackUp(s, anchor, hi, ref);
    assert FromSearch(s, t, table, anchor, ss) == FromMatch(s, t, table', anchor, ip, back, ss);
  }

  /** A match near the end is the last. */
  lemma MatchIsLast(parser: Parser, s: seq<byte>, t: TableType, table: seq<nat>, anchor: nat, ip: nat, ref: nat,
                    ss: Sequences)
    requires IsParser(parser, s, t) && |table| == TableSize(t) && anchor <= ip && ref < ip && ip + MFLIMIT <= |s|
    requires MatchEnd(s, ip, ref) > |s| - MFLIMIT
    ensures parser.fromMatch(table, anchor, ip, ref, ss)
         == Append(ss, Sequence(s[anchor..ip], ip - ref, MatchEnd(s, ip, ref) - ip))
  {
    assert FromMatch(s, t, table, anchor, ip, ref, ss)
        == Append(ss, Sequence(s[anchor..ip], ip - ref, MatchEnd(s, ip, ref) - ip));
  }

  lemma AfterMatchTries(parser: Parser, s: seq<byte>, t: TableType, filled: seq<nat>, end: nat, ss: Sequences,
                        next: nat)
    requires IsParser(parser, s, t) && Ready(s, t, filled, end) && next == filled[Hash(s, end, t)]
    ensures AfterMatch(s, t, filled, end, ss)
         == if Repeats(s, end, next) && end <= next + MAX_DISTANCE
            then parser.fromMatch(Put(s, t, filled, end), end, end, next, ss)
            else parser.fromSearch(Put(s, t, filled, end), end, ss)
  {}

  /** After another one the next position is tried, and then the search goes on. */
  lemma MatchGoesOn(parser: Parser, s: seq<byte>, t: TableType, table: seq<nat>, anchor: nat, ip: nat, ref: nat,
                    ss: Sequences, end: nat, cut: Sequences, filled: seq<nat>, next: nat)
    requires IsParser(parser, s, t) && |table| == TableSize(t) && anchor <= ip && ref < ip && ip + MFLIMIT <= |s|
    requires end == MatchEnd(s, ip, ref) <= |s| - MFLIMIT
    requires cut == Append(ss, Sequence(s[anchor..ip], ip - ref, end - ip))
    requires filled == Put(s, t, table, end - 2) && next == filled[Hash(s, end, t)] && MIN_LENGTH <= |s|
    ensures parser.fromMatch(table, anchor, ip, ref, ss)
         == if Repeats(s, end, next) && end <= next + MAX_DISTANCE
            then parser.fromMatch(Put(s, t, filled, end), end, end, next, cut)
            else parser.fromSearch(Put(s, t, filled, end), end, cut)
  {
    FromMatchOn(s, t, table, anchor, ip, ref, ss, end);
    AfterMatchTries(parser, s, t, filled, end, cut, next);
  }

  // The space that a sequence needs. The output is `op` bytes long with s[..anchor] encoded, and the
  // next match starts at ip.

  /** Literals never take the output past ip + ip / 255 + 2. */
  lemma LiteralsFit(op: nat, anchor: nat, ip: nat)
    requires op <= anchor + anchor / 255 && anchor <= ip
    ensures op + 1 + (ip - anchor + 240) / 255 + (ip - anchor) <= ip + ip / 255 + 2
  {}

  /** From there, a match of any length still fits the compress bound, and passes its check. */
  lemma MatchFits(op: nat, ip: nat, n: nat, extra: nat)
    requires op <= ip + ip / 255 + 2 && ip + MINMATCH + extra + LASTLITERALS <= n
    ensures op + 2 + (extra + 240) / 255 <= n + n / 255 + 16
    ensures op + 2 + 1 + LASTLITERALS + extra / 256 <= n + n / 255 + 16
  {}

  /** The literals s[anchor..ip] of a sequence are out after its token, and its match is known to reach past `found`. */
  ghost predicate Pending(s: seq<byte>, dest: seq<byte>, ss: Sequences, anchor: nat, ip: nat, ref: nat, found: nat,
                          op: nat)
  {
    && Progress(s, ss, anchor) && anchor <= ip <= found && found + MFLIMIT <= |s|
    && MatchAt(s, ip, ref) && Same(s, ip, ref, found - ip + MINMATCH)
    && op <= |dest| && dest[..op] == EncodeSequences(ss) + EncodeLiterals(s[anchor..ip], 0)
  }

  /** The sequences in the output are complete. */
  ghost predicate Written(s: seq<byte>, dest: seq<byte>, ss: Sequences, anchor: nat, op: nat)
  {
    Progress(s, ss, anchor) && op <= |dest| && dest[..op] == EncodeSequences(ss)
  }

  lemma EncodedLiteralsSize(literals: seq<byte>)
    ensures |EncodeLiterals(literals, 0)| == 1 + (|literals| + 240) / 255 + |literals|
  {
    ExtensionSize(|literals|);
  }

  /** The output has room for a pending match, and its length checks fail only when it lacks that room. */
  lemma PendingFits(ss: Sequences, literals: seq<byte>, op: nat, ip: nat, n: nat, extra: nat)
    requires Valid(ss) && ip == Size(ss) + |literals|
    requires op == |EncodeSequences(ss)| + |EncodeLiterals(literals, 0)|
    requires ip + MINMATCH + extra + LASTLITERALS <= n
    ensures op + 2 + (extra + 240) / 255 <= n + n / 255 + 16
    ensures op + 2 + 1 + LASTLITERALS + extra / 256 <= n + n / 255 + 16
  {
    EncodedSizeBound(ss);
    EncodedLiteralsSize(literals);
    LiteralsFit(|EncodeSequences(ss)|, Size(ss), ip);
    MatchFits(op, ip, n, extra);
  }

  /** The exact length of a match reaches past the position where four equal bytes were found. */
  lemma ReachesPast(s: seq<byte>, ip: nat, ref: nat, found: nat, p: nat, r: nat, extra: nat)
    requires ip <= found && Same(s, ip, ref, found - ip + MINMATCH) && found + MFLIMIT <= |s|
    requires p == ip + MINMATCH && r == ref + MINMATCH
    requires p + extra < |s| - LASTLITERALS ==> s[p + extra] != s[r + extra]
    ensures found < ip + MINMATCH + extra
  {
    if ip + MINMATCH + extra <= found {
      SameAt(s, ip, ref, found - ip + MINMATCH, MINMATCH + extra);
    }
  }

  /** A match of the input, with the literals before it, is the next sequence. */
  lemma NextSequence(s: seq<byte>, ss: Sequences, anchor: nat, ip: nat, ref: nat, length: nat, end: nat, q: Sequence)
    requires Progress(s, ss, anchor) && anchor <= ip && ip + MFLIMIT <= |s| && MatchAt(s, ip, ref)
    requires MINMATCH <= length && end == ip + length <= |s| - LASTLITERALS && Same(s, ip, ref, length)
    requires q == Sequence(s[anchor..ip], ip - ref, length)
    ensures Progress(s, Append(ss, q), end)
    ensures EncodeSequences(Append(ss, q)) == EncodeSequences(ss) + EncodeSequence(q)
  {
    MatchReproducesInput(s, ip, ref, length, end);
    AddSequence(s, ss, anchor, ip, end, q);
  }

  /** An exact count is the length of the common run. */
  lemma {:induction false} CommonIs(s: seq<byte>, p: nat, r: nat, limit: nat, m: nat)
    requires r <= p && p + m <= limit <= |s| && Same(s, p, r, m) && (p + m < limit ==> s[p + m] != s[r + m])
    ensures Common(s, p, r, limit) == m
    decreases m
  {
    if m > 0 {
      SameAt(s, p, r, m, 0);
      SameTail(s, p, r, m);
      CommonIs(s, p + 1, r + 1, limit, m - 1);
    }
  }

  lemma {:induction false} SameTail(s: seq<byte>, p: nat, r: nat, m: nat)
    requires Same(s, p, r, m) && m > 0
    ensures Same(s, p + 1, r + 1, m - 1)
    decreases m
  {
    if m > 1 {
      SameTail(s, p, r, m - 1);
    }
  }

  /** The length of a match beyond its first four bytes. */
  method MeasureMatch(s: seq<byte>, ip: nat, ref: nat, ghost found: nat) returns (extra: nat)
    requires ip <= found && found + MFLIMIT <= |s|
    requires MatchAt(s, ip, ref) && Same(s, ip, ref, found - ip + MINMATCH)
    ensures found < ip + MINMATCH + extra <= |s| - LASTLITERALS && Same(s, ip, ref, MINMATCH + extra)
    ensures ip + MINMATCH + extra == MatchEnd(s, ip, ref)
  {
    var p, r := ip + MINMATCH, ref + MINMATCH;
    extra := Count(s, p, r, |s| - LASTLITERALS);
    CommonIs(s, p, r, |s| - LASTLITERALS, extra);
    ReachesPast(s, ip, ref, found, p, r, extra);
    SameAppend(s, ip, ref, MINMATCH, extra);
  }

  /** The room for a pending match of known length. */
  lemma NextFits(s: seq<byte>, dest: seq<byte>, ss: Sequences, anchor: nat, ip: nat, op: nat, extra: nat)
    requires Progress(s, ss, anchor) && anchor <= ip && ip + MINMATCH + extra <= |s| - LASTLITERALS
    requires op <= |dest| && dest[..op] == EncodeSequences(ss) + EncodeLiterals(s[anchor..ip], 0)
    ensures op + 2 + (extra + 240) / 255 <= |s| + |s| / 255 + 16
    ensures op + 2 + 1 + LASTLITERALS + extra / 256 <= |s| + |s| / 255 + 16
  {
    assert Size(ss) == |Expand(ss)| == anchor;
    PendingFits(ss, s[anchor..ip], op, ip, |s|, extra);
  }

  /** The next sequence and the room for it, from a pending match of known length. */
  lemma Measured(s: seq<byte>, dest: seq<byte>, ss: Sequences, anchor: nat, ip: nat, ref: nat, op: nat, extra: nat,
                 q: Sequence)
    requires Progress(s, ss, anchor) && anchor <= ip && ip + MFLIMIT <= |s| && MatchAt(s, ip, ref)
    requires op <= |dest| && dest[..op] == EncodeSequences(ss) + EncodeLiterals(s[anchor..ip], 0)
    requires q == Sequence(s[anchor..ip], ip - ref, MINMATCH + extra)
    requires Same(s, ip, ref, MINMATCH + extra) && ip + MINMATCH + extra <= |s| - LASTLITERALS
    ensures Progress(s, Append(ss, q), ip + MINMATCH + extra)
    ensures EncodeSequences(Append(ss, q)) == EncodeSequences(ss) + EncodeSequence(q)
    ensures op + 2 + (extra + 240) / 255 <= |s| + |s| / 255 + 16
    ensures op + 2 + 1 + LASTLITERALS + extra / 256 <= |s| + |s| / 255 + 16
  {
    NextFits(s, dest, ss, anchor, ip, op, extra);
    NextSequence(s, ss, anchor, ip, ref, MINMATCH + extra, ip + MINMATCH + extra, q);
  }

  /** A match written where its sequence is known, and there is room for it. */
  method WriteMeasured(dest: array<byte>, max: nat, offset: nat, extra: nat, token: nat, op0: nat, ghost bound: nat,
                       ghost s: seq<byte>, ghost anchor: nat, ghost ss: Sequences)
    returns (ok: bool, op: nat)
    requires ss.Append? && Progress(s, ss, anchor) && ss.last.offset == offset
    requires ss.last.matchLength == MINMATCH + extra
    requires op0 + 2 + (extra + 240) / 255 <= bound <= dest.Length && op0 + 2 + 1 + LASTLITERALS + extra / 256 <= bound
    requires token == |EncodeSequences(ss.init)|
    requires dest[..][..op0] == EncodeSequences(ss.init) + EncodeLiterals(ss.last.literals, 0)
    modifies dest
    ensures bound <= max ==> ok
    ensures ok ==> Written(s, dest[..], ss, anchor, op)
  {
    ok, op := WriteMatch(dest, op0, max, offset, extra, token, EncodeSequences(ss.init), ss.last.literals);
  }

  /** One match: measured, written, and accounted for. */
  method WriteOneMatch(s: seq<byte>, dest: array<byte>, max: nat, ip: nat, ref: nat, token: nat, op0: nat,
                       ghost found: nat, ghost anchor0: nat, ghost ss0: Sequences)
    returns (ok: bool, anchor: nat, op: nat, ghost ss: Sequences)
    requires |s| <= MAX_INPUT_SIZE && CompressBound(|s|) <= dest.Length
    requires Pending(s, dest[..], ss0, anchor0, ip, ref, found, op0) && token == |EncodeSequences(ss0)|
    modifies dest
    ensures CompressBound(|s|) <= max ==> ok
    ensures ok ==> found < anchor <= |s| && Written(s, dest[..], ss, anchor, op)
    ensures anchor == MatchEnd(s, ip, ref) && ss == Append(ss0, Sequence(s[anchor0..ip], ip - ref, anchor - ip))
  {
    var extra := MeasureMatch(s, ip, ref, found);
    anchor := ip + MINMATCH + extra;
    ghost var q := Sequence(s[anchor0..ip], ip - ref, MINMATCH + extra);
    Measured(s, dest[..], ss0, anchor0, ip, ref, op0, extra, q);
    ss := Append(ss0, q);
    ok, op := WriteMeasured(dest, max, ip - ref, extra, token, op0, CompressBound(|s|), s, anchor, ss);
  }

  /** Filling the table after a match, and testing whether another match starts right there. */
  method TestNextPosition(s: seq<byte>, table: array<nat>, t: TableType, ip: nat) returns (found: bool, ref: nat)
    requires Supported(|s|, t) && 2 <= ip && ip + MFLIMIT <= |s|
    requires table.Length == TableSize(t) && TableBelow(table[..], ip)
    modifies table
    ensures TableBelow(table[..], ip + 1)
    ensures found ==> MatchAt(s, ip, ref)
    ensures var filled := Put(s, t, old(table[..]), ip - 2);
            && ref == filled[Hash(s, ip, t)] && table[..] == Put(s, t, filled, ip)
            && (found <==> Repeats(s, ip, ref) && ip <= ref + MAX_DISTANCE)
  {
    PutBelow(s, t, table[..], ip - 2, ip);
    EnterPosition(s, table, t, ip - 2);
    ghost var filled := table[..];
    ref := table[Hash(s, ip, t)];
    assert ref == filled[Hash(s, ip, t)] < ip;
    PutBelow(s, t, filled, ip, ip + 1);
    EnterPosition(s, table, t, ip);
    found := CompareHalfWords(s, ip, ref);
    SameRepeats(s, ip, ref);
    found := found && ref + MAX_DISTANCE >= ip;
  }

  /** The token of a sequence without literals. */
  method WriteEmptyToken(dest: array<byte>, op: nat, ghost pre: seq<byte>)
    requires op < dest.Length && dest[..][..op] == pre
    modifies dest
    ensures dest[..][..op + 1] == pre + EncodeLiterals([], 0)
  {
    assert dest[..op] == pre;
    dest[op] := 0;
    assert dest[..][..op + 1] == dest[..op] + [0];
  }

  /** A match that starts right after another: its token is written, for no literals. */
  method StartNextMatch(s: seq<byte>, table: array<nat>, t: TableType, dest: array<byte>, anchor: nat, op: nat,
                        ghost ss: Sequences)
    returns (found: bool, ref: nat)
    requires Supported(|s|, t) && CompressBound(|s|) <= dest.Length && 2 <= anchor && anchor + MFLIMIT <= |s|
    requires table.Length == TableSize(t) && TableBelow(table[..], anchor) && Written(s, dest[..], ss, anchor, op)
    modifies table, dest
    ensures TableBelow(table[..], anchor + 1)
    ensures if found then Pending(s, dest[..], ss, anchor, anchor, ref, anchor, op + 1) else dest[..] == old(dest[..])
    ensures var filled := Put(s, t, old(table[..]), anchor - 2);
            && ref == filled[Hash(s, anchor, t)] && table[..] == Put(s, t, filled, anchor)
            && (found <==> Repeats(s, anchor, ref) && anchor <= ref + MAX_DISTANCE)
  {
    found, ref := TestNextPosition(s, table, t, anchor);
    if found {
      EncodedSizeBound(ss);
      WriteEmptyToken(dest, op, EncodeSequences(ss));
      assert s[anchor..anchor] == [];
    }
  }

  lemma LastLiteralsFit(op: nat, anchor: nat, n: nat)
    requires op <= anchor + anchor / 255 && anchor <= n
    ensures op + (n - anchor) + 1 + (n - anchor + 240) / 255 <= n + n / 255 + 16
  {}

  /** Where the writing of matches after one another stops. */
  datatype Outcome = NoRoom | EndOfChunk | NoMatch

  /** What is cut where it stops: all of it, or else what the search cuts from there on. */
  ghost predicate CutTo(parser: Parser, table: seq<nat>, outcome: Outcome, anchor: nat, ss: Sequences, goal: Sequences)
  {
    match outcome
    case NoRoom => true
    case EndOfChunk => ss == goal
    case NoMatch => parser.fromSearch(table, anchor, ss) == goal
  }

  /** How it stops: for lack of room only below the bound, and otherwise with all sequences written. */
  ghost predicate Stopped(s: seq<byte>, table: seq<nat>, dest: seq<byte>, max: nat, outcome: Outcome, anchor: nat,
                          op: nat, ss: Sequences)
  {
    && (CompressBound(|s|) <= max ==> !outcome.NoRoom?)
    && (!outcome.NoRoom? ==> Written(s, dest, ss, anchor, op))
    && (outcome.NoMatch? ==> anchor + MFLIMIT <= |s| && TableBelow(table, anchor + 1))
  }

  /** One match of those, after which another is pending or the writing stops. */
  method MatchStep(s: seq<byte>, table: array<nat>, t: TableType, dest: array<byte>, max: nat, ip: nat, ref0: nat,
                   token: nat, op0: nat, ghost hi: nat, ghost start: nat, ghost ss0: Sequences, ghost parser: Parser)
    returns (outcome: Option<Outcome>, anchor: nat, ref: nat, op: nat, ghost ss: Sequences)
    requires Supported(|s|, t) && CompressBound(|s|) <= dest.Length && IsParser(parser, s, t)
    requires table.Length == TableSize(t) && TableBelow(table[..], hi + 1)
    requires Pending(s, dest[..], ss0, start, ip, ref0, hi, op0) && token == |EncodeSequences(ss0)|
    modifies table, dest
    ensures outcome != Some(NoRoom) ==> start < anchor <= |s|
    ensures match outcome
            case Some(stop) =>
              && Stopped(s, table[..], dest[..], max, stop, anchor, op, ss)
              && CutTo(parser, table[..], stop, anchor, ss, parser.fromMatch(old(table[..]), start, ip, ref0, ss0))
            case None =>
              && Pending(s, dest[..], ss, anchor, anchor, ref, anchor, op + 1) && op == |EncodeSequences(ss)|
              && TableBelow(table[..], anchor + 1)
              && parser.fromMatch(table[..], anchor, anchor, ref, ss)
                 == parser.fromMatch(old(table[..]), start, ip, ref0, ss0)
  {
    var ok;
    ref := ref0;
    ok, anchor, op, ss := WriteOneMatch(s, dest, max, ip, ref, token, op0, hi, start, ss0);
    if !ok {
      return Some(NoRoom), anchor, ref, op, ss;
    }
    if anchor > |s| - MFLIMIT {
      MatchIsLast(parser, s, t, table[..], start, ip, ref0, ss0);
      return Some(EndOfChunk), anchor, ref, op, ss;
    }
    ghost var before := table[..];
    var next;
    next, ref := StartNextMatch(s, table, t, dest, anchor, op, ss);
    MatchGoesOn(parser, s, t, before, start, ip, ref0, ss0, anchor, ss, Put(s, t, before, anchor - 2), ref);
    outcome := if next then None else Some(NoMatch);
  }

  /** A match whose literals are out, and the matches found right after it, which have none: _next_match. */
  method WriteMatches(s: seq<byte>, table: array<nat>, t: TableType, dest: array<byte>, max: nat,
                      ip0: nat, ref0: nat, found: nat, token0: nat, op0: nat, ghost anchor0: nat, ghost ss0: Sequences,
                      ghost parser: Parser)
    returns (outcome: Outcome, anchor: nat, op: nat, ghost ss: Sequences)
    requires Supported(|s|, t) && CompressBound(|s|) <= dest.Length && IsParser(parser, s, t)
    requires table.Length == TableSize(t) && TableBelow(table[..], found + 1)
    requires Pending(s, dest[..], ss0, anchor0, ip0, ref0, found, op0) && token0 == |EncodeSequences(ss0)|
    modifies table, dest
    ensures Stopped(s, table[..], dest[..], max, outcome, anchor, op, ss)
    ensures !outcome.NoRoom? ==> anchor0 < anchor
    ensures CutTo(parser, table[..], outcome, anchor, ss, parser.fromMatch(old(table[..]), anchor0, ip0, ref0, ss0))
  {
    var ip: nat, ref: nat, token: nat := ip0, ref0, token0;
    ghost var hi: nat, start: nat := found, anchor0;
    ghost var goal := parser.fromMatch(table[..], anchor0, ip0, ref0, ss0);
    op, ss := op0, ss0;
    while true
      invariant TableBelow(table[..], hi + 1) && anchor0 <= start
      invariant Pending(s, dest[..], ss, start, ip, ref, hi, op) && token == |EncodeSequences(ss)|
      invariant parser.fromMatch(table[..], start, ip, ref, ss) == goal
      decreases |s| - start
    {
      var stop;
      stop, anchor, ref, op, ss := MatchStep(s, table, t, dest, max, ip, ref, token, op, hi, start, ss, parser);
      if stop.Some? {
        return stop.value, anchor, op, ss;
      }
      ip, hi, start, token, op := anchor, anchor, anchor, op, op + 1;
    }
  }

  /** The room that the literals of a sequence need before its match, and what their check asks for. */
  lemma LiteralsHaveRoom(ss: Sequences, op: nat, anchor: nat, ip: nat, n: nat)
    requires Valid(ss) && Size(ss) == anchor && op == |EncodeSequences(ss)| && anchor <= ip && ip + MFLIMIT < n
    ensures op + 1 + (ip - anchor + 240) / 255 + (ip - anchor) + 8 <= n + n / 255 + 16
    ensures op + 1 + (ip - anchor) + (2 + 1 + LASTLITERALS) + (ip - anchor) / 255 <= n + n / 255 + 16
  {
    EncodedSizeBound(ss);
    LiteralsFit(op, anchor, ip);
  }

  /** The check and the writing of the literals before a match. */
  method StartSequence(s: seq<byte>, dest: array<byte>, max: nat, anchor: nat, ip: nat, op0: nat, ghost ss: Sequences)
    returns (ok: bool, op: nat)
    requires |s| <= MAX_INPUT_SIZE && CompressBound(|s|) <= dest.Length
    requires Written(s, dest[..], ss, anchor, op0) && anchor <= ip && ip + MFLIMIT < |s|
    modifies dest
    ensures CompressBound(|s|) <= max ==> ok
    ensures ok ==> op <= dest.Length
    ensures ok ==> dest[..][..op] == EncodeSequences(ss) + EncodeLiterals(s[anchor..ip], 0)
  {
    var litLength := ip - anchor;
    LiteralsHaveRoom(ss, op0, anchor, ip, |s|);
    if op0 + 1 + litLength + (2 + 1 + LASTLITERALS) + litLength / 255 > max {
      return false, op0;
    }
    assert dest[..op0] == EncodeSequences(ss);
    op := WriteLiterals(s, anchor, ip, dest, op0);
    ok := true;
    assert dest[..][..op] == dest[..op];
  }

  /** One round of the main loop: search, catch up, write the literals, then the matches. */
  method CompressStep(s: seq<byte>, table: array<nat>, t: TableType, dest: array<byte>, max: nat,
                      start: nat, anchor0: nat, op0: nat, ghost ss0: Sequences, ghost parser: Parser)
    returns (outcome: Outcome, anchor: nat, op: nat, ghost ss: Sequences)
    requires Supported(|s|, t) && MIN_LENGTH <= |s| && CompressBound(|s|) <= dest.Length && IsParser(parser, s, t)
    requires anchor0 + 1 == start <= |s| - MFLIMIT + 1
    requires table.Length == TableSize(t) && TableBelow(table[..], start)
    requires Written(s, dest[..], ss0, anchor0, op0)
    modifies table, dest
    ensures CompressBound(|s|) <= max ==> !outcome.NoRoom?
    ensures !outcome.NoRoom? ==> Written(s, dest[..], ss, anchor, op)
    ensures outcome.NoMatch? ==> anchor0 < anchor && anchor + MFLIMIT <= |s| && TableBelow(table[..], anchor + 1)
    ensures CutTo(parser, table[..], outcome, anchor, ss, parser.fromSearch(old(table[..]), anchor0, ss0))
  {
    ghost var before := table[..];
    anchor, op, ss := anchor0, op0, ss0;
    var found, hi, ref := FindMatch(s, table, t, start);
    if !found {
      SearchFails(parser, s, t, before, anchor0, ss0);
      return EndOfChunk, anchor, op, ss;
    }
    SearchSucceeds(parser, s, t, before, anchor0, ss0, hi, ref, table[..]);
    var ip;
    ip, ref := CatchUp(s, anchor, hi, ref);
    var token := op;
    var ok;
    ok, op := StartSequence(s, dest, max, anchor, ip, op, ss);
    if !ok {
      return NoRoom, anchor, op, ss;
    }
    outcome, anchor, op, ss := WriteMatches(s, table, t, dest, max, ip, ref, hi, token, op, anchor, ss, parser);
  }

  /** The bytes are the encoding of a legal block that stands for s. */
  ghost predicate IsBlock(bytes: seq<byte>, ss: Sequences, last: seq<byte>, s: seq<byte>)
  {
    Valid(ss) && EndsLegally(ss, last) && bytes == EncodeBlock(ss, last) && Expand(ss) + last == s
  }

  ghost predicate Encodes(bytes: seq<byte>, s: seq<byte>)
  {
    exists ss: Sequences, last: seq<byte> :: IsBlock(bytes, ss, last, s)
  }

  /** Sequences that stand for s[..anchor], followed by the rest of s as literals, encode s. */
  lemma BlockComplete(s: seq<byte>, bytes: seq<byte>, ss: Sequences, anchor: nat)
    requires Progress(s, ss, anchor)
    requires bytes == EncodeSequences(ss) + EncodeLiterals(s[anchor..|s|], 0)
    ensures IsBlock(bytes, ss, s[anchor..|s|], s)
  {
    var last := s[anchor..|s|];
    assert Size(ss) == |Expand(ss)| == anchor;
    Glue(s, anchor, |s|);
    assert s[..|s|] == s;
    assert EndsLegally(ss, last) && Expand(ss) + last == s;
  }

  /** The bytes are the block of some sequences and what they leave of the input. */
  ghost predicate IsBlockOf(bytes: seq<byte>, ss: Sequences, s: seq<byte>)
  {
    Valid(ss) && Size(ss) <= |s| && bytes == EncodeBlock(ss, s[Size(ss)..])
  }

  lemma BlockOfWritten(s: seq<byte>, bytes: seq<byte>, ss: Sequences, anchor: nat)
    requires Progress(s, ss, anchor) && bytes == EncodeSequences(ss) + EncodeLiterals(s[anchor..|s|], 0)
    ensures IsBlockOf(bytes, ss, s)
  {
    assert Size(ss) == |Expand(ss)| == anchor;
    assert s[anchor..|s|] == s[anchor..];
  }

  /** The check and the writing of the last literals, after which the block is complete. */
  method FinishBlock(s: seq<byte>, dest: array<byte>, max: nat, anchor: nat, op0: nat,
                     ghost ss: Sequences) returns (ret: nat)
    requires |s| <= MAX_INPUT_SIZE && CompressBound(|s|) <= dest.Length
    requires Written(s, dest[..], ss, anchor, op0)
    modifies dest
    ensures CompressBound(|s|) <= max ==> 0 < ret
    ensures 0 < ret ==> ret <= max && ret <= CompressBound(|s|) && Encodes(dest[..ret], s)
    ensures 0 < ret ==> IsBlockOf(dest[..ret], ss, s)
  {
    var lastRun := |s| - anchor;
    EncodedSizeBound(ss);
    LastLiteralsFit(op0, anchor, |s|);
    if op0 + lastRun + 1 + (lastRun + 255 - RUN_MASK) / 255 > max {
      return 0;
    }
    assert dest[..op0] == EncodeSequences(ss);
    ret := WriteLastLiterals(s, anchor, |s|, dest, op0);
    BlockComplete(s, dest[..ret], ss, anchor);
    BlockOfWritten(s, dest[..ret], ss, anchor);
  }

  /** The functions that cut an input. */
  ghost function ParserOf(s: seq<byte>, t: TableType): (parser: Parser)
    ensures IsParser(parser, s, t)
  {
    Parser((table: seq<nat>, anchor: nat, ss: Sequences) =>
             if Ready(s, t, table, anchor) then FromSearch(s, t, table, anchor, ss) else ss,
           (table: seq<nat>, anchor: nat, ip: nat, ref: nat, ss: Sequences) =>
             if |table| == TableSize(t) && anchor <= ip && ref < ip && ip + MFLIMIT <= |s|
             then FromMatch(s, t, table, anchor, ip, ref, ss) else ss)
  }

  /** The main loop, which stops at the end of the chunk or for lack of room. */
  method CompressRounds(s: seq<byte>, table: array<nat>, t: TableType, dest: array<byte>, max: nat,
                        ghost parser: Parser)
    returns (ok: bool, anchor: nat, op: nat, ghost ss: Sequences)
    requires Supported(|s|, t) && MIN_LENGTH <= |s| && CompressBound(|s|) <= dest.Length && IsParser(parser, s, t)
    requires table.Length == TableSize(t) && TableBelow(table[..], 1)
    modifies table, dest
    ensures CompressBound(|s|) <= max ==> ok
    ensures ok ==> Written(s, dest[..], ss, anchor, op) && ss == parser.fromSearch(old(table[..]), 0, Empty)
  {
    ghost var goal := parser.fromSearch(table[..], 0, Empty);
    anchor, op, ss := 0, 0, Empty;
    var ip: nat := 1;
    while true
      invariant Written(s, dest[..], ss, anchor, op) && parser.fromSearch(table[..], anchor, ss) == goal
      invariant ip == anchor + 1 <= |s| - MFLIMIT + 1 && TableBelow(table[..], ip)
      decreases |s| - anchor
    {
      var outcome;
      outcome, anchor, op, ss := CompressStep(s, table, t, dest, max, ip, anchor, op, ss, parser);
      if !outcome.NoMatch? {
        return outcome.EndOfChunk?, anchor, op, ss;
      }
      ip := anchor + 1;
    }
  }

  /** The table of zeros gets its first position, and the main loop runs. */
  method CompressLoop(s: seq<byte>, table: array<nat>, t: TableType, dest: array<byte>, max: nat)
    returns (ok: bool, anchor: nat, op: nat, ghost ss: Sequences)
    requires Supported(|s|, t) && MIN_LENGTH <= |s| && CompressBound(|s|) <= dest.Length
    requires table.Length == TableSize(t) && forall h :: 0 <= h < table.Length ==> table[h] == 0
    modifies table, dest
    ensures CompressBound(|s|) <= max ==> ok
    ensures ok ==> Written(s, dest[..], ss, anchor, op) && ss == Parse(s, t)
  {
    assert table[..] == seq(TableSize(t), _ => 0);
    PutPosition(table, Hash(s, 0, t), 0, t);
    assert table[..] == FirstTable(s, t);
    ok, anchor, op, ss := CompressRounds(s, table, t, dest, max, ParserOf(s, t));
    assert Ready(s, t, FirstTable(s, t), 0) && FromSearch(s, t, FirstTable(s, t), 0, Empty) == Parse(s, t);
  }

  /** LZ4_compress_generic without a dictionary, on a table of zeros. */
  method CompressGeneric(s: seq<byte>, table: array<nat>, dest: array<byte>, max: nat, t: TableType) returns (ret: nat)
    requires table.Length == TableSize(t) && forall h :: 0 <= h < table.Length ==> table[h] == 0
    requires CompressBound(|s|) <= dest.Length
    modifies table, dest
    ensures !Supported(|s|, t) ==> ret == 0
    ensures Supported(|s|, t) && CompressBound(|s|) <= max ==> 0 < ret
    ensures 0 < ret ==> ret <= max && ret <= CompressBound(|s|) && Encodes(dest[..ret], s)
    ensures 0 < ret ==> IsBlockOf(dest[..ret], Parse(s, t), s)
  {
    if |s| > MAX_INPUT_SIZE || (t.ByU16? && |s| >= LIMIT_64K) {
      return 0;
    }
    var anchor: nat, op: nat := 0, 0;
    ghost var ss := Empty;
    if |s| >= MIN_LENGTH {
      var ok;
      ok, anchor, op, ss := CompressLoop(s, table, t, dest, max);
      if !ok {
        return 0;
      }
    }
    ret := FinishBlock(s, dest, max, anchor, op, ss);
  }

  /** Decoding what the compressor produced, for exactly the original size, gives the original. */
  lemma EncodesDecodes(bytes: seq<byte>, s: seq<byte>)
    requires Encodes(bytes, s)
    ensures Decoder.Readable(bytes, 0)
    ensures Decoder.Decode(bytes, |s|, |s|) == Decoder.Decoded(s)
  {
    var ss: Sequences, last: seq<byte> :| IsBlock(bytes, ss, last, s);
    Decoder.DecodeInvertsEncode(ss, last, |s|);
  }

  /** LZ4_compress_limitedOutput: the 16-bit table for inputs under the 64 KB limit, the 32-bit table above it. */
  method CompressLimitedOutput(s: seq<byte>, dest: array<byte>, max: nat) returns (ret: nat)
    requires CompressBound(|s|) <= dest.Length
    modifies dest
    ensures |s| > MAX_INPUT_SIZE ==> ret == 0
    ensures |s| <= MAX_INPUT_SIZE && CompressBound(|s|) <= max ==> 0 < ret
    ensures 0 < ret ==> ret <= max && ret <= CompressBound(|s|) && Encodes(dest[..ret], s)
    ensures 0 < ret ==> IsBlockOf(dest[..ret], Parse(s, TableFor(|s|)), s)
  {
    var t := TableFor(|s|);
    var table := new nat[TableSize(t)](_ => 0);
    ret := CompressGeneric(s, table, dest, max, t);
  }

  /** Compressing and decompressing gives the input back, for every input the compressor takes. */
  method RoundTrip(s: seq<byte>) returns (back: seq<byte>)
    requires |s| <= MAX_INPUT_SIZE
    ensures back == s
  {
    var bound := CompressBound(|s|);
    var packed := new byte[bound](_ => 0);
    var ret := CompressLimitedOutput(s, packed, bound);
    EncodesDecodes(packed[..ret], s);
    var dest := new byte[|s|](_ => 0);
    var n := Decoder.DecompressSafePartial(packed[..ret], dest, |s|, |s|);
    back := dest[..n];
  }
}
