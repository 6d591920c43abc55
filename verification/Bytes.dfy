/** Bytes, byte sequences and optional values, which the other modules share. */
module Bytes {

  datatype Option<T> = None | Some(value: T)

  type byte = x: int | 0 <= x < 256

  /** The little-endian value of a byte sequence. */
  function LittleEndian(s: seq<byte>): (v: nat)
    decreases |s|
  {
    if s == [] then 0 else s[0] + 256 * LittleEndian(s[1..])
  }

  /** A sequence is periodic on lo..hi when each of those positions repeats the one `period` before it. */
  ghost predicate Periodic(s: seq<byte>, lo: int, hi: int, period: int)
  {
    1 <= period <= lo <= hi <= |s| && s[lo..hi] == s[lo - period..hi - period]
  }

  lemma PeriodicAt(s: seq<byte>, lo: int, hi: int, period: int, k: int)
    requires Periodic(s, lo, hi, period) && lo <= k < hi
    ensures s[k] == s[k - period]
  {
    assert s[lo..hi][k - lo] == s[lo - period..hi - period][k - lo];
  }

  lemma PeriodicFrom(s: seq<byte>, lo: int, hi: int, period: int)
    requires 1 <= period <= lo <= hi <= |s|
    requires forall k :: lo <= k < hi ==> s[k] == s[k - period]
    ensures Periodic(s, lo, hi, period)
  {}

  lemma PeriodicSnoc(s: seq<byte>, lo: int, hi: int, period: int)
    requires 1 <= period <= lo < hi <= |s|
    requires Periodic(s, lo, hi - 1, period) && s[hi - 1] == s[hi - 1 - period]
    ensures Periodic(s, lo, hi, period)
  {
    assert s[lo..hi] == s[lo..hi - 1] + [s[hi - 1]];
    assert s[lo - period..hi - period] == s[lo - period..hi - 1 - period] + [s[hi - 1 - period]];
  }

  lemma PeriodicPrefix(s: seq<byte>, lo: int, hi: int, period: int, k: int)
    requires Periodic(s, lo, hi, period) && lo <= k <= hi
    ensures Periodic(s[..k], lo, k, period)
  {
    SliceOfPrefix(s, k, lo, k);
    SliceOfPrefix(s, k, lo - period, k - period);
    PrefixOfSlice(s, lo, hi, k - lo);
    PrefixOfSlice(s, lo - period, hi - period, k - lo);
  }

  lemma SliceOfPrefix(s: seq<byte>, k: nat, i: nat, j: nat)
    requires i <= j <= k <= |s|
    ensures s[..k][i..j] == s[i..j]
  {
    var a, b := s[..k][i..j], s[i..j];
    assert forall n :: 0 <= n < j - i ==> a[n] == b[n];
  }

  lemma PrefixOfSlice(s: seq<byte>, lo: nat, hi: nat, n: nat)
    requires lo + n <= hi <= |s|
    ensures s[lo..hi][..n] == s[lo..lo + n]
  {
    var a, b := s[lo..hi][..n], s[lo..lo + n];
    assert forall i :: 0 <= i < n ==> a[i] == b[i];
  }

  /** Periodicity on lo..hi only depends on the first hi bytes. */
  lemma PeriodicStable(s: seq<byte>, t: seq<byte>, lo: int, hi: int, period: int)
    requires Periodic(s, lo, hi, period)
    requires hi <= |t| && t[..hi] == s[..hi]
    ensures Periodic(t, lo, hi, period)
  {
    assert t[lo..hi] == t[..hi][lo..] == s[lo..hi];
    assert t[lo - period..hi - period] == t[..hi][lo - period..hi - period] == s[lo - period..hi - period];
  }

  // ----- Cutting sequences -----

  /** Two pieces laid end to end from position lo are found there. */
  lemma Split2<T>(s: seq<T>, lo: nat, hi: nat, a: seq<T>, b: seq<T>)
    requires lo + |a| + |b| == hi <= |s| && s[lo..hi] == a + b
    ensures s[lo..lo + |a|] == a && s[lo + |a|..hi] == b
  {
    assert s[lo..lo + |a|] == s[lo..hi][..|a|] && s[lo + |a|..hi] == s[lo..hi][|a|..];
  }

  /** Three pieces laid end to end from position lo are found there. */
  lemma Split3<T>(s: seq<T>, lo: nat, hi: nat, a: seq<T>, b: seq<T>, c: seq<T>)
    requires lo + |a| + |b| + |c| == hi <= |s| && s[lo..hi] == a + b + c
    ensures s[lo..lo + |a|] == a
    ensures s[lo + |a|..lo + |a| + |b|] == b
    ensures s[lo + |a| + |b|..hi] == c
  {
    Split2(s, lo, hi, a + b, c);
    Split2(s, lo, lo + |a| + |b|, a, b);
  }

  lemma At<T>(s: seq<T>, lo: nat, hi: nat, t: seq<T>, k: nat)
    requires hi <= |s| && lo + k < hi && s[lo..hi] == t
    ensures s[lo + k] == t[k]
  {}

  /** A slice that starts in a and ends in b. */
  lemma AcrossJoin<T>(a: seq<T>, b: seq<T>, i: nat, p: nat)
    requires i <= |a| && p <= |b|
    ensures (a + b)[i..|a| + p] == a[i..] + b[..p]
  {}

  /** What starts with a and b has b after a. */
  lemma SecondPart<T>(a: seq<T>, b: seq<T>, s: seq<T>)
    requires a + b <= s
    ensures a <= s && s[|a|..|a| + |b|] == b
  {
    assert s[..|a + b|] == a + b;
    assert s[|a|..|a| + |b|] == s[..|a + b|][|a|..];
    assert s[..|a|] == s[..|a + b|][..|a|];
  }

  lemma Glue<T>(s: seq<T>, a: nat, b: nat)
    requires a <= b <= |s|
    ensures s[..a] + s[a..b] == s[..b]
  {}

  lemma SliceOfSlice<T>(s: seq<T>, lo: nat, hi: nat, i: nat, j: nat)
    requires i <= j <= hi - lo && hi <= |s|
    ensures s[lo..hi][i..j] == s[lo + i..lo + j]
  {
    var a, b := s[lo..hi][i..j], s[lo + i..lo + j];
    assert forall k :: 0 <= k < j - i ==> a[k] == b[k];
  }

  lemma Assoc3<T>(a: seq<T>, b: seq<T>, c: seq<T>)
    ensures a + b + c == a + (b + c)
  {}

  lemma Assoc4<T>(a: seq<T>, b: seq<T>, c: seq<T>, d: seq<T>)
    ensures a + b + c + d == a + (b + (c + d))
  {}

  /** The pieces of a string, joined. */
  function Concat(parts: seq<seq<byte>>): seq<byte>
    decreases |parts|
  {
    if parts == [] then [] else Concat(parts[..|parts| - 1]) + parts[|parts| - 1]
  }

  /** What a checksum that is extended by one string after another comes to over successive pieces. */
  function Streamed<C>(sum: (C, seq<byte>) -> C, c: C, parts: seq<seq<byte>>): C
    decreases |parts|
  {
    if parts == [] then c else sum(Streamed(sum, c, parts[..|parts| - 1]), parts[|parts| - 1])
  }

  lemma ConcatSnoc(parts: seq<seq<byte>>, part: seq<byte>)
    ensures Concat(parts + [part]) == Concat(parts) + part
  {
    assert (parts + [part])[..|parts|] == parts;
  }

  lemma {:induction false} ConcatGrows(parts: seq<seq<byte>>, i: nat)
    requires i <= |parts|
    ensures |Concat(parts[..i])| <= |Concat(parts)|
    decreases |parts|
  {
    if i < |parts| {
      assert parts[..|parts| - 1][..i] == parts[..i];
      ConcatGrows(parts[..|parts| - 1], i);
    } else {
      assert parts[..i] == parts;
    }
  }

  /** A piece of a concatenation stands where the pieces before it end. */
  lemma {:induction false} PieceAt(parts: seq<seq<byte>>, k: nat)
    requires k < |parts|
    ensures var p := |Concat(parts[..k])|;
            p + |parts[k]| <= |Concat(parts)| && Concat(parts)[p..p + |parts[k]|] == parts[k]
    ensures Concat(parts[..k + 1]) == Concat(parts[..k]) + parts[k]
    decreases |parts|
  {
    assert parts[..k + 1][..k] == parts[..k];
    var front := parts[..|parts| - 1];
    if k < |parts| - 1 {
      assert front[..k] == parts[..k];
      PieceAt(front, k);
    } else {
      assert parts[..k + 1] == parts;
    }
  }

  /** Where a piece of a string that starts at p stands. */
  function StartOf(parts: seq<seq<byte>>, p: nat, i: nat): nat
    requires i <= |parts|
  {
    p + |Concat(parts[..i])|
  }

  lemma SliceFound(data: seq<byte>, p: nat, whole: seq<byte>, q: nat, piece: seq<byte>)
    requires p + |whole| <= |data| && data[p..p + |whole|] == whole
    requires q + |piece| <= |whole| && whole[q..q + |piece|] == piece
    ensures data[p + q..p + q + |piece|] == piece
  {
    SliceOfSlice(data, p, p + |whole|, q, q + |piece|);
  }

  lemma PieceStands(parts: seq<seq<byte>>, data: seq<byte>, p: nat, i: nat)
    requires i < |parts| && p + |Concat(parts)| <= |data| && data[p..p + |Concat(parts)|] == Concat(parts)
    ensures StartOf(parts, p, i) + |parts[i]| == StartOf(parts, p, i + 1) <= |data|
    ensures data[StartOf(parts, p, i)..StartOf(parts, p, i + 1)] == parts[i]
  {
    PieceAt(parts, i);
    PieceFound(data, p, Concat(parts), |Concat(parts[..i])|, |Concat(parts[..i + 1])|, parts[i]);
  }

  lemma PieceFound(data: seq<byte>, p: nat, whole: seq<byte>, q: nat, end: nat, piece: seq<byte>)
    requires p + |whole| <= |data| && data[p..p + |whole|] == whole
    requires end == q + |piece| <= |whole| && whole[q..end] == piece
    ensures data[p + q..p + end] == piece
  {
    SliceFound(data, p, whole, q, piece);
  }
}
