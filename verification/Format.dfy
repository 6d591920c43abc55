/** The entry headers, offset array rows and footers of HSTables, as bytes. */
module Format {
  import opened Bytes
  import opened Coding

  // ----- Sizes held in an int -----

  /** A 64-bit size as a 32-bit int holds it. */
  function Int32(n: nat): (r: int)
    ensures r <= n && (n < 0x8000_0000 ==> r == n) && (0x8000_0000 <= n < 0x1_0000_0000 ==> r < 0)
  {
    if n < 0x8000_0000 then n
    else
      var m := n % 0x1_0000_0000;
      if m < 0x8000_0000 then m else m - 0x1_0000_0000
  }

  /**
   * How far a decoder at p reads that is given the data up to a limit, but holds the size of it in an
   * int. A negative size leaves nothing to read: the end it gives lies before the start.
   */
  function Reach(p: nat, limit: nat): (r: nat)
    requires p <= limit
    ensures p <= r <= limit
  {
    if Int32(limit - p) < 0 then p else p + Int32(limit - p)
  }

  /** What takes some bytes is in reach exactly when it takes no more than the int says there are. */
  lemma InReach(p: nat, limit: nat, size: nat)
    requires p <= limit && 0 < size
    ensures p + size <= Reach(p, limit) <==> size <= Int32(limit - p)
  {}

  lemma ReachBelow(p: nat, limit: nat)
    requires p <= limit < p + 0x8000_0000
    ensures Reach(p, limit) == limit
  {}

  lemma ReachNothing(p: nat, limit: nat)
    requires p + 0x8000_0000 <= limit < p + 0x1_0000_0000
    ensures Reach(p, limit) == p
  {}

  // ----- Reading what may have been cut -----

  ghost predicate Match(data: seq<byte>, p: nat, limit: nat, t: seq<byte>, i: nat)
  {
    p <= i < limit && i < p + |t| && i < |data| ==> data[i] == t[i - p]
  }

  /** Below a limit, the data from p on is t; it may end early. */
  ghost predicate Agrees(data: seq<byte>, p: nat, limit: nat, t: seq<byte>)
  {
    forall i: nat :: Match(data, p, limit, t, i)
  }

  lemma AgreesJoin(data: seq<byte>, p: nat, limit: nat, a: seq<byte>, b: seq<byte>)
    requires Agrees(data, p, limit, a + b)
    ensures Agrees(data, p, limit, a) && Agrees(data, p + |a|, limit, b)
  {
    forall i: nat
      ensures Match(data, p, limit, a, i)
    {
      assert Match(data, p, limit, a + b, i);
    }
    var q := p + |a|;
    forall i: nat
      ensures Match(data, q, limit, b, i)
    {
      assert Match(data, p, limit, a + b, i);
    }
  }

  lemma AgreesBelow(data: seq<byte>, p: nat, limit: nat, lower: nat, t: seq<byte>)
    requires Agrees(data, p, limit, t) && lower <= limit
    ensures Agrees(data, p, lower, t)
  {
    forall i: nat
      ensures Match(data, p, lower, t, i)
    {
      assert Match(data, p, limit, t, i);
    }
  }

  lemma AgreesWhole(data: seq<byte>, p: nat, limit: nat, t: seq<byte>)
    requires p + |t| <= limit <= |data| && Agrees(data, p, limit, t)
    ensures data[p..p + |t|] == t
  {
    forall i | 0 <= i < |t|
      ensures data[p..p + |t|][i] == t[i]
    {
      assert Match(data, p, limit, t, p + i);
    }
  }

  lemma WholeAgrees(data: seq<byte>, p: nat, limit: nat, t: seq<byte>)
    requires p + |t| <= |data| && data[p..p + |t|] == t
    ensures Agrees(data, p, limit, t)
  {
    forall i: nat
      ensures Match(data, p, limit, t, i)
    {
      assert p <= i < p + |t| ==> data[i] == data[p..p + |t|][i - p];
    }
  }

  /** A variable-width integer is read when all of it lies below the limit, and otherwise refused. */
  lemma {:induction false} ReadVarintAgrees(v: nat, data: seq<byte>, p: nat, limit: nat, most: nat)
    requires limit <= |data| && Agrees(data, p, limit, Varint(v)) && |Varint(v)| <= most
    ensures WholeOrNothing(ReadVarint(data, p, limit, most), v, p + |Varint(v)|, limit)
    decreases v
  {
    var t := Varint(v);
    if p < limit {
      assert Match(data, p, limit, t, p);
      if v >= 128 {
        var u := Varint(v / 128);
        assert t == [v % 128 + 128] + u;
        AgreesJoin(data, p, limit, [v % 128 + 128], u);
        ReadVarintAgrees(v / 128, data, p + 1, limit, most - 1);
      }
    }
  }

  // ----- Entry headers -----

  const TYPE_DELETE := 0x1
  const IS_UNCOMPACTED := 0x2
  const HAS_PADDING := 0x4
  const ENTRY_FULL := 0x8

  datatype EntryHeader = EntryHeader(checksumContent: nat, flags: nat, sizeKey: nat, sizeValue: nat,
                                     sizeCompressed: nat, sizePadding: nat, hash: nat)
  {
    predicate Fits()
    {
      && checksumContent < 0x1_0000_0000 && flags < 0x1_0000_0000
      && sizeKey < 0x1_0000_0000_0000_0000 && sizeValue < 0x1_0000_0000_0000_0000
      && sizeCompressed < 0x1_0000_0000_0000_0000 && sizePadding < 0x1_0000_0000_0000_0000
      && hash < 0x1_0000_0000_0000_0000
    }

    predicate IsDelete() { flags % 2 == 1 }

    predicate IsUncompacted() { flags / 2 % 2 == 1 }

    predicate HasPadding() { flags / 4 % 2 == 1 }

    predicate IsEntryFull() { flags / 8 % 2 == 1 }

    predicate IsCompressed() { sizeCompressed > 0 }

    function SizeValueUsed(): nat { if IsCompressed() then sizeCompressed else sizeValue }

    function SizeValueOffset(): nat
    {
      if !IsCompressed() || IsUncompacted() then sizeValue + sizePadding else sizeCompressed
    }
  }

  /** EntryHeader::CalculatePaddingSize: eight bytes for every 64 KB of a value, and eight more. */
  function Padding(size: nat): (padding: nat)
    ensures 8 <= padding
  {
    (size / (64 * 1024) + 1) * 8
  }

  /** What is encoded after the checksum of the header. */
  function HeaderBody(compression: bool, h: EntryHeader): seq<byte>
  {
    Fixed(h.checksumContent, BYTES32)
    + (Varint(h.flags) + (Varint(h.sizeKey) + (Varint(h.sizeValue) + HeaderEnd(compression, h))))
  }

  function HeaderEnd(compression: bool, h: EntryHeader): seq<byte>
  {
    if compression then Fixed(h.sizeCompressed, BYTES64) + (Varint(h.sizePadding) + Fixed(h.hash, BYTES64))
    else Fixed(h.hash, BYTES64)
  }

  /** EntryHeader::EncodeTo; crc8 is the checksum of the header. */
  function EncodeHeader(compression: bool, crc8: seq<byte> -> byte, h: EntryHeader): seq<byte>
  {
    [crc8(HeaderBody(compression, h))] + HeaderBody(compression, h)
  }

  /** A header as it is read back: without compression, two fields are not stored. */
  function Stored(compression: bool, h: EntryHeader): EntryHeader
  {
    if compression then h else h.(sizeCompressed := 0, sizePadding := 0)
  }

  /**
   * EntryHeader::DecodeFrom, given the data from p up to a limit, the size of which it holds in an
   * int. Fixed-width fields are read without a look at the limit, so the data has to go on for a
   * while after it.
   */
  function DecodeHeader(compression: bool, crc8: seq<byte> -> byte, verify: bool, data: seq<byte>, p: nat, limit: nat)
    : (r: Option<(EntryHeader, nat)>)
    requires p <= limit && limit + 16 <= |data|
    ensures r.Some? ==> p < r.value.1 <= limit
  {
    DecodeHeaderTo(compression, crc8, verify, data, p, Reach(p, limit))
  }

  /** The same, reading as far as the limit. */
  function DecodeHeaderTo(compression: bool, crc8: seq<byte> -> byte, verify: bool, data: seq<byte>, p: nat, limit: nat)
    : (r: Option<(EntryHeader, nat)>)
    requires p <= limit && limit + 16 <= |data|
    ensures r.Some? ==> p < r.value.1 <= limit
  {
    match DecodeFlags(compression, data, p + 5, limit)
    case None => None
    case Some((h, end)) =>
      if verify && crc8(data[p + 1..end]) != data[p] then None
      else Some((h.(checksumContent := LittleEndian(data[p + 1..p + 5])), end))
  }

  /** The header from its flags on. */
  function DecodeFlags(compression: bool, data: seq<byte>, p: nat, limit: nat): (r: Option<(EntryHeader, nat)>)
    requires limit + 16 <= |data|
    ensures r.Some? ==> p < r.value.1 <= limit
  {
    match ReadVarint(data, p, limit, MOST32)
    case None => None
    case Some((flags, next)) =>
      match DecodeSizeKey(compression, data, next, limit)
      case None => None
      case Some((h, end)) => Some((h.(flags := Bits32.Truncate(flags)), end))
  }

  function DecodeSizeKey(compression: bool, data: seq<byte>, p: nat, limit: nat): (r: Option<(EntryHeader, nat)>)
    requires limit + 16 <= |data|
    ensures r.Some? ==> p < r.value.1 <= limit
  {
    match ReadVarint(data, p, limit, MOST64)
    case None => None
    case Some((sizeKey, next)) =>
      match DecodeSizeValue(compression, data, next, limit)
      case None => None
      case Some((h, end)) => Some((h.(sizeKey := Bits64.Truncate(sizeKey)), end))
  }

  function DecodeSizeValue(compression: bool, data: seq<byte>, p: nat, limit: nat): (r: Option<(EntryHeader, nat)>)
    requires limit + 16 <= |data|
    ensures r.Some? ==> p < r.value.1 <= limit
  {
    match ReadVarint(data, p, limit, MOST64)
    case None => None
    case Some((sizeValue, next)) =>
      match DecodeEnd(compression, data, next, limit)
      case None => None
      case Some((h, end)) => Some((h.(sizeValue := Bits64.Truncate(sizeValue)), end))
  }

  function DecodeEnd(compression: bool, data: seq<byte>, p: nat, limit: nat): (r: Option<(EntryHeader, nat)>)
    requires p <= limit && limit + 16 <= |data|
    ensures r.Some? ==> p < r.value.1 <= limit
  {
    if compression then
      match ReadVarint(data, p + 8, limit, MOST64)
      case None => None
      case Some((sizePadding, q)) =>
        if limit - q < 8 then None
        else
          Some((EntryHeader(0, 0, 0, 0, LittleEndian(data[p..p + 8]), Bits64.Truncate(sizePadding),
                            LittleEndian(data[q..q + 8])),
                q + 8))
    else if limit - p < 8 then None
    else Some((EntryHeader(0, 0, 0, 0, 0, 0, LittleEndian(data[p..p + 8])), p + 8))
  }

  /** What is read of something that ends at `end`: the whole of it, or nothing where the limit comes earlier. */
  ghost predicate WholeOrNothing<T(!new)>(r: Option<(T, nat)>, x: T, end: nat, limit: nat)
  {
    r == if end <= limit then Some((x, end)) else None
  }

  lemma FixedAgrees(n: nat, data: seq<byte>, p: nat, limit: nat)
    requires n < 0x1_0000_0000_0000_0000 && p + 8 <= limit <= |data| && Agrees(data, p, limit, Fixed(n, BYTES64))
    ensures LittleEndian(data[p..p + 8]) == n
  {
    AgreesWhole(data, p, limit, Fixed(n, BYTES64));
    Fixed64Reads(n);
  }

  /** The part of a header that DecodeEnd, DecodeSizeValue, ... fill in. */
  function Ending(h: EntryHeader): EntryHeader { h.(checksumContent := 0, flags := 0, sizeKey := 0, sizeValue := 0) }

  lemma EndFrom(data: seq<byte>, p: nat, limit: nat, h: EntryHeader, q: nat)
    requires h.Fits() && p + 8 <= q && p <= limit && limit + 16 <= |data|
    requires WholeOrNothing(ReadVarint(data, p + 8, limit, MOST64), h.sizePadding, q, limit)
    requires q + 8 <= limit ==>
               LittleEndian(data[p..p + 8]) == h.sizeCompressed && LittleEndian(data[q..q + 8]) == h.hash
    ensures WholeOrNothing(DecodeEnd(true, data, p, limit), Ending(h), q + 8, limit)
  {}

  ghost predicate FieldReads(v: nat, t: seq<byte>, most: nat, data: seq<byte>, p: nat, limit: nat)
  {
    limit <= |data| && Agrees(data, p, limit, t) ==> WholeOrNothing(ReadVarint(data, p, limit, most), v, p + |t|, limit)
  }

  /** Wherever t stands, it is read as v. */
  ghost predicate ReadsBack(v: nat, t: seq<byte>, most: nat)
  {
    forall data: seq<byte>, p: nat, limit: nat :: FieldReads(v, t, most, data, p, limit)
  }

  lemma VarintReadsBack(v: nat, most: nat)
    requires |Varint(v)| <= most
    ensures ReadsBack(v, Varint(v), most)
  {
    forall data: seq<byte>, p: nat, limit: nat
      ensures FieldReads(v, Varint(v), most, data, p, limit)
    {
      if limit <= |data| && Agrees(data, p, limit, Varint(v)) {
        ReadVarintAgrees(v, data, p, limit, most);
      }
    }
  }

  /** A variable-width field and what follows it. */
  lemma FieldThen(v: nat, t: seq<byte>, rest: seq<byte>, data: seq<byte>, p: nat, limit: nat, most: nat)
    requires limit <= |data| && ReadsBack(v, t, most) && Agrees(data, p, limit, t + rest)
    ensures WholeOrNothing(ReadVarint(data, p, limit, most), v, p + |t|, limit)
    ensures Agrees(data, p + |t|, limit, rest)
  {
    AgreesJoin(data, p, limit, t, rest);
    assert FieldReads(v, t, most, data, p, limit);
  }

  lemma EndCompressed(h: EntryHeader, compressed: seq<byte>, t: seq<byte>, hash: seq<byte>, data: seq<byte>, p: nat,
                      limit: nat)
    requires h.Fits() && p <= limit && limit + 16 <= |data| && ReadsBack(h.sizePadding, t, MOST64)
    requires |compressed| == |hash| == 8 && LittleEndian(compressed) == h.sizeCompressed && LittleEndian(hash) == h.hash
    requires Agrees(data, p, limit, compressed + (t + hash))
    ensures WholeOrNothing(DecodeEnd(true, data, p, limit), Ending(h), p + 16 + |t|, limit)
  {
    AgreesJoin(data, p, limit, compressed, t + hash);
    FieldThen(h.sizePadding, t, hash, data, p + 8, limit, MOST64);
    EndThen(h, compressed, hash, data, p, limit, p + 8 + |t|);
  }

  lemma EndThen(h: EntryHeader, compressed: seq<byte>, hash: seq<byte>, data: seq<byte>, p: nat, limit: nat, q: nat)
    requires h.Fits() && p <= limit && limit + 16 <= |data| && p + 8 <= q
    requires |compressed| == |hash| == 8 && LittleEndian(compressed) == h.sizeCompressed && LittleEndian(hash) == h.hash
    requires Agrees(data, p, limit, compressed) && Agrees(data, q, limit, hash)
    requires WholeOrNothing(ReadVarint(data, p + 8, limit, MOST64), h.sizePadding, q, limit)
    ensures WholeOrNothing(DecodeEnd(true, data, p, limit), Ending(h), q + 8, limit)
  {
    if q + 8 <= limit {
      AgreesWhole(data, p, limit, compressed);
      AgreesWhole(data, q, limit, hash);
    }
    EndFrom(data, p, limit, h, q);
  }

  /** Wherever the end of a header stands, it is read as such. */
  ghost predicate EndReadsBack(compression: bool, h: EntryHeader, t: seq<byte>)
  {
    forall data: seq<byte>, p: nat, limit: nat :: EndReads(compression, h, t, data, p, limit)
  }

  ghost predicate EndReads(compression: bool, h: EntryHeader, t: seq<byte>, data: seq<byte>, p: nat, limit: nat)
  {
    p <= limit && limit + 16 <= |data| && Agrees(data, p, limit, t) ==>
      WholeOrNothing(DecodeEnd(compression, data, p, limit), Ending(h), p + |t|, limit)
  }

  lemma EndAgrees(compression: bool, h: EntryHeader)
    requires h.Fits()
    ensures EndReadsBack(compression, Stored(compression, h), HeaderEnd(compression, h))
  {
    Varint64Fits(h.sizePadding);
    VarintReadsBack(h.sizePadding, MOST64);
    Fixed64Reads(h.sizeCompressed);
    Fixed64Reads(h.hash);
    forall data: seq<byte>, p: nat, limit: nat
      ensures EndReads(compression, Stored(compression, h), HeaderEnd(compression, h), data, p, limit)
    {
      if p <= limit && limit + 16 <= |data| && Agrees(data, p, limit, HeaderEnd(compression, h)) {
        if compression {
          EndCompressed(h, Fixed(h.sizeCompressed, BYTES64), Varint(h.sizePadding), Fixed(h.hash, BYTES64), data, p,
                        limit);
        } else if p + 8 <= limit {
          FixedAgrees(h.hash, data, p, limit);
        }
      }
    }
  }

  lemma SizeValueFrom(compression: bool, data: seq<byte>, p: nat, limit: nat, h: EntryHeader, q: nat, end: nat)
    requires h.Fits() && p <= q <= end && limit + 16 <= |data|
    requires WholeOrNothing(ReadVarint(data, p, limit, MOST64), h.sizeValue, q, limit)
    requires q <= limit ==> WholeOrNothing(DecodeEnd(compression, data, q, limit), Ending(h), end, limit)
    ensures WholeOrNothing(DecodeSizeValue(compression, data, p, limit), Ending(h).(sizeValue := h.sizeValue), end,
                           limit)
  {}

  lemma SizeKeyFrom(compression: bool, data: seq<byte>, p: nat, limit: nat, h: EntryHeader, q: nat, end: nat)
    requires h.Fits() && p <= q <= end && limit + 16 <= |data|
    requires WholeOrNothing(ReadVarint(data, p, limit, MOST64), h.sizeKey, q, limit)
    requires WholeOrNothing(DecodeSizeValue(compression, data, q, limit), Ending(h).(sizeValue := h.sizeValue), end,
                            limit)
    ensures WholeOrNothing(DecodeSizeKey(compression, data, p, limit), h.(checksumContent := 0, flags := 0), end, limit)
  {}

  lemma FlagsFrom(compression: bool, data: seq<byte>, p: nat, limit: nat, h: EntryHeader, q: nat, end: nat)
    requires h.Fits() && p <= q <= end && limit + 16 <= |data|
    requires WholeOrNothing(ReadVarint(data, p, limit, MOST32), h.flags, q, limit)
    requires WholeOrNothing(DecodeSizeKey(compression, data, q, limit), h.(checksumContent := 0, flags := 0), end,
                            limit)
    ensures WholeOrNothing(DecodeFlags(compression, data, p, limit), h.(checksumContent := 0), end, limit)
  {}

  /** The header from the size of its key on, with its fields given as bytes. */
  lemma SizesAgree(compression: bool, h: EntryHeader, t2: seq<byte>, t3: seq<byte>, t4: seq<byte>, data: seq<byte>,
                   p1: nat, limit: nat, end: nat)
    requires h.Fits() && limit + 16 <= |data| && Agrees(data, p1, limit, t2 + (t3 + t4))
    requires ReadsBack(h.sizeKey, t2, MOST64) && ReadsBack(h.sizeValue, t3, MOST64) && EndReadsBack(compression, h, t4)
    requires end == p1 + |t2| + |t3| + |t4|
    ensures WholeOrNothing(DecodeSizeKey(compression, data, p1, limit), h.(checksumContent := 0, flags := 0), end,
                           limit)
  {
    var p2: nat := p1 + |t2|;
    var p3: nat := p2 + |t3|;
    FieldThen(h.sizeKey, t2, t3 + t4, data, p1, limit, MOST64);
    FieldThen(h.sizeValue, t3, t4, data, p2, limit, MOST64);
    assert EndReads(compression, h, t4, data, p3, limit);
    SizeValueFrom(compression, data, p2, limit, h, p3, end);
    SizeKeyFrom(compression, data, p1, limit, h, p2, end);
  }

  /** The header from its flags on. */
  lemma FlagsAgree(compression: bool, h: EntryHeader, t1: seq<byte>, t2: seq<byte>, t3: seq<byte>, t4: seq<byte>,
                   data: seq<byte>, p: nat, limit: nat)
    requires h.Fits() && limit + 16 <= |data| && Agrees(data, p, limit, t1 + (t2 + (t3 + t4)))
    requires ReadsBack(h.flags, t1, MOST32) && ReadsBack(h.sizeKey, t2, MOST64) && ReadsBack(h.sizeValue, t3, MOST64)
    requires EndReadsBack(compression, h, t4)
    ensures WholeOrNothing(DecodeFlags(compression, data, p, limit), h.(checksumContent := 0),
                           p + |t1 + (t2 + (t3 + t4))|, limit)
  {
    var end: nat := p + |t1| + |t2| + |t3| + |t4|;
    AgreesJoin(data, p, limit, t1, t2 + (t3 + t4));
    SizesAgree(compression, h, t2, t3, t4, data, p + |t1|, limit, end);
    FlagsThen(compression, h, t1, data, p, limit, p + |t1|, end);
  }

  lemma FlagsThen(compression: bool, h: EntryHeader, t1: seq<byte>, data: seq<byte>, p: nat, limit: nat, q: nat,
                  end: nat)
    requires h.Fits() && limit + 16 <= |data| && Agrees(data, p, limit, t1) && ReadsBack(h.flags, t1, MOST32)
    requires q == p + |t1| <= end
    requires WholeOrNothing(DecodeSizeKey(compression, data, q, limit), h.(checksumContent := 0, flags := 0), end,
                            limit)
    ensures WholeOrNothing(DecodeFlags(compression, data, p, limit), h.(checksumContent := 0), end, limit)
  {
    assert FieldReads(h.flags, t1, MOST32, data, p, limit);
    FlagsFrom(compression, data, p, limit, h, q, end);
  }

  /**
   * What is read of a header body that stands at p: the fields after the checksum of the content, and that
   * checksum.
   */
  ghost predicate BodyReads(compression: bool, h: EntryHeader, body: seq<byte>, data: seq<byte>, p: nat, limit: nat)
  {
    limit + 16 <= |data| && Agrees(data, p, limit, body) ==>
      && WholeOrNothing(DecodeFlags(compression, data, p + 4, limit), h.(checksumContent := 0), p + |body|, limit)
      && (p + |body| <= limit ==> LittleEndian(data[p..p + 4]) == h.checksumContent && data[p..p + |body|] == body)
  }

  ghost predicate BodyReadsBack(compression: bool, h: EntryHeader, body: seq<byte>)
  {
    4 <= |body| && forall data: seq<byte>, p: nat, limit: nat :: BodyReads(compression, h, body, data, p, limit)
  }

  lemma BodyAt(compression: bool, h: EntryHeader, t0: seq<byte>, t1: seq<byte>, t2: seq<byte>, t3: seq<byte>,
               t4: seq<byte>, body: seq<byte>, data: seq<byte>, p: nat, limit: nat)
    requires h.Fits() && |t0| == 4 && LittleEndian(t0) == h.checksumContent
    requires ReadsBack(h.flags, t1, MOST32) && ReadsBack(h.sizeKey, t2, MOST64) && ReadsBack(h.sizeValue, t3, MOST64)
    requires EndReadsBack(compression, h, t4)
    requires body == t0 + (t1 + (t2 + (t3 + t4))) && limit + 16 <= |data| && Agrees(data, p, limit, body)
    ensures WholeOrNothing(DecodeFlags(compression, data, p + 4, limit), h.(checksumContent := 0), p + |body|, limit)
    ensures p + |body| <= limit ==> LittleEndian(data[p..p + 4]) == h.checksumContent && data[p..p + |body|] == body
  {
    var rest := t1 + (t2 + (t3 + t4));
    AgreesJoin(data, p, limit, t0, rest);
    FlagsAgree(compression, h, t1, t2, t3, t4, data, p + 4, limit);
    if p + |body| <= limit {
      AgreesWhole(data, p, limit, body);
      AgreesWhole(data, p, limit, t0);
    }
  }

  /** A header body whose fields are given as bytes. */
  lemma BodyFrom(compression: bool, h: EntryHeader, t0: seq<byte>, t1: seq<byte>, t2: seq<byte>, t3: seq<byte>,
                 t4: seq<byte>, body: seq<byte>)
    requires h.Fits() && |t0| == 4 && LittleEndian(t0) == h.checksumContent
    requires ReadsBack(h.flags, t1, MOST32) && ReadsBack(h.sizeKey, t2, MOST64) && ReadsBack(h.sizeValue, t3, MOST64)
    requires EndReadsBack(compression, h, t4) && body == t0 + (t1 + (t2 + (t3 + t4)))
    ensures BodyReadsBack(compression, h, body)
  {
    forall data: seq<byte>, p: nat, limit: nat
      ensures BodyReads(compression, h, body, data, p, limit)
    {
      if limit + 16 <= |data| && Agrees(data, p, limit, body) {
        BodyAt(compression, h, t0, t1, t2, t3, t4, body, data, p, limit);
      }
    }
  }

  lemma BodyAgrees(compression: bool, h: EntryHeader)
    requires h.Fits()
    ensures BodyReadsBack(compression, Stored(compression, h), HeaderBody(compression, h))
  {
    Fixed32Reads(h.checksumContent);
    Varint32Fits(h.flags);
    Varint64Fits(h.sizeKey);
    Varint64Fits(h.sizeValue);
    VarintReadsBack(h.flags, MOST32);
    VarintReadsBack(h.sizeKey, MOST64);
    VarintReadsBack(h.sizeValue, MOST64);
    EndAgrees(compression, h);
    BodyFrom(compression, Stored(compression, h), Fixed(h.checksumContent, BYTES32), Varint(h.flags), Varint(h.sizeKey),
             Varint(h.sizeValue), HeaderEnd(compression, h), HeaderBody(compression, h));
  }

  /** A header that stands at p is read back, or refused where it is cut or reaches beyond what the int says. */
  ghost predicate HeaderReads(compression: bool, crc8: seq<byte> -> byte, verify: bool, h: EntryHeader, t: seq<byte>,
                              data: seq<byte>, p: nat, limit: nat)
  {
    p <= limit && limit + 16 <= |data| && Agrees(data, p, limit, t) ==>
      WholeOrNothing(DecodeHeader(compression, crc8, verify, data, p, limit), h, p + |t|, Reach(p, limit))
  }

  ghost predicate HeaderReadsBack(compression: bool, crc8: seq<byte> -> byte, h: EntryHeader, t: seq<byte>)
  {
    forall verify: bool, data: seq<byte>, p: nat, limit: nat ::
      HeaderReads(compression, crc8, verify, h, t, data, p, limit)
  }

  lemma HeaderFromAt(compression: bool, crc8: seq<byte> -> byte, verify: bool, h: EntryHeader, body: seq<byte>,
                     data: seq<byte>, p: nat, limit: nat)
    requires p <= limit && limit + 16 <= |data| && 4 <= |body| && BodyReads(compression, h, body, data, p + 1, limit)
    requires Agrees(data, p + 1, limit, body) && (p < limit ==> data[p] == crc8(body))
    ensures WholeOrNothing(DecodeHeaderTo(compression, crc8, verify, data, p, limit), h, p + 1 + |body|, limit)
  {}

  lemma HeaderStands(compression: bool, crc8: seq<byte> -> byte, verify: bool, h: EntryHeader, body: seq<byte>,
                     t: seq<byte>, data: seq<byte>, p: nat, limit: nat, reach: nat)
    requires BodyReadsBack(compression, h, body) && t == [crc8(body)] + body
    requires p <= reach <= limit && limit + 16 <= |data| && Agrees(data, p, limit, t)
    ensures WholeOrNothing(DecodeHeaderTo(compression, crc8, verify, data, p, reach), h, p + |t|, reach)
  {
    AgreesBelow(data, p, limit, reach, t);
    AgreesJoin(data, p, reach, [crc8(body)], body);
    assert BodyReads(compression, h, body, data, p + 1, reach);
    assert Match(data, p, reach, [crc8(body)], p);
    HeaderFromAt(compression, crc8, verify, h, body, data, p, reach);
  }

  lemma HeaderFrom(compression: bool, crc8: seq<byte> -> byte, h: EntryHeader, body: seq<byte>, t: seq<byte>)
    requires BodyReadsBack(compression, h, body) && t == [crc8(body)] + body
    ensures HeaderReadsBack(compression, crc8, h, t)
  {
    forall verify: bool, data: seq<byte>, p: nat, limit: nat
      ensures HeaderReads(compression, crc8, verify, h, t, data, p, limit)
    {
      if p <= limit && limit + 16 <= |data| && Agrees(data, p, limit, t) {
        HeaderStands(compression, crc8, verify, h, body, t, data, p, limit, Reach(p, limit));
      }
    }
  }

  /** From 2^31 bytes up to 2^32 the int is negative, and every header is refused, whatever it is. */
  lemma HeaderRefused(compression: bool, crc8: seq<byte> -> byte, verify: bool, data: seq<byte>, p: nat, limit: nat)
    requires p + 0x8000_0000 <= limit < p + 0x1_0000_0000 && limit + 16 <= |data|
    ensures DecodeHeader(compression, crc8, verify, data, p, limit) == None
  {
    ReachNothing(p, limit);
    assert DecodeFlags(compression, data, p + 5, p) == None;
  }

  /**
   * Reading a header gives back what was written exactly when all of it is there and the size of the
   * data, as an int, is not less than that of the header.
   */
  lemma HeaderRoundTrip(compression: bool, crc8: seq<byte> -> byte, h: EntryHeader)
    requires h.Fits()
    ensures HeaderReadsBack(compression, crc8, Stored(compression, h), EncodeHeader(compression, crc8, h))
  {
    BodyAgrees(compression, h);
    HeaderFrom(compression, crc8, Stored(compression, h), HeaderBody(compression, h),
               EncodeHeader(compression, crc8, h));
  }

  /** The header that a last part writes again: what is recorded only then, and the flags, do not change its size. */
  lemma RewrittenHeaderFits(compression: bool, crc8: seq<byte> -> byte, first: EntryHeader, last: EntryHeader)
    requires first.flags < 128 && last.flags < 128
    requires first.sizeKey == last.sizeKey && first.sizeValue == last.sizeValue && first.sizePadding == last.sizePadding
    ensures |EncodeHeader(compression, crc8, first)| == |EncodeHeader(compression, crc8, last)|
  {}

  // ----- Offset arrays -----

  datatype Row = Row(hash: nat, offset: nat)
  {
    predicate Fits() { hash < 0x1_0000_0000_0000_0000 && offset < 0x1_0000_0000 }
  }

  function EncodeRow(row: Row): seq<byte>
  {
    Varint(row.hash) + Varint(row.offset)
  }

  /** OffsetArrayRow::DecodeFrom, which holds the size of the data from p up to a limit in an int. */
  function DecodeRow(data: seq<byte>, p: nat, limit: nat): (r: Option<(Row, nat)>)
    requires p <= limit <= |data|
    ensures r.Some? ==> p < r.value.1 <= limit
  {
    DecodeRowTo(data, p, Reach(p, limit))
  }

  /** The same, reading as far as the limit. */
  function DecodeRowTo(data: seq<byte>, p: nat, limit: nat): (r: Option<(Row, nat)>)
    requires limit <= |data|
    ensures r.Some? ==> p < r.value.1 <= limit
  {
    match ReadVarint(data, p, limit, MOST64)
    case None => None
    case Some((hash, q)) =>
      match ReadVarint(data, q, limit, MOST32)
      case None => None
      case Some((offset, end)) => Some((Row(Bits64.Truncate(hash), Bits32.Truncate(offset)), end))
  }

  lemma RowFrom(row: Row, data: seq<byte>, p: nat, limit: nat, q: nat, end: nat)
    requires row.Fits() && limit <= |data| && q <= end
    requires WholeOrNothing(ReadVarint(data, p, limit, MOST64), row.hash, q, limit)
    requires WholeOrNothing(ReadVarint(data, q, limit, MOST32), row.offset, end, limit)
    ensures WholeOrNothing(DecodeRowTo(data, p, limit), row, end, limit)
  {}

  lemma RowAt(row: Row, t1: seq<byte>, t2: seq<byte>, data: seq<byte>, p: nat, limit: nat)
    requires row.Fits() && ReadsBack(row.hash, t1, MOST64) && ReadsBack(row.offset, t2, MOST32)
    requires limit <= |data| && Agrees(data, p, limit, t1 + t2)
    ensures WholeOrNothing(DecodeRowTo(data, p, limit), row, p + |t1| + |t2|, limit)
  {
    var q: nat := p + |t1|;
    FieldThen(row.hash, t1, t2, data, p, limit, MOST64);
    assert FieldReads(row.offset, t2, MOST32, data, q, limit);
    RowFrom(row, data, p, limit, q, q + |t2|);
  }

  ghost predicate RowReads(row: Row, t: seq<byte>, data: seq<byte>, p: nat, limit: nat)
  {
    p <= limit <= |data| && Agrees(data, p, limit, t) ==>
      WholeOrNothing(DecodeRow(data, p, limit), row, p + |t|, Reach(p, limit))
  }

  ghost predicate RowReadsBack(row: Row, t: seq<byte>)
  {
    forall data: seq<byte>, p: nat, limit: nat :: RowReads(row, t, data, p, limit)
  }

  /**
   * Reading a row gives back what was written exactly when the size of the data, as an int, is not less than
   * its own.
   */
  lemma RowRoundTrip(row: Row)
    requires row.Fits()
    ensures RowReadsBack(row, EncodeRow(row))
  {
    Varint64Fits(row.hash);
    Varint32Fits(row.offset);
    VarintReadsBack(row.hash, MOST64);
    VarintReadsBack(row.offset, MOST32);
    forall data: seq<byte>, p: nat, limit: nat
      ensures RowReads(row, EncodeRow(row), data, p, limit)
    {
      if p <= limit <= |data| && Agrees(data, p, limit, EncodeRow(row)) {
        AgreesBelow(data, p, limit, Reach(p, limit), EncodeRow(row));
        RowAt(row, Varint(row.hash), Varint(row.offset), data, p, Reach(p, limit));
      }
    }
  }

  /** The same for rows. */
  lemma RowRefused(data: seq<byte>, p: nat, limit: nat)
    requires p + 0x8000_0000 <= limit < p + 0x1_0000_0000 && limit <= |data|
    ensures DecodeRow(data, p, limit) == None
  {
    ReachNothing(p, limit);
  }

  function RowPieces(rows: seq<Row>): (r: seq<seq<byte>>)
    ensures |r| == |rows| && forall i :: 0 <= i < |rows| ==> r[i] == EncodeRow(rows[i])
  {
    seq(|rows|, i requires 0 <= i < |rows| => EncodeRow(rows[i]))
  }

  /** The rows of an offset array, one after another. */
  function EncodeRows(rows: seq<Row>): seq<byte>
  {
    Concat(RowPieces(rows))
  }

  // ----- Footers -----

  const MAGIC := 0x4d45_4f57
  const FOOTER_SIZE := 36

  datatype Footer = Footer(filetype: nat, flags: nat, offsetIndexes: nat, numEntries: nat, magic: nat)
  {
    predicate Fits()
    {
      && filetype < 0x1_0000_0000 && flags < 0x1_0000_0000 && offsetIndexes < 0x1_0000_0000_0000_0000
      && numEntries < 0x1_0000_0000_0000_0000 && magic < 0x1_0000_0000_0000_0000
    }
  }

  /** HSTableFooter::EncodeTo, which leaves the checksum to the writer. */
  function EncodeFooter(f: Footer): (s: seq<byte>)
    ensures |s| == 32
  {
    Fixed(f.filetype, BYTES32) + Fixed(f.flags, BYTES32) + Fixed(f.offsetIndexes, BYTES64) + Fixed(f.numEntries,
                                                                                                   BYTES64)
    + Fixed(f.magic, BYTES64)
  }

  /** HSTableFooter::DecodeFrom, without the checksum. */
  function DecodeFooter(data: seq<byte>, p: nat): Footer
    requires p + FOOTER_SIZE <= |data|
  {
    Footer(LittleEndian(data[p..p + 4]), LittleEndian(data[p + 4..p + 8]), LittleEndian(data[p + 8..p + 16]),
           LittleEndian(data[p + 16..p + 24]), LittleEndian(data[p + 24..p + 32]))
  }

  /** Five pieces laid end to end are found where they were put. */
  lemma FooterPieces(a: seq<byte>, b: seq<byte>, c: seq<byte>, d: seq<byte>, e: seq<byte>, data: seq<byte>, p: nat)
    requires |a| == |b| == 4 && |c| == |d| == |e| == 8 && p + 32 <= |data| && data[p..p + 32] == a + b + c + d + e
    ensures data[p..p + 4] == a && data[p + 4..p + 8] == b && data[p + 8..p + 16] == c
    ensures data[p + 16..p + 24] == d && data[p + 24..p + 32] == e
  {
    Split3(data, p, p + 32, a + b + c, d, e);
    Split3(data, p, p + 16, a, b, c);
  }

  ghost predicate FooterReads(f: Footer, t: seq<byte>, data: seq<byte>, p: nat)
  {
    p + FOOTER_SIZE <= |data| && data[p..p + 32] == t ==> DecodeFooter(data, p) == f
  }

  ghost predicate FooterReadsBack(f: Footer, t: seq<byte>)
  {
    |t| == 32 && forall data: seq<byte>, p: nat :: FooterReads(f, t, data, p)
  }

  /** Reading a footer gives back what was written, wherever it stands. */
  lemma FooterRoundTrip(f: Footer)
    requires f.Fits()
    ensures FooterReadsBack(f, EncodeFooter(f))
  {
    Fixed32Reads(f.filetype);
    Fixed32Reads(f.flags);
    Fixed64Reads(f.offsetIndexes);
    Fixed64Reads(f.numEntries);
    Fixed64Reads(f.magic);
    forall data: seq<byte>, p: nat
      ensures FooterReads(f, EncodeFooter(f), data, p)
    {
      if p + FOOTER_SIZE <= |data| && data[p..p + 32] == EncodeFooter(f) {
        FooterPieces(Fixed(f.filetype, BYTES32), Fixed(f.flags, BYTES32), Fixed(f.offsetIndexes, BYTES64),
                     Fixed(f.numEntries, BYTES64), Fixed(f.magic, BYTES64), data, p);
      }
    }
  }

  // ----- Bytes -----

  lemma FixedBytes(v: nat, k: nat, low: byte, rest: nat)
    requires 0 < k && v == low + 0x100 * rest
    ensures Fixed(v, k) == [low] + Fixed(rest, k - 1)
  {}

  /** Four bytes of a number, the lowest first. */
  lemma FourBytes(v: nat, a: byte, b: byte, c: byte, d: byte, k: nat)
    requires v == a + 0x100 * (b as int + 0x100 * (c as int + 0x100 * d as int)) && 4 <= k
    ensures Fixed(v, k) == [a, b, c, d] + Fixed(0, k - 4)
  {
    var cd := c as int + 0x100 * d as int;
    FixedBytes(v, k, a, b as int + 0x100 * cd);
    FixedBytes(b as int + 0x100 * cd, k - 1, b, cd);
    FixedBytes(cd, k - 2, c, d);
    FixedBytes(d, k - 3, d, 0);
  }

  /** The bytes of a footer, up to the checksum. */
  lemma FooterBytes()
    ensures EncodeFooter(Footer(1, 2, 0x2000, 3, MAGIC))
         == [1, 0, 0, 0, 2, 0, 0, 0] + [0, 0x20, 0, 0, 0, 0, 0, 0] + [3, 0, 0, 0, 0, 0, 0, 0]
            + [0x57, 0x4f, 0x45, 0x4d, 0, 0, 0, 0]
  {
    FourBytes(1, 1, 0, 0, 0, 4);
    FourBytes(2, 2, 0, 0, 0, 4);
    FourBytes(0x2000, 0, 0x20, 0, 0, 8);
    FourBytes(3, 3, 0, 0, 0, 8);
    FourBytes(MAGIC, 0x57, 0x4f, 0x45, 0x4d, 8);
    FourBytes(0, 0, 0, 0, 0, 4);
  }
}
