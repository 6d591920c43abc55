/**
 * HSTables as bytes: the offset array that ends a file and the loading of it, and the recovery of a
 * file that was cut.
 */
module HSTable {
  import opened Bytes
  import opened Words
  import opened Coding
  import opened Orders
  import opened Format
  import opened Storage

  const FILE_HEADER_SIZE := 8192

  type Crc = seq<byte> -> nat

  ghost predicate IsCrc32(crc: Crc)
  {
    forall s: seq<byte> :: crc(s) < 0x1_0000_0000
  }

  // ----- Offset arrays -----

  /** What WriteOffsetArray appends to a file that ends at a position. */
  function Trailer(crc: Crc, rows: seq<Row>, filetype: nat, flags: nat, position: nat): seq<byte>
  {
    var body := EncodeRows(rows) + EncodeFooter(Footer(filetype, flags, position, |rows|, MAGIC));
    body + Fixed(crc(body), BYTES32)
  }

  method WriteOffsetArray(crc: Crc, file: seq<byte>, rows: seq<Row>, filetype: nat, flags: nat) returns (r: seq<byte>)
    ensures r == file + Trailer(crc, rows, filetype, flags, |file|)
  {
    var buffer: seq<byte> := [];
    for i := 0 to |rows|
      invariant buffer == EncodeRows(rows[..i])
    {
      ConcatSnoc(RowPieces(rows[..i]), EncodeRow(rows[i]));
      assert RowPieces(rows[..i + 1]) == RowPieces(rows[..i]) + [EncodeRow(rows[i])];
      buffer := buffer + EncodeRow(rows[i]);
    }
    assert rows[..|rows|] == rows;
    buffer := buffer + EncodeFooter(Footer(filetype, flags, |file|, |rows|, MAGIC));
    buffer := buffer + Fixed(crc(buffer), BYTES32);
    r := file + buffer;
  }

  /** How the rows of a file are decoded, from a position on. */
  type RowDecoder = nat -> Option<(Row, nat)>

  function Decoder(file: seq<byte>): RowDecoder
  {
    (p: nat) => if p <= |file| then DecodeRow(file, p, |file|) else None
  }

  function ReadRows(decode: RowDecoder, p: nat, n: nat): Option<seq<Row>>
    decreases n
  {
    if n == 0 then Some([])
    else match decode(p)
      case None => None
      case Some((row, next)) =>
        match ReadRows(decode, next, n - 1)
        case None => None
        case Some(rows) => Some([row] + rows)
  }

  /** The recorded position of the offset array lies inside the file. */
  predicate FooterInside(file: seq<byte>)
  {
    FOOTER_SIZE <= |file| && DecodeFooter(file, |file| - FOOTER_SIZE).offsetIndexes <= |file| - 4
  }

  /** The rows that LoadFile finds in a file, unless its footer is invalid. */
  function Loaded(crc: Crc, file: seq<byte>): Option<seq<Row>>
  {
    if !FooterInside(file) then None
    else
      var footer := DecodeFooter(file, |file| - FOOTER_SIZE);
      if footer.magic != MAGIC then None
      else if crc(file[footer.offsetIndexes..|file| - 4]) != LittleEndian(file[|file| - 4..]) then None
      else ReadRows(Decoder(file), footer.offsetIndexes, footer.numEntries)
  }

  /** The rows from the i-th on are read from where it stands. */
  lemma {:induction false} ReadRowsFrom(decode: RowDecoder, rows: seq<Row>, pieces: seq<seq<byte>>, p: nat, i: nat)
    requires i <= |rows| == |pieces|
    requires forall j :: 0 <= j < |rows| ==> decode(StartOf(pieces, p, j)) == Some((rows[j], StartOf(pieces, p, j + 1)))
    ensures ReadRows(decode, StartOf(pieces, p, i), |rows| - i) == Some(rows[i..])
    decreases |rows| - i
  {
    if i < |rows| {
      ReadRowsFrom(decode, rows, pieces, p, i + 1);
      assert rows[i..] == [rows[i]] + rows[i + 1..];
    } else {
      assert rows[i..] == [];
    }
  }

  /** A row is decoded where it stands, or refused. */
  ghost predicate RowOrNothing(decode: RowDecoder, rows: seq<Row>, pieces: seq<seq<byte>>, p: nat, j: nat)
    requires |rows| == |pieces|
  {
    j < |rows| ==>
      var r := decode(StartOf(pieces, p, j));
      r == Some((rows[j], StartOf(pieces, p, j + 1))) || r == None
  }

  /** A row that is refused ends the reading. */
  lemma {:induction false} ReadRowsStops(decode: RowDecoder, rows: seq<Row>, pieces: seq<seq<byte>>, p: nat, i: nat,
                                         k: nat, n: nat)
    requires i <= k < |rows| == |pieces| && n == |rows| - i && decode(StartOf(pieces, p, k)) == None
    requires forall j: nat :: RowOrNothing(decode, rows, pieces, p, j)
    ensures ReadRows(decode, StartOf(pieces, p, i), n) == None
    decreases k - i
  {
    assert RowOrNothing(decode, rows, pieces, p, i);
    if i < k {
      ReadRowsStops(decode, rows, pieces, p, i + 1, k, n - 1);
    }
  }

  /** A row is decoded exactly when it is in reach. */
  lemma RowDecodes(row: Row, t: seq<byte>, data: seq<byte>, p: nat, end: nat)
    requires RowReadsBack(row, t) && p + |t| == end <= |data| && data[p..end] == t
    ensures Decoder(data)(p) == if end <= Reach(p, |data|) then Some((row, end)) else None
  {
    WholeAgrees(data, p, |data|, t);
    RowReadsAt(row, t, data, p, end);
  }

  lemma RowReadsAt(row: Row, t: seq<byte>, data: seq<byte>, p: nat, end: nat)
    requires RowReadsBack(row, t) && p + |t| == end <= |data| && Agrees(data, p, |data|, t)
    ensures DecodeRow(data, p, |data|) == if end <= Reach(p, |data|) then Some((row, end)) else None
  {
    assert RowReads(row, t, data, p, |data|);
  }

  lemma RowStands(rows: seq<Row>, pieces: seq<seq<byte>>, data: seq<byte>, p: nat, i: nat)
    requires i < |rows| && rows[i].Fits() && pieces == RowPieces(rows)
    requires p + |Concat(pieces)| <= |data| && data[p..p + |Concat(pieces)|] == Concat(pieces)
    ensures StartOf(pieces, p, i) < StartOf(pieces, p, i + 1) <= |data|
    ensures StartOf(pieces, p, i + 1) <= StartOf(pieces, p, i) + 15
    ensures Decoder(data)(StartOf(pieces, p, i))
         == if StartOf(pieces, p, i + 1) <= Reach(StartOf(pieces, p, i), |data|)
            then Some((rows[i], StartOf(pieces, p, i + 1))) else None
  {
    PieceStands(pieces, data, p, i);
    RowSize(rows[i]);
    RowRoundTrip(rows[i]);
    RowDecodes(rows[i], pieces[i], data, StartOf(pieces, p, i), StartOf(pieces, p, i + 1));
  }

  lemma RowSize(row: Row)
    requires row.Fits()
    ensures 2 <= |EncodeRow(row)| <= 15
  {
    Varint64Fits(row.hash);
    Varint32Fits(row.offset);
  }

  /**
   * Among rows of which the first is too far from the end for an int, and the end is not, there is one that
   * the int puts before the start.
   */
  lemma FarRow(at: seq<nat>, size: nat) returns (k: nat)
    requires |at| > 1 && at[0] + 0x8000_0000 <= size < at[|at| - 1] + 0x8000_0000
    requires forall i :: 0 <= i < |at| - 1 ==> at[i] < at[i + 1] <= at[i] + 15
    ensures k < |at| - 1 && at[k] + 0x8000_0000 <= size < at[k] + 0x1_0000_0000
  {
    k := 0;
    while at[k + 1] + 0x8000_0000 <= size
      invariant k < |at| - 1 && at[k] + 0x8000_0000 <= size
      decreases |at| - k
    {
      k := k + 1;
    }
  }

  /** Rows that end a file are read when an int can hold what is left of the file from the first on. */
  lemma RowsNear(rows: seq<Row>, pieces: seq<seq<byte>>, data: seq<byte>, p: nat)
    requires pieces == RowPieces(rows) && forall j :: 0 <= j < |rows| ==> rows[j].Fits()
    requires p + |Concat(pieces)| <= |data| < p + 0x8000_0000 && data[p..p + |Concat(pieces)|] == Concat(pieces)
    ensures ReadRows(Decoder(data), StartOf(pieces, p, 0), |rows|) == Some(rows)
  {
    forall i | 0 <= i < |rows|
      ensures Decoder(data)(StartOf(pieces, p, i)) == Some((rows[i], StartOf(pieces, p, i + 1)))
    {
      RowStands(rows, pieces, data, p, i);
      ReachBelow(StartOf(pieces, p, i), |data|);
    }
    ReadRowsFrom(Decoder(data), rows, pieces, p, 0);
    assert rows[0..] == rows;
  }

  /** When an int cannot hold that, some row is refused. */
  lemma FarRowRefused(rows: seq<Row>, pieces: seq<seq<byte>>, data: seq<byte>, p: nat) returns (k: nat)
    requires pieces == RowPieces(rows) && rows != [] && forall j :: 0 <= j < |rows| ==> rows[j].Fits()
    requires p + |Concat(pieces)| <= |data| < p + |Concat(pieces)| + 0x8000_0000 && p + 0x8000_0000 <= |data|
    requires data[p..p + |Concat(pieces)|] == Concat(pieces)
    ensures k < |rows| && Decoder(data)(StartOf(pieces, p, k)) == None
  {
    var at := seq(|rows| + 1, i requires 0 <= i <= |rows| => StartOf(pieces, p, i));
    forall i | 0 <= i < |rows|
      ensures at[i] < at[i + 1] <= at[i] + 15
    {
      RowStands(rows, pieces, data, p, i);
    }
    assert pieces[..0] == [] && pieces[..|pieces|] == pieces;
    k := FarRow(at, |data|);
    RowStands(rows, pieces, data, p, k);
    ReachNothing(at[k], |data|);
  }

  /** Whatever the size of the file, no row is read as anything but itself. */
  lemma RowsOrNothing(rows: seq<Row>, pieces: seq<seq<byte>>, data: seq<byte>, p: nat)
    requires pieces == RowPieces(rows) && forall j :: 0 <= j < |rows| ==> rows[j].Fits()
    requires p + |Concat(pieces)| <= |data| && data[p..p + |Concat(pieces)|] == Concat(pieces)
    ensures forall j: nat :: RowOrNothing(Decoder(data), rows, pieces, p, j)
  {
    forall j: nat
      ensures RowOrNothing(Decoder(data), rows, pieces, p, j)
    {
      if j < |rows| {
        RowStands(rows, pieces, data, p, j);
      }
    }
  }

  lemma RowsFar(rows: seq<Row>, pieces: seq<seq<byte>>, data: seq<byte>, p: nat)
    requires pieces == RowPieces(rows) && rows != [] && forall j :: 0 <= j < |rows| ==> rows[j].Fits()
    requires p + |Concat(pieces)| <= |data| < p + |Concat(pieces)| + 0x8000_0000 && p + 0x8000_0000 <= |data|
    requires data[p..p + |Concat(pieces)|] == Concat(pieces)
    ensures ReadRows(Decoder(data), StartOf(pieces, p, 0), |rows|) == None
  {
    var k := FarRowRefused(rows, pieces, data, p);
    RowsOrNothing(rows, pieces, data, p);
    ReadRowsStops(Decoder(data), rows, pieces, p, 0, k, |rows|);
  }

  /** So rows that end a file are read exactly when there are none, or an int can hold what is left. */
  lemma RowsDecode(rows: seq<Row>, data: seq<byte>, p: nat)
    requires forall j :: 0 <= j < |rows| ==> rows[j].Fits()
    requires p + |EncodeRows(rows)| <= |data| < p + |EncodeRows(rows)| + 0x8000_0000
    requires data[p..p + |EncodeRows(rows)|] == EncodeRows(rows)
    ensures ReadRows(Decoder(data), p, |rows|) == if rows == [] || |data| < p + 0x8000_0000 then Some(rows) else None
  {
    var pieces := RowPieces(rows);
    assert pieces[..0] == [] && StartOf(pieces, p, 0) == p;
    if |data| < p + 0x8000_0000 {
      RowsNear(rows, pieces, data, p);
    } else if rows != [] {
      RowsFar(rows, pieces, data, p);
    }
  }

  /** Where the pieces of a file with an offset array stand. */
  lemma TrailerPieces(file: seq<byte>, rows: seq<byte>, footer: seq<byte>, sum: seq<byte>, whole: seq<byte>)
    requires |footer| == 32 && |sum| == 4 && whole == file + (rows + footer + sum)
    ensures |whole| == |file| + |rows| + FOOTER_SIZE
    ensures whole[|file|..|file| + |rows|] == rows && whole[|whole| - FOOTER_SIZE..|whole| - 4] == footer
    ensures whole[|whole| - 4..] == sum && whole[|file|..|whole| - 4] == rows + footer
  {
    Split2(whole, 0, |whole|, file, rows + footer + sum);
    Split3(whole, |file|, |whole|, rows, footer, sum);
    Split2(whole, |file|, |whole|, rows + footer, sum);
  }

  /** The footer that a file ends in, and the checksum that matches. */
  ghost predicate EndsIn(crc: Crc, whole: seq<byte>, f: Footer)
  {
    && FOOTER_SIZE <= |whole| && DecodeFooter(whole, |whole| - FOOTER_SIZE) == f
    && f.offsetIndexes <= |whole| - FOOTER_SIZE && f.magic == MAGIC
    && crc(whole[f.offsetIndexes..|whole| - 4]) == LittleEndian(whole[|whole| - 4..])
  }

  lemma LoadedFrom(crc: Crc, whole: seq<byte>, f: Footer)
    requires EndsIn(crc, whole, f)
    ensures Loaded(crc, whole) == ReadRows(Decoder(whole), f.offsetIndexes, f.numEntries)
  {}

  /** A file whose rows, footer and checksum are given as bytes. */
  lemma TrailerEnds(crc: Crc, file: seq<byte>, rows: seq<byte>, f: Footer, footer: seq<byte>, sum: seq<byte>,
                    whole: seq<byte>)
    requires FooterReadsBack(f, footer) && |sum| == 4 && whole == file + (rows + footer + sum)
    requires LittleEndian(sum) == crc(rows + footer) && f.offsetIndexes == |file| && f.magic == MAGIC
    ensures EndsIn(crc, whole, f) && |whole| == |file| + |rows| + FOOTER_SIZE && whole[|file|..|file| + |rows|] == rows
  {
    TrailerPieces(file, rows, footer, sum, whole);
    assert FooterReads(f, footer, whole, |whole| - FOOTER_SIZE);
  }

  lemma TrailerLoads(crc: Crc, file: seq<byte>, rows: seq<Row>, f: Footer, footer: seq<byte>, sum: seq<byte>,
                     whole: seq<byte>)
    requires FooterReadsBack(f, footer) && |sum| == 4 && whole == file + (EncodeRows(rows) + footer + sum)
    requires LittleEndian(sum) == crc(EncodeRows(rows) + footer)
    requires f.offsetIndexes == |file| && f.magic == MAGIC && f.numEntries == |rows|
    requires forall j :: 0 <= j < |rows| ==> rows[j].Fits()
    ensures Loaded(crc, whole) == if ArrayLoads(rows) then Some(rows) else None
  {
    TrailerEnds(crc, file, EncodeRows(rows), f, footer, sum, whole);
    RowsDecode(rows, whole, |file|);
    LoadedFrom(crc, whole, f);
  }

  /** An offset array can be loaded when it has no rows, or an int can hold its size and that of the footer. */
  predicate ArrayLoads(rows: seq<Row>)
  {
    rows == [] || |EncodeRows(rows)| + FOOTER_SIZE < 0x8000_0000
  }

  /**
   * Loading a file that ends in an offset array gives exactly the rows written, in order, if and only if an
   * int can hold the size of it.
   */
  lemma OffsetArrayRoundTrip(crc: Crc, file: seq<byte>, rows: seq<Row>, filetype: nat, flags: nat)
    requires IsCrc32(crc) && filetype < 0x1_0000_0000 && flags < 0x1_0000_0000
    requires |file| < TWO64 && |rows| < TWO64 && forall j :: 0 <= j < |rows| ==> rows[j].Fits()
    ensures Loaded(crc, file + Trailer(crc, rows, filetype, flags, |file|)) == if ArrayLoads(rows) then Some(rows)
            else None
  {
    var f := Footer(filetype, flags, |file|, |rows|, MAGIC);
    var body := EncodeRows(rows) + EncodeFooter(f);
    Fixed32Reads(crc(body));
    FooterRoundTrip(f);
    TrailerLoads(crc, file, rows, f, EncodeFooter(f), Fixed(crc(body), BYTES32),
                 file + Trailer(crc, rows, filetype, flags, |file|));
  }

  /** The rows of a file, inserted into an index in order. */
  function InsertRows(index: Index<Location>, fileid: nat, rows: seq<Row>): Index<Location>
    decreases |rows|
  {
    if rows == [] then index
    else
      var row := rows[|rows| - 1];
      Insert(InsertRows(index, fileid, rows[..|rows| - 1]), row.hash, Location(fileid, row.offset))
  }

  /** The loop of LoadFile after i rows: they are in the index, and what is left to read continues them. */
  ghost predicate Inserting(decode: RowDecoder, start: nat, n: nat, fileid: nat, index0: Index<Location>, p: nat,
                            i: nat, rows: seq<Row>, index: Index<Location>)
  {
    && i <= n && index == InsertRows(index0, fileid, rows)
    && ReadRows(decode, start, n) == Continued(rows, ReadRows(decode, p, n - i))
  }

  lemma InsertingNext(decode: RowDecoder, start: nat, n: nat, fileid: nat, index0: Index<Location>, p: nat, i: nat,
                      rows: seq<Row>, index: Index<Location>)
    requires Inserting(decode, start, n, fileid, index0, p, i, rows, index) && i < n && decode(p).Some?
    ensures var (row, next) := decode(p).value;
            Inserting(decode, start, n, fileid, index0, next, i + 1, rows + [row],
                      Insert(index, row.hash, Location(fileid, row.offset)))
  {
    var (row, next) := decode(p).value;
    assert (rows + [row])[..|rows|] == rows;
    ContinuedNext(rows, row, ReadRows(decode, next, n - i - 1));
  }

  /** A row that is refused ends the loop with an error, and the last row without. */
  lemma InsertingEnds(decode: RowDecoder, start: nat, n: nat, fileid: nat, index0: Index<Location>, p: nat, i: nat,
                      rows: seq<Row>, index: Index<Location>)
    requires Inserting(decode, start, n, fileid, index0, p, i, rows, index)
    ensures i < n && decode(p).None? ==> ReadRows(decode, start, n) == None
    ensures i == n ==> ReadRows(decode, start, n) == Some(rows)
  {
    assert rows + [] == rows;
  }

  /** The loop of LoadFile; on an error, the rows read before it stay in the index. */
  method InsertLoop(decode: RowDecoder, start: nat, n: nat, fileid: nat, index0: Index<Location>)
    returns (ok: bool, index: Index<Location>)
    ensures ok <==> ReadRows(decode, start, n).Some?
    ensures ok ==> index == InsertRows(index0, fileid, ReadRows(decode, start, n).value)
  {
    index := index0;
    var p, i := start, 0;
    ghost var rows: seq<Row> := [];
    ContinuedNone(ReadRows(decode, start, n));
    while i < n
      invariant Inserting(decode, start, n, fileid, index0, p, i, rows, index)
    {
      var r := decode(p);
      if r.None? {
        InsertingEnds(decode, start, n, fileid, index0, p, i, rows, index);
        return false, index;
      }
      InsertingNext(decode, start, n, fileid, index0, p, i, rows, index);
      var (row, next) := r.value;
      index := Insert(index, row.hash, Location(fileid, row.offset));
      rows := rows + [row];
      p, i := next, i + 1;
    }
    InsertingEnds(decode, start, n, fileid, index0, p, i, rows, index);
    ok := true;
  }

  /** LoadFile. */
  method LoadFile(crc: Crc, file: seq<byte>, fileid: nat, index0: Index<Location>)
    returns (ok: bool, index: Index<Location>)
    requires FooterInside(file)
    ensures ok <==> Loaded(crc, file).Some?
    ensures ok ==> index == InsertRows(index0, fileid, Loaded(crc, file).value)
  {
    var footer := DecodeFooter(file, |file| - FOOTER_SIZE);
    if footer.magic != MAGIC {
      return false, index0;
    }
    if crc(file[footer.offsetIndexes..|file| - 4]) != LittleEndian(file[|file| - 4..]) {
      return false, index0;
    }
    ok, index := InsertLoop(Decoder(file), footer.offsetIndexes, footer.numEntries, fileid, index0);
  }

  ghost function Continued(rows: seq<Row>, rest: Option<seq<Row>>): Option<seq<Row>>
  {
    if rest.None? then None else Some(rows + rest.value)
  }

  lemma ContinuedNone(rest: Option<seq<Row>>)
    ensures Continued([], rest) == rest
  {
    if rest.Some? {
      assert [] + rest.value == rest.value;
    }
  }

  lemma ContinuedNext(rows: seq<Row>, row: Row, rest: Option<seq<Row>>)
    ensures Continued(rows + [row], rest) == if rest.None? then None else Some(rows + ([row] + rest.value))
  {
    if rest.Some? {
      assert rows + [row] + rest.value == rows + ([row] + rest.value);
    }
  }

  // ----- Recovery -----

  /** How the header of an entry is decoded, from a position on. */
  type HeaderDecoder = nat -> Option<(EntryHeader, nat)>

  ghost predicate Advances(decode: HeaderDecoder)
  {
    forall p: nat :: decode(p).Some? ==> p < decode(p).value.1
  }

  /** EntryHeader::AreSizesValid, for a header that ends at q. */
  predicate AreSizesValid(h: EntryHeader, q: nat, limit: nat)
  {
    h.sizeKey > 0 && q + h.sizeKey + h.SizeValueOffset() <= limit
  }

  /** Whether the content of an entry is taken as valid: only that of uncompacted entries is verified. */
  predicate Accepted(content: (EntryHeader, nat, nat) -> bool, h: EntryHeader, p: nat, q: nat)
  {
    !h.IsUncompacted() || content(h, p, q)
  }

  datatype Scanned = Scanned(rows: seq<Row>, end: nat)

  /** The rows of the entries from p on, as far as they can be read, and the end of the last. */
  function Scan(decode: HeaderDecoder, content: (EntryHeader, nat, nat) -> bool, p: nat, limit: nat): (r: Scanned)
    requires Advances(decode)
    ensures p <= r.end
    decreases limit - p
  {
    match decode(p)
    case None => Scanned([], p)
    case Some((h, q)) =>
      if !AreSizesValid(h, q, limit) then Scanned([], p)
      else
        var rest := Scan(decode, content, q + h.sizeKey + h.SizeValueOffset(), limit);
        if Accepted(content, h, p, q) then Scanned([Row(h.hash, p)] + rest.rows, rest.end) else rest
  }

  /** The entries of a file, each by its header as it is read back, the size of its header, and its bytes. */
  datatype Entry = Entry(header: EntryHeader, headerSize: nat, bytes: seq<byte>)
  {
    predicate Valid()
    {
      && header.sizeKey > 0 && !header.IsUncompacted() && 16 <= headerSize
      && |bytes| == headerSize + header.sizeKey + header.SizeValueOffset()
    }
  }

  function EntryPieces(entries: seq<Entry>): (r: seq<seq<byte>>)
    ensures |r| == |entries| && forall i :: 0 <= i < |entries| ==> r[i] == entries[i].bytes
  {
    seq(|entries|, i requires 0 <= i < |entries| => entries[i].bytes)
  }

  /** Where the entries of a file start, and where the last one ends. */
  ghost predicate StartAt(entries: seq<Entry>, at: seq<nat>)
  {
    |at| == |entries| + 1 && forall i :: 0 <= i < |entries| ==> at[i + 1] == at[i] + |entries[i].bytes|
  }

  function RowsOf(entries: seq<Entry>, at: seq<nat>, n: nat): (rows: seq<Row>)
    requires n <= |entries| < |at|
    ensures |rows| == n && forall i :: 0 <= i < n ==> rows[i] == Row(entries[i].header.hash, at[i])
  {
    seq(n, i requires 0 <= i < n => Row(entries[i].header.hash, at[i]))
  }

  predicate EndsBy(at: seq<nat>, cut: nat, i: nat)
  {
    i + 1 < |at| && at[i + 1] <= cut
  }

  /** The n entries that end at or before the cut are the first ones. */
  ghost predicate CutAfter(at: seq<nat>, cut: nat, n: nat)
  {
    n < |at| && forall i: nat :: EndsBy(at, cut, i) <==> i < n
  }

  lemma {:induction false} StartsGrow(entries: seq<Entry>, at: seq<nat>, i: nat, j: nat)
    requires StartAt(entries, at) && i <= j <= |entries|
    ensures at[i] <= at[j]
    decreases j
  {
    if i < j {
      StartsGrow(entries, at, i, j - 1);
    }
  }

  /** There is such a number, for every cut. */
  lemma CutExists(entries: seq<Entry>, at: seq<nat>, cut: nat) returns (n: nat)
    requires StartAt(entries, at)
    ensures CutAfter(at, cut, n)
  {
    n := 0;
    while n < |entries| && EndsBy(at, cut, n)
      invariant n <= |entries| && forall i: nat :: i < n ==> EndsBy(at, cut, i)
    {
      n := n + 1;
    }
    forall i: nat | n <= i
      ensures !EndsBy(at, cut, i)
    {
      if i < |entries| {
        StartsGrow(entries, at, n + 1, i + 1);
      }
    }
  }

  /** The header of an entry that starts before the cut is decoded if it all lies before the cut, and else refused. */
  ghost predicate DecodesAt(decode: HeaderDecoder, e: Entry, at: nat, cut: nat)
  {
    at <= cut ==> WholeOrNothing(decode(at), e.header, at + e.headerSize, cut)
  }

  ghost predicate Decodes(decode: HeaderDecoder, entries: seq<Entry>, at: seq<nat>, cut: nat)
    requires |at| == |entries| + 1
  {
    && (forall i :: 0 <= i < |entries| ==> DecodesAt(decode, entries[i], at[i], cut))
    && decode(cut).None?
  }

  lemma ScanTakes(decode: HeaderDecoder, content: (EntryHeader, nat, nat) -> bool, e: Entry, at: nat, cut: nat)
    requires Advances(decode) && DecodesAt(decode, e, at, cut) && e.Valid() && at + |e.bytes| <= cut
    ensures var rest := Scan(decode, content, at + |e.bytes|, cut);
            Scan(decode, content, at, cut) == Scanned([Row(e.header.hash, at)] + rest.rows, rest.end)
  {}

  lemma ScanStops(decode: HeaderDecoder, content: (EntryHeader, nat, nat) -> bool, e: Entry, at: nat, cut: nat)
    requires Advances(decode) && DecodesAt(decode, e, at, cut) && e.Valid() && at <= cut < at + |e.bytes|
    ensures Scan(decode, content, at, cut) == Scanned([], at)
  {}

  /** The scan from the i-th entry on finds exactly the entries that end before the cut. */
  lemma {:induction false} ScanFinds(decode: HeaderDecoder, content: (EntryHeader, nat, nat) -> bool,
                                     entries: seq<Entry>, at: seq<nat>, cut: nat, n: nat, i: nat)
    requires Advances(decode) && StartAt(entries, at) && Decodes(decode, entries, at, cut) && CutAfter(at, cut, n)
    requires i <= n
    requires forall j :: 0 <= j < |entries| ==> entries[j].Valid()
    requires at[i] <= cut <= at[|entries|]
    ensures Scan(decode, content, at[i], cut) == Scanned(RowsOf(entries, at, n)[i..], at[n])
    decreases n - i
  {
    var rows := RowsOf(entries, at, n);
    assert EndsBy(at, cut, i) <==> i < n;
    if i < n {
      ScanFinds(decode, content, entries, at, cut, n, i + 1);
      ScanTakesAt(decode, content, entries, at, cut, i);
      assert rows[i..] == [rows[i]] + rows[i + 1..];
    } else {
      assert rows[i..] == [];
      ScanEndsAt(decode, content, entries, at, cut, i);
    }
  }

  lemma ScanTakesAt(decode: HeaderDecoder, content: (EntryHeader, nat, nat) -> bool, entries: seq<Entry>, at: seq<nat>,
                    cut: nat, i: nat)
    requires Advances(decode) && StartAt(entries, at) && Decodes(decode, entries, at, cut)
    requires i < |entries| && entries[i].Valid() && at[i + 1] <= cut
    ensures var rest := Scan(decode, content, at[i + 1], cut);
            Scan(decode, content, at[i], cut) == Scanned([Row(entries[i].header.hash, at[i])] + rest.rows, rest.end)
  {
    ScanTakes(decode, content, entries[i], at[i], cut);
  }

  lemma ScanEndsAt(decode: HeaderDecoder, content: (EntryHeader, nat, nat) -> bool, entries: seq<Entry>, at: seq<nat>,
                   cut: nat, i: nat)
    requires Advances(decode) && StartAt(entries, at) && Decodes(decode, entries, at, cut)
    requires i <= |entries| && at[i] <= cut
    requires if i < |entries| then entries[i].Valid() && cut < at[i + 1] else at[i] == cut
    ensures Scan(decode, content, at[i], cut) == Scanned([], at[i])
  {
    if i < |entries| {
      ScanStops(decode, content, entries[i], at[i], cut);
    }
  }

  /** A scan that has found some rows ends like the whole one. */
  ghost predicate Leads(whole: Scanned, rows: seq<Row>, rest: Scanned)
  {
    whole == Scanned(rows + rest.rows, rest.end)
  }

  lemma LeadsFirst(whole: Scanned)
    ensures Leads(whole, [], whole)
  {
    assert [] + whole.rows == whole.rows;
  }

  lemma LeadsLast(whole: Scanned, rows: seq<Row>, rest: Scanned)
    requires Leads(whole, rows, rest) && rest.rows == []
    ensures whole == Scanned(rows, rest.end)
  {
    assert rows + [] == rows;
  }

  lemma LeadsNext(whole: Scanned, rows: seq<Row>, row: Row, rest: Scanned)
    requires Leads(whole, rows, Scanned([row] + rest.rows, rest.end))
    ensures Leads(whole, rows + [row], rest)
  {
    assert rows + ([row] + rest.rows) == (rows + [row]) + rest.rows;
  }

  lemma InsertRowsNext(index: Index<Location>, fileid: nat, rows: seq<Row>, row: Row)
    ensures InsertRows(index, fileid, rows + [row])
         == Insert(InsertRows(index, fileid, rows), row.hash, Location(fileid, row.offset))
  {
    assert (rows + [row])[..|rows|] == rows;
  }

  lemma ScanGoesOn(decode: HeaderDecoder, content: (EntryHeader, nat, nat) -> bool, p: nat, limit: nat, h: EntryHeader,
                   q: nat, next: nat)
    requires Advances(decode) && decode(p) == Some((h, q)) && AreSizesValid(h, q, limit)
    requires next == q + h.sizeKey + h.SizeValueOffset()
    ensures p < next <= limit
    ensures var rest := Scan(decode, content, next, limit);
            Scan(decode, content, p, limit)
            == if Accepted(content, h, p, q) then Scanned([Row(h.hash, p)] + rest.rows, rest.end) else rest
  {}

  /** The scanning loop of RecoverFile. */
  method ScanLoop(decode: HeaderDecoder, content: (EntryHeader, nat, nat) -> bool, start: nat, limit: nat, fileid: nat,
                  index0: Index<Location>)
    returns (rows: seq<Row>, end: nat, hasPadding: bool, hasInvalid: bool, index: Index<Location>)
    requires Advances(decode) && start <= limit
    ensures Scanned(rows, end) == Scan(decode, content, start, limit) && start <= end <= limit
    ensures index == InsertRows(index0, fileid, rows)
  {
    rows, end, hasPadding, hasInvalid, index := [], start, false, false, index0;
    ghost var whole := Scan(decode, content, start, limit);
    LeadsFirst(whole);
    while true
      invariant start <= end <= limit && index == InsertRows(index0, fileid, rows)
      invariant Leads(whole, rows, Scan(decode, content, end, limit))
      decreases limit - end
    {
      var r := decode(end);
      if r.None? || !AreSizesValid(r.value.0, r.value.1, limit) {
        LeadsLast(whole, rows, Scan(decode, content, end, limit));
        return;
      }
      var h, q := r.value.0, r.value.1;
      var next := q + h.sizeKey + h.SizeValueOffset();
      hasPadding := hasPadding || h.HasPadding();
      ScanGoesOn(decode, content, end, limit, h, q, next);
      if Accepted(content, h, end, q) {
        var row := Row(h.hash, end);
        LeadsNext(whole, rows, row, Scan(decode, content, next, limit));
        InsertRowsNext(index0, fileid, rows, row);
        index := Insert(index, h.hash, Location(fileid, end));
        rows := rows + [row];
      } else {
        hasInvalid := true;
      }
      end := next;
    }
  }

  /**
   * RecoverFile on a regular file with a readable header; nothing is recovered from a file without a
   * whole entry. The size recorded for the file takes it as not truncated, so it is right exactly when
   * the entries found reach to the end.
   */
  method RecoverFile(crc: Crc, decode: HeaderDecoder, content: (EntryHeader, nat, nat) -> bool, file: seq<byte>,
                     fileid: nat, filetype: nat, index0: Index<Location>)
    returns (r: Option<seq<byte>>, recordedSize: nat, flags: nat, index: Index<Location>)
    requires Advances(decode) && FILE_HEADER_SIZE <= |file|
    ensures var found := Scan(decode, content, FILE_HEADER_SIZE, |file|);
            && found.end <= |file| && index == InsertRows(index0, fileid, found.rows) && flags < 4
            && r == (if found.end == FILE_HEADER_SIZE then None
                     else Some(file[..found.end] + Trailer(crc, found.rows, filetype, flags, found.end)))
            && (r.Some? ==> recordedSize == |r.value| + (|file| - found.end))
  {
    var rows, end, hasPadding, hasInvalid;
    rows, end, hasPadding, hasInvalid, index := ScanLoop(decode, content, FILE_HEADER_SIZE, |file|, fileid, index0);
    flags := (if hasPadding then 1 else 0) + (if hasInvalid then 2 else 0);
    if end <= FILE_HEADER_SIZE {
      return None, 0, flags, index;
    }
    var recovered := WriteOffsetArray(crc, file[..end], rows, filetype, flags);
    var sizeArray := |recovered| - end;
    recordedSize := |file| + sizeArray;
    r := Some(recovered);
  }

  // ----- Entries of orders -----

  /** A self-contained order as it reaches the storage engine. */
  datatype Write = Write(delete: bool, key: Key, chunk: seq<byte>, sizeValue: nat, sizeCompressed: nat, checksum: nat)

  ghost predicate SelfContained(compression: bool, hash: Key -> nat, w: Write)
  {
    && w.checksum < 0x1_0000_0000 && |w.key| < 0x1_0000_0000 && w.sizeValue < 0x1_0000_0000
    && w.sizeCompressed < 0x1_0000_0000 && hash(w.key) < 0x1_0000_0000_0000_0000
    && (!compression ==> w.sizeCompressed == 0) && (w.delete ==> w.sizeValue == w.sizeCompressed == 0)
    && |w.chunk| == (if w.delete then 0 else if w.sizeCompressed > 0 then w.sizeCompressed else w.sizeValue)
  }

  /** The header that WriteFirstPartOrSmallOrder gives an order; a delete leaves padding and hash unset. */
  function HeaderOf(hash: Key -> nat, w: Write): EntryHeader
  {
    if w.delete then EntryHeader(w.checksum, TYPE_DELETE + ENTRY_FULL, |w.key|, 0, 0, 0, 0)
    else EntryHeader(w.checksum, ENTRY_FULL, |w.key|, w.sizeValue, w.sizeCompressed, 0, hash(w.key))
  }

  function EntryBytes(compression: bool, crc8: seq<byte> -> byte, hash: Key -> nat, w: Write): seq<byte>
  {
    EncodeHeader(compression, crc8, HeaderOf(hash, w)) + (w.key + w.chunk)
  }

  function EntryOf(compression: bool, crc8: seq<byte> -> byte, hash: Key -> nat, w: Write): Entry
  {
    Entry(HeaderOf(hash, w), |EncodeHeader(compression, crc8, HeaderOf(hash, w))|,
          EntryBytes(compression, crc8, hash, w))
  }

  lemma EntryOfIs(compression: bool, crc8: seq<byte> -> byte, hash: Key -> nat, w: Write)
    requires SelfContained(compression, hash, w)
    ensures var e := EntryOf(compression, crc8, hash, w);
            && e.header.Fits() && Stored(compression, e.header) == e.header
            && (w.key != [] ==> e.Valid())
            && |e.bytes| == e.headerSize + |w.key| + |w.chunk|
            && e.header.IsEntryFull() && (e.header.IsDelete() <==> w.delete)
            && e.header.SizeValueUsed() == e.header.SizeValueOffset() == |w.chunk|
  {}

  function EntriesOf(compression: bool, crc8: seq<byte> -> byte, hash: Key -> nat, ws: seq<Write>): (es: seq<Entry>)
    ensures |es| == |ws| && forall i :: 0 <= i < |ws| ==> es[i] == EntryOf(compression, crc8, hash, ws[i])
  {
    seq(|ws|, i requires 0 <= i < |ws| => EntryOf(compression, crc8, hash, ws[i]))
  }

  ghost function StartsOf(entries: seq<Entry>, p: nat): (at: seq<nat>)
    ensures StartAt(entries, at) && at[0] == p
    ensures forall i :: 0 <= i <= |entries| ==> at[i] == StartOf(EntryPieces(entries), p, i)
  {
    var at := seq(|entries| + 1, i requires 0 <= i <= |entries| => StartOf(EntryPieces(entries), p, i));
    assert StartAt(entries, at) && at[0] == p by {
      assert EntryPieces(entries)[..0] == [];
      forall i | 0 <= i < |entries|
        ensures at[i + 1] == at[i] + |entries[i].bytes|
      {
        PieceAt(EntryPieces(entries), i);
      }
    }
    at
  }

  // ----- Recovery of a file that was cut -----

  /** The headers of a file of some size; what lies beyond the end of the file may be anything. */
  function DecoderOf(compression: bool, crc8: seq<byte> -> byte, verify: bool, data: seq<byte>,
                     limit: nat): HeaderDecoder
  {
    (p: nat) => if p <= limit && limit + 16 <= |data| then DecodeHeader(compression, crc8, verify, data, p, limit)
    else None
  }

  lemma DecoderAdvances(compression: bool, crc8: seq<byte> -> byte, data: seq<byte>, limit: nat)
    ensures Advances(DecoderOf(compression, crc8, true, data, limit))
  {}

  lemma NothingAtTheEnd(compression: bool, crc8: seq<byte> -> byte, data: seq<byte>, limit: nat)
    ensures DecoderOf(compression, crc8, true, data, limit)(limit) == None
  {
    if limit + 16 <= |data| {
      assert Reach(limit, limit) == limit;
      assert ReadVarint(data, limit + 5, limit, MOST32) == None;
      assert DecodeFlags(compression, data, limit + 5, limit) == None;
    }
  }

  /** Data that agrees with a concatenation agrees with each of its pieces. */
  lemma {:induction false} AgreesPiece(data: seq<byte>, p: nat, limit: nat, pieces: seq<seq<byte>>, i: nat)
    requires i < |pieces| && Agrees(data, p, limit, Concat(pieces))
    ensures Agrees(data, StartOf(pieces, p, i), limit, pieces[i])
    decreases |pieces|
  {
    var front := pieces[..|pieces| - 1];
    AgreesJoin(data, p, limit, Concat(front), pieces[|pieces| - 1]);
    if i < |front| {
      assert front[..i] == pieces[..i];
      AgreesPiece(data, p, limit, front, i);
    } else {
      assert pieces[..i] == front;
    }
  }

  /** An entry whose header and content are given as bytes. */
  lemma DecodesFrom(compression: bool, crc8: seq<byte> -> byte, e: Entry, t: seq<byte>, rest: seq<byte>,
                    data: seq<byte>, at: nat, cut: nat)
    requires HeaderReadsBack(compression, crc8, e.header, t) && e.headerSize == |t|
    requires cut + 16 <= |data| && cut < at + 0x8000_0000 && Agrees(data, at, cut, t + rest)
    ensures DecodesAt(DecoderOf(compression, crc8, true, data, cut), e, at, cut)
  {
    AgreesJoin(data, at, cut, t, rest);
    assert HeaderReads(compression, crc8, true, e.header, t, data, at, cut);
    if at <= cut {
      ReachBelow(at, cut);
    }
  }

  lemma EntryDecodes(compression: bool, crc8: seq<byte> -> byte, hash: Key -> nat, w: Write, data: seq<byte>, at: nat,
                     cut: nat)
    requires SelfContained(compression, hash, w) && cut + 16 <= |data| && cut < at + 0x8000_0000
    requires Agrees(data, at, cut, EntryBytes(compression, crc8, hash, w))
    ensures DecodesAt(DecoderOf(compression, crc8, true, data, cut), EntryOf(compression, crc8, hash, w), at, cut)
  {
    var h := HeaderOf(hash, w);
    EntryOfIs(compression, crc8, hash, w);
    HeaderRoundTrip(compression, crc8, h);
    DecodesFrom(compression, crc8, EntryOf(compression, crc8, hash, w), EncodeHeader(compression, crc8, h),
                w.key + w.chunk, data, at, cut);
  }

  /** The bytes of a file of entries, before its offset array is written. */
  function FileBytes(compression: bool, crc8: seq<byte> -> byte, hash: Key -> nat, header: seq<byte>,
                     ws: seq<Write>): seq<byte>
  {
    header + Concat(EntryPieces(EntriesOf(compression, crc8, hash, ws)))
  }

  /** An int can hold the size of what follows the file header. */
  predicate Scannable(size: nat)
  {
    size < FILE_HEADER_SIZE + 0x8000_0000
  }

  lemma FileDecodes(compression: bool, crc8: seq<byte> -> byte, hash: Key -> nat, header: seq<byte>, ws: seq<Write>,
                    data: seq<byte>, cut: nat)
    requires |header| == FILE_HEADER_SIZE && cut + 16 <= |data| && Scannable(cut)
    requires forall i :: 0 <= i < |ws| ==> SelfContained(compression, hash, ws[i])
    requires Agrees(data, 0, cut, FileBytes(compression, crc8, hash, header, ws))
    ensures var entries := EntriesOf(compression, crc8, hash, ws);
            Decodes(DecoderOf(compression, crc8, true, data, cut), entries, StartsOf(entries, FILE_HEADER_SIZE), cut)
  {
    var entries := EntriesOf(compression, crc8, hash, ws);
    var pieces, at := EntryPieces(entries), StartsOf(entries, FILE_HEADER_SIZE);
    AgreesJoin(data, 0, cut, header, Concat(pieces));
    NothingAtTheEnd(compression, crc8, data, cut);
    forall i | 0 <= i < |entries|
      ensures DecodesAt(DecoderOf(compression, crc8, true, data, cut), entries[i], at[i], cut)
    {
      AgreesPiece(data, FILE_HEADER_SIZE, cut, pieces, i);
      StartsGrow(entries, at, 0, i);
      EntryDecodes(compression, crc8, hash, ws[i], data, at[i], cut);
    }
  }

  /**
   * A file of entries, which start at `at`, of which only what comes before the cut is left; data after it
   * is arbitrary.
   */
  ghost predicate IsCut(compression: bool, crc8: seq<byte> -> byte, hash: Key -> nat, header: seq<byte>, ws: seq<Write>,
                        data: seq<byte>, cut: nat, entries: seq<Entry>, at: seq<nat>)
  {
    && |header| == FILE_HEADER_SIZE <= cut <= |FileBytes(compression, crc8, hash, header, ws)| && cut + 16 <= |data|
    && (forall i :: 0 <= i < |ws| ==> SelfContained(compression, hash, ws[i]) && ws[i].key != [])
    && Agrees(data, 0, cut, FileBytes(compression, crc8, hash, header, ws))
    && entries == EntriesOf(compression, crc8, hash, ws) && at == StartsOf(entries, FILE_HEADER_SIZE)
  }

  /** Every cut of a file of such entries is one, whatever follows it in memory. */
  lemma AnyCut(compression: bool, crc8: seq<byte> -> byte, hash: Key -> nat, header: seq<byte>, ws: seq<Write>,
               cut: nat, slack: seq<byte>)
    requires |header| == FILE_HEADER_SIZE <= cut <= |FileBytes(compression, crc8, hash, header, ws)| && 16 <= |slack|
    requires forall i :: 0 <= i < |ws| ==> SelfContained(compression, hash, ws[i]) && ws[i].key != []
    ensures var entries := EntriesOf(compression, crc8, hash, ws);
            IsCut(compression, crc8, hash, header, ws, FileBytes(compression, crc8, hash, header, ws)[..cut] + slack,
                  cut,
                  entries, StartsOf(entries, FILE_HEADER_SIZE))
  {
    PrefixAgrees(FileBytes(compression, crc8, hash, header, ws), cut, slack);
  }

  lemma PrefixAgrees(file: seq<byte>, cut: nat, slack: seq<byte>)
    requires cut <= |file|
    ensures Agrees(file[..cut] + slack, 0, cut, file)
  {
    forall i: nat
      ensures Match(file[..cut] + slack, 0, cut, file, i)
    {}
  }

  lemma EntriesValid(compression: bool, crc8: seq<byte> -> byte, hash: Key -> nat, ws: seq<Write>, entries: seq<Entry>)
    requires forall i :: 0 <= i < |ws| ==> SelfContained(compression, hash, ws[i]) && ws[i].key != []
    requires entries == EntriesOf(compression, crc8, hash, ws)
    ensures forall i :: 0 <= i < |entries| ==> entries[i].Valid() && entries[i].header.hash < 0x1_0000_0000_0000_0000
  {
    forall i | 0 <= i < |entries|
      ensures entries[i].Valid() && entries[i].header.hash < 0x1_0000_0000_0000_0000
    {
      EntryOfIs(compression, crc8, hash, ws[i]);
    }
  }

  lemma CutBounds(compression: bool, crc8: seq<byte> -> byte, hash: Key -> nat, header: seq<byte>, ws: seq<Write>,
                  cut: nat, entries: seq<Entry>, at: seq<nat>)
    requires |header| == FILE_HEADER_SIZE <= cut <= |FileBytes(compression, crc8, hash, header, ws)|
    requires entries == EntriesOf(compression, crc8, hash, ws) && at == StartsOf(entries, FILE_HEADER_SIZE)
    ensures at[0] == FILE_HEADER_SIZE <= cut <= at[|entries|]
  {
    assert EntryPieces(entries)[..|entries|] == EntryPieces(entries);
  }

  /** Wherever a file of entries is cut, the scan finds exactly the n entries that end at or before the cut. */
  lemma ScanFindsPrefix(compression: bool, crc8: seq<byte> -> byte, content: (EntryHeader, nat, nat) -> bool,
                        hash: Key -> nat, header: seq<byte>, ws: seq<Write>, data: seq<byte>, cut: nat,
                        entries: seq<Entry>, at: seq<nat>, n: nat)
    requires IsCut(compression, crc8, hash, header, ws, data, cut, entries, at) && Scannable(cut)
    requires CutAfter(at, cut, n)
    ensures Advances(DecoderOf(compression, crc8, true, data, cut)) && n <= |entries| < |at|
    ensures Scan(DecoderOf(compression, crc8, true, data, cut), content, FILE_HEADER_SIZE, cut)
         == Scanned(RowsOf(entries, at, n), at[n])
  {
    DecoderAdvances(compression, crc8, data, cut);
    FileDecodes(compression, crc8, hash, header, ws, data, cut);
    EntriesValid(compression, crc8, hash, ws, entries);
    CutBounds(compression, crc8, hash, header, ws, cut, entries, at);
    ScanFinds(DecoderOf(compression, crc8, true, data, cut), content, entries, at, cut, n, 0);
    assert RowsOf(entries, at, n)[0..] == RowsOf(entries, at, n);
  }

  /** From 2^31 bytes after the file header on, the scan finds nothing, whatever the file holds. */
  lemma ScanFindsNothing(compression: bool, crc8: seq<byte> -> byte, content: (EntryHeader, nat, nat) -> bool,
                         data: seq<byte>, size: nat)
    requires !Scannable(size) && size < 0x1_0000_0000 && size + 16 <= |data|
    ensures Advances(DecoderOf(compression, crc8, true, data, size))
    ensures Scan(DecoderOf(compression, crc8, true, data, size), content, FILE_HEADER_SIZE, size)
         == Scanned([], FILE_HEADER_SIZE)
  {
    DecoderAdvances(compression, crc8, data, size);
    HeaderRefused(compression, crc8, true, data, FILE_HEADER_SIZE, size);
  }

  /** Each entry takes more than a row does. */
  lemma {:induction false} StartsCount(entries: seq<Entry>, at: seq<nat>, n: nat)
    requires StartAt(entries, at) && n <= |entries| && forall i :: 0 <= i < |entries| ==> entries[i].Valid()
    ensures at[0] + 17 * n <= at[n]
    decreases n
  {
    if n > 0 {
      StartsCount(entries, at, n - 1);
    }
  }

  lemma {:induction false} RowsSize(rows: seq<Row>)
    requires forall j :: 0 <= j < |rows| ==> rows[j].Fits()
    ensures |EncodeRows(rows)| <= 15 * |rows|
    decreases |rows|
  {
    if rows != [] {
      var n := |rows| - 1;
      RowsSize(rows[..n]);
      RowSize(rows[n]);
      assert RowPieces(rows) == RowPieces(rows[..n]) + [EncodeRow(rows[n])];
      ConcatSnoc(RowPieces(rows[..n]), EncodeRow(rows[n]));
    }
  }

  /** The rows that recovery finds can be written to an offset array, and loaded from it. */
  lemma RowsFit(entries: seq<Entry>, at: seq<nat>, n: nat, cut: nat)
    requires forall i :: 0 <= i < |entries| ==> entries[i].Valid() && entries[i].header.hash < 0x1_0000_0000_0000_0000
    requires StartAt(entries, at) && CutAfter(at, cut, n) && at[0] == FILE_HEADER_SIZE <= cut && Scannable(cut)
    ensures at[n] <= cut && at[0] + n <= at[n]
    ensures RowsFitArray(RowsOf(entries, at, n)) && ArrayLoads(RowsOf(entries, at, n))
  {
    var rows := RowsOf(entries, at, n);
    assert n > 0 ==> EndsBy(at, cut, n - 1);
    forall i | 0 <= i < n
      ensures rows[i].Fits()
    {
      StartsGrow(entries, at, i, n);
    }
    StartsCount(entries, at, n);
    RowsSize(rows);
  }

  ghost predicate RowsFitArray(rows: seq<Row>)
  {
    |rows| < 0x1_0000_0000 && forall j :: 0 <= j < |rows| ==> rows[j].Fits()
  }

  /** What the scan of a file finds of which the first n entries are whole: them, unless an int cannot hold its size. */
  ghost predicate FindsPrefix(found: Scanned, entries: seq<Entry>, at: seq<nat>, cut: nat, n: nat)
  {
    && n <= |entries| < |at| && CutAfter(at, cut, n) && at[n] <= cut && (n == 0 <==> at[n] == FILE_HEADER_SIZE)
    && found == if Scannable(cut) then Scanned(RowsOf(entries, at, n), at[n]) else Scanned([], FILE_HEADER_SIZE)
  }

  /** A cut file, as the scan sees it. */
  lemma CutFacts(compression: bool, crc8: seq<byte> -> byte, content: (EntryHeader, nat, nat) -> bool, hash: Key -> nat,
                 header: seq<byte>, ws: seq<Write>, data: seq<byte>, cut: nat, entries: seq<Entry>, at: seq<nat>)
    returns (n: nat)
    requires IsCut(compression, crc8, hash, header, ws, data, cut, entries, at) && cut < 0x1_0000_0000
    ensures Advances(DecoderOf(compression, crc8, true, data, cut)) && FILE_HEADER_SIZE <= cut <= |data|
    ensures var found := Scan(DecoderOf(compression, crc8, true, data, cut), content, FILE_HEADER_SIZE, cut);
            FindsPrefix(found, entries, at, cut, n) && RowsFitArray(found.rows) && ArrayLoads(found.rows)
  {
    EntriesValid(compression, crc8, hash, ws, entries);
    CutBounds(compression, crc8, hash, header, ws, cut, entries, at);
    n := CutExists(entries, at, cut);
    StartsCount(entries, at, n);
    assert n > 0 ==> EndsBy(at, cut, n - 1);
    if Scannable(cut) {
      ScanFindsPrefix(compression, crc8, content, hash, header, ws, data, cut, entries, at, n);
      RowsFit(entries, at, n, cut);
    } else {
      ScanFindsNothing(compression, crc8, content, data, cut);
    }
  }

  /** Recovery of a file in which the scan finds some rows, which can be written to an offset array. */
  method RecoverFound(crc: Crc, decode: HeaderDecoder, content: (EntryHeader, nat, nat) -> bool, file: seq<byte>,
                      fileid: nat, filetype: nat, index0: Index<Location>)
    returns (r: Option<seq<byte>>, recordedSize: nat, index: Index<Location>)
    requires IsCrc32(crc) && filetype < 0x1_0000_0000 && FILE_HEADER_SIZE <= |file| < 0x1_0000_0000 && Advances(decode)
    requires RowsFitArray(Scan(decode, content, FILE_HEADER_SIZE, |file|).rows)
    requires ArrayLoads(Scan(decode, content, FILE_HEADER_SIZE, |file|).rows)
    ensures Recovered(crc, Scan(decode, content, FILE_HEADER_SIZE, |file|), file, fileid, index0, r, recordedSize,
                      index)
  {
    ghost var found := Scan(decode, content, FILE_HEADER_SIZE, |file|);
    var flags;
    r, recordedSize, flags, index := RecoverFile(crc, decode, content, file, fileid, filetype, index0);
    if r.Some? {
      OffsetArrayRoundTrip(crc, file[..found.end], found.rows, filetype, flags);
    }
  }

  /**
   * What recovery leaves: the entries found, followed by an offset array that loads with their rows.
   * The size recorded for the file exceeds its size by what was cut off behind the entries found.
   */
  ghost predicate Recovered(crc: Crc, found: Scanned, file: seq<byte>, fileid: nat, index0: Index<Location>,
                            r: Option<seq<byte>>, recordedSize: nat, index: Index<Location>)
  {
    && index == InsertRows(index0, fileid, found.rows) && found.end <= |file|
    && (r.None? <==> found.end == FILE_HEADER_SIZE)
    && (r.Some? ==> Loaded(crc, r.value) == Some(found.rows) && file[..found.end] <= r.value)
    && (r.Some? ==> recordedSize == |r.value| + (|file| - found.end))
  }

  /**
   * Crash recovery keeps exactly the complete prefix: wherever a file is cut, recovery fails when no
   * entry is whole, and otherwise leaves a file that loads with the rows of the entries that are. It
   * also fails when there are 2^31 bytes or more after the file header.
   */
  method RecoverCut(compression: bool, crc8: seq<byte> -> byte, crc: Crc, content: (EntryHeader, nat, nat) -> bool,
                    hash: Key -> nat, data: seq<byte>, cut: nat, fileid: nat, filetype: nat, index0: Index<Location>,
                    ghost header: seq<byte>, ghost ws: seq<Write>, ghost entries: seq<Entry>, ghost at: seq<nat>)
    returns (r: Option<seq<byte>>, recordedSize: nat, index: Index<Location>, ghost n: nat, ghost found: Scanned)
    requires IsCrc32(crc) && filetype < 0x1_0000_0000 && cut < 0x1_0000_0000
    requires IsCut(compression, crc8, hash, header, ws, data, cut, entries, at)
    ensures FindsPrefix(found, entries, at, cut, n) && cut <= |data|
    ensures Recovered(crc, found, data[..cut], fileid, index0, r, recordedSize, index)
    ensures r.Some? <==> n > 0 && Scannable(cut)
  {
    n := CutFacts(compression, crc8, content, hash, header, ws, data, cut, entries, at);
    var decode := DecoderOf(compression, crc8, true, data, cut);
    found := Scan(decode, content, FILE_HEADER_SIZE, cut);
    r, recordedSize, index := RecoverFound(crc, decode, content, data[..cut], fileid, filetype, index0);
  }
}
