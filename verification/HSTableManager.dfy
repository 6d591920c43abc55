/**
 * The manager that appends entries to a succession of HSTables through a buffer, and the lookup of
 * an entry by the last location of its key's bucket.
 */
module HSTableManager {
  import opened Bytes
  import opened Words
  import opened Orders
  import opened Format
  import opened Storage
  import opened HSTable

  // ----- Reading an entry -----

  /** StorageEngine::GetEntry: what is stored at an offset of a file; a value is taken no further than the data goes. */
  function GetEntry(decode: HeaderDecoder, data: seq<byte>, offset: nat, filesize: nat): Option<Write>
    requires filesize <= |data|
  {
    match decode(offset)
    case None => None
    case Some((h, q)) =>
      if !AreSizesValid(h, q, filesize) || !h.IsEntryFull() then None
      else
        var p := q + h.sizeKey;
        var end := if p + h.SizeValueUsed() <= |data| then p + h.SizeValueUsed() else |data|;
        Some(Write(h.IsDelete(), data[q..p], data[p..end], h.sizeValue, h.sizeCompressed, h.checksumContent))
  }

  /** The content of an entry, found after its header. */
  lemma GetEntryFrom(decode: HeaderDecoder, h: EntryHeader, q: nat, key: seq<byte>, chunk: seq<byte>,
                     data: seq<byte>, offset: nat, filesize: nat)
    requires q + |key| + |chunk| <= filesize <= |data| && decode(offset) == Some((h, q))
    requires 0 < h.sizeKey == |key| && h.SizeValueUsed() == h.SizeValueOffset() == |chunk| && h.IsEntryFull()
    requires data[q..q + |key| + |chunk|] == key + chunk
    ensures GetEntry(decode, data, offset, filesize)
         == Some(Write(h.IsDelete(), key, chunk, h.sizeValue, h.sizeCompressed, h.checksumContent))
  {
    Split2(data, q, q + |key| + |chunk|, key, chunk);
  }

  lemma HeaderDecodes(compression: bool, crc8: seq<byte> -> byte, verify: bool, h: EntryHeader, t: seq<byte>,
                      data: seq<byte>, offset: nat, filesize: nat)
    requires HeaderReadsBack(compression, crc8, h, t) && filesize + 16 <= |data|
    requires 0 < |t| && offset + |t| <= filesize && data[offset..offset + |t|] == t
    ensures DecoderOf(compression, crc8, verify, data, filesize)(offset)
         == if |t| <= Int32(filesize - offset) then Some((h, (offset + |t|) as nat)) else None
  {
    WholeAgrees(data, offset, filesize, t);
    HeaderReadsAt(compression, crc8, verify, h, t, data, offset, filesize);
  }

  lemma HeaderReadsAt(compression: bool, crc8: seq<byte> -> byte, verify: bool, h: EntryHeader, t: seq<byte>,
                      data: seq<byte>, offset: nat, filesize: nat)
    requires HeaderReadsBack(compression, crc8, h, t) && filesize + 16 <= |data|
    requires 0 < |t| && offset <= filesize && Agrees(data, offset, filesize, t)
    ensures DecodeHeader(compression, crc8, verify, data, offset, filesize)
         == if |t| <= Int32(filesize - offset) then Some((h, (offset + |t|) as nat)) else None
  {
    assert HeaderReads(compression, crc8, verify, h, t, data, offset, filesize);
    InReach(offset, filesize, |t|);
  }

  lemma ContentStands(t: seq<byte>, key: seq<byte>, chunk: seq<byte>, data: seq<byte>, offset: nat)
    requires offset + |t + (key + chunk)| <= |data| && data[offset..offset + |t + (key + chunk)|] == t + (key + chunk)
    ensures data[offset..offset + |t|] == t && data[offset + |t|..offset + |t| + |key| + |chunk|] == key + chunk
  {
    Split2(data, offset, offset + |t + (key + chunk)|, t, key + chunk);
  }

  /** An entry whose header, key and content are given as bytes. */
  lemma GetEntryStands(decode: HeaderDecoder, h: EntryHeader, t: seq<byte>, key: seq<byte>, chunk: seq<byte>,
                       data: seq<byte>, offset: nat, filesize: nat)
    requires offset + |t + (key + chunk)| <= filesize <= |data|
    requires data[offset..offset + |t + (key + chunk)|] == t + (key + chunk)
    requires decode(offset) == Some((h, (offset + |t|) as nat))
    requires 0 < h.sizeKey == |key| && h.SizeValueUsed() == h.SizeValueOffset() == |chunk| && h.IsEntryFull()
    ensures GetEntry(decode, data, offset, filesize)
         == Some(Write(h.IsDelete(), key, chunk, h.sizeValue, h.sizeCompressed, h.checksumContent))
  {
    ContentStands(t, key, chunk, data, offset);
    GetEntryFrom(decode, h, offset + |t|, key, chunk, data, offset, filesize);
  }

  lemma EntryFrom(compression: bool, crc8: seq<byte> -> byte, verify: bool, h: EntryHeader, head: seq<byte>,
                  key: seq<byte>, chunk: seq<byte>, data: seq<byte>, offset: nat, filesize: nat)
    requires HeaderReadsBack(compression, crc8, h, head) && head != [] && filesize + 16 <= |data|
    requires offset + |head + (key + chunk)| <= filesize
    requires data[offset..offset + |head + (key + chunk)|] == head + (key + chunk)
    requires 0 < h.sizeKey == |key| && h.SizeValueUsed() == h.SizeValueOffset() == |chunk| && h.IsEntryFull()
    ensures GetEntry(DecoderOf(compression, crc8, verify, data, filesize), data, offset, filesize)
         == if |head| <= Int32(filesize - offset)
            then Some(Write(h.IsDelete(), key, chunk, h.sizeValue, h.sizeCompressed, h.checksumContent)) else None
  {
    ContentStands(head, key, chunk, data, offset);
    HeaderDecodes(compression, crc8, verify, h, head, data, offset, filesize);
    if |head| <= Int32(filesize - offset) {
      GetEntryStands(DecoderOf(compression, crc8, verify, data, filesize), h, head, key, chunk, data, offset, filesize);
    }
  }

  /**
   * An int that holds what is left of a file from the offset of an entry on is not less than the size of its
   * header.
   */
  predicate InIntReach(compression: bool, crc8: seq<byte> -> byte, hash: Key -> nat, w: Write, offset: nat,
                       filesize: nat)
    requires offset <= filesize
  {
    |EncodeHeader(compression, crc8, HeaderOf(hash, w))| <= Int32(filesize - offset)
  }

  /**
   * Reading an entry gives back the order that was written if and only if its header fits the int that
   * holds what is left of the file; beyond the end of the file the data may be anything.
   */
  lemma EntryRoundTrip(compression: bool, crc8: seq<byte> -> byte, hash: Key -> nat, w: Write, t: seq<byte>,
                       data: seq<byte>, offset: nat, filesize: nat)
    requires SelfContained(compression, hash, w) && w.key != [] && t == EntryBytes(compression, crc8, hash, w)
    requires offset + |t| <= filesize && filesize + 16 <= |data| && data[offset..offset + |t|] == t
    ensures GetEntry(DecoderOf(compression, crc8, false, data, filesize), data, offset, filesize)
         == if InIntReach(compression, crc8, hash, w, offset, filesize) then Some(w) else None
  {
    var h := HeaderOf(hash, w);
    EntryOfIs(compression, crc8, hash, w);
    HeaderRoundTrip(compression, crc8, h);
    EntryFrom(compression, crc8, false, h, EncodeHeader(compression, crc8, h), w.key, w.chunk, data, offset, filesize);
  }

  /** With 2^31 bytes or more left, and fewer than 2^32, no entry is read, whatever the file holds. */
  lemma EntryRefused(compression: bool, crc8: seq<byte> -> byte, verify: bool, data: seq<byte>, offset: nat,
                     filesize: nat)
    requires offset + 0x8000_0000 <= filesize < offset + 0x1_0000_0000 && filesize + 16 <= |data|
    ensures GetEntry(DecoderOf(compression, crc8, verify, data, filesize), data, offset, filesize) == None
  {
    HeaderRefused(compression, crc8, verify, data, offset, filesize);
  }

  // ----- Locations -----

  /**
   * The location of an entry as a 64-bit word, by its halves: the file id is shifted, and the offset, which
   * is not cut, put on it.
   */
  function Packed(at: Location): Location
  {
    Location(Or(at.fileid, at.offset / 0x1_0000_0000), at.offset % 0x1_0000_0000)
  }

  /** It names the place of the entry exactly when 32 bits can hold the offset. */
  lemma PackedIs(at: Location)
    ensures Packed(at) == at <==> at.offset < 0x1_0000_0000
  {
    if at.offset < 0x1_0000_0000 {
      OrZero(at.fileid);
    }
  }

  function AllPacked(ats: seq<Location>): (r: seq<Location>)
    ensures |r| == |ats| && forall i :: 0 <= i < |ats| ==> r[i] == Packed(ats[i])
  {
    seq(|ats|, i requires 0 <= i < |ats| => Packed(ats[i]))
  }

  // ----- The log -----

  /** An entry that was written: at what place, for what order, and as what bytes. */
  datatype Logged = Logged(at: Location, w: Write, bytes: seq<byte>)

  /** The bytes of an entry stand in a file. */
  ghost predicate In(file: seq<byte>, l: Logged)
  {
    l.at.offset + |l.bytes| <= |file| && file[l.at.offset..l.at.offset + |l.bytes|] == l.bytes
  }

  lemma InStays(file: seq<byte>, more: seq<byte>, l: Logged)
    requires In(file, l)
    ensures In(file + more, l)
  {
    assert (file + more)[l.at.offset..l.at.offset + |l.bytes|] == file[l.at.offset..l.at.offset + |l.bytes|];
  }

  /** The bytes of a file, of which the current one may be in a buffer. */
  ghost function ImageOf(files: map<nat, seq<byte>>, current: Option<nat>, buffer: seq<byte>, id: nat): seq<byte>
  {
    if current == Some(id) then buffer else if id in files then files[id] else []
  }

  /** An entry of the log stands in its file. */
  ghost predicate StandsAt(files: map<nat, seq<byte>>, current: Option<nat>, buffer: seq<byte>, log: seq<Logged>,
                           i: nat)
  {
    i < |log| ==> log[i].at.fileid in files && In(ImageOf(files, current, buffer, log[i].at.fileid), log[i])
  }

  ghost predicate Standing(files: map<nat, seq<byte>>, current: Option<nat>, buffer: seq<byte>, log: seq<Logged>)
  {
    forall i: nat :: StandsAt(files, current, buffer, log, i)
  }

  /** Whatever goes to the end of the current file, and whatever is opened next, entries stay where they are. */
  lemma StandingStays(files: map<nat, seq<byte>>, current: Option<nat>, buffer: seq<byte>, log: seq<Logged>,
                      files': map<nat, seq<byte>>, current': Option<nat>, buffer': seq<byte>)
    requires Standing(files, current, buffer, log)
    requires forall id :: id in files ==>
               id in files' && ImageOf(files, current, buffer, id) <= ImageOf(files', current', buffer', id)
    ensures Standing(files', current', buffer', log)
  {
    forall i: nat
      ensures StandsAt(files', current', buffer', log, i)
    {
      assert StandsAt(files, current, buffer, log, i);
      if i < |log| {
        var id := log[i].at.fileid;
        var image, image' := ImageOf(files, current, buffer, id), ImageOf(files', current', buffer', id);
        InStays(image, image'[|image|..], log[i]);
        assert image + image'[|image|..] == image';
      }
    }
  }

  lemma StandingOpens(files: map<nat, seq<byte>>, buffer: seq<byte>, log: seq<Logged>, id: nat, header: seq<byte>)
    requires Standing(files, None, buffer, log) && id !in files
    ensures Standing(files[id := []], Some(id), header, log)
  {
    StandingStays(files, None, buffer, log, files[id := []], Some(id), header);
  }

  lemma StandingNext(files: map<nat, seq<byte>>, id: nat, buffer: seq<byte>, log: seq<Logged>, l: Logged)
    requires Standing(files, Some(id), buffer, log) && id in files
    requires l.at == Location(id, |buffer|)
    ensures Standing(files, Some(id), buffer + l.bytes, log + [l])
  {
    StandingStays(files, Some(id), buffer, log, files, Some(id), buffer + l.bytes);
    forall i: nat
      ensures StandsAt(files, Some(id), buffer + l.bytes, log + [l], i)
    {
      assert StandsAt(files, Some(id), buffer + l.bytes, log, i);
    }
  }

  /** The row of the offset array that an entry gets; its offset has 32 bits. */
  function RowOf(hash: Key -> nat, l: Logged): Row
  {
    Row(hash(l.w.key), l.at.offset % 0x1_0000_0000)
  }

  /** The rows of the entries of one file, in the order they were written. */
  ghost function RowsIn(hash: Key -> nat, log: seq<Logged>, id: nat): seq<Row>
    decreases |log|
  {
    if log == [] then []
    else
      var l := log[|log| - 1];
      RowsIn(hash, log[..|log| - 1], id) + if l.at.fileid == id then [RowOf(hash, l)] else []
  }

  lemma RowsNext(hash: Key -> nat, log: seq<Logged>, l: Logged, id: nat)
    ensures RowsIn(hash, log + [l], id) == RowsIn(hash, log, id) + if l.at.fileid == id then [RowOf(hash, l)] else []
  {
    assert (log + [l])[..|log|] == log;
  }

  lemma {:induction false} NoRowsIn(hash: Key -> nat, log: seq<Logged>, id: nat)
    requires forall i :: 0 <= i < |log| ==> log[i].at.fileid != id
    ensures RowsIn(hash, log, id) == []
    decreases |log|
  {
    if log != [] {
      NoRowsIn(hash, log[..|log| - 1], id);
    }
  }

  /** The bytes that end a file of a size, for some rows. */
  type Trailers = (seq<Row>, nat) -> seq<byte>

  /** A file that has a header and entries, and ends in an offset array of some rows. */
  ghost predicate EndsWithRows(trailer: Trailers, file: seq<byte>, rows: seq<Row>)
  {
    exists size: nat :: EndsAt(trailer, file, rows, size)
  }

  ghost predicate EndsAt(trailer: Trailers, file: seq<byte>, rows: seq<Row>, size: nat)
  {
    FILE_HEADER_SIZE <= size <= |file| && file == file[..size] + trailer(rows, size)
  }

  /** An entry is in one of the first n files, after the header, and starts at some limit at the latest. */
  ghost predicate PlacedAt(log: seq<Logged>, n: nat, limit: nat, i: nat)
  {
    i < |log| ==>
      && 1 <= log[i].at.fileid <= n && FILE_HEADER_SIZE <= log[i].at.offset <= limit
      && (i > 0 ==> log[i - 1].at.fileid <= log[i].at.fileid)
  }

  /** So are all entries, and later ones are in the same file or in later ones. */
  ghost predicate Placed(log: seq<Logged>, n: nat, limit: nat)
  {
    forall i: nat :: PlacedAt(log, n, limit, i)
  }

  lemma PlacedMore(log: seq<Logged>, n: nat, limit: nat, m: nat)
    requires Placed(log, n, limit) && n <= m
    ensures Placed(log, m, limit)
  {
    forall i: nat
      ensures PlacedAt(log, m, limit, i)
    {
      assert PlacedAt(log, n, limit, i);
    }
  }

  lemma PlacedNext(log: seq<Logged>, n: nat, limit: nat, l: Logged)
    requires Placed(log, n, limit) && 1 <= l.at.fileid == n && FILE_HEADER_SIZE <= l.at.offset <= limit
    ensures Placed(log + [l], n, limit)
  {
    forall i: nat
      ensures PlacedAt(log + [l], n, limit, i)
    {
      assert PlacedAt(log, n, limit, i);
      assert i > 0 ==> PlacedAt(log, n, limit, i - 1);
    }
  }

  lemma NoneInNext(hash: Key -> nat, log: seq<Logged>, n: nat, limit: nat)
    requires Placed(log, n, limit)
    ensures RowsIn(hash, log, n + 1) == []
  {
    forall i | 0 <= i < |log|
      ensures log[i].at.fileid != n + 1
    {
      assert PlacedAt(log, n, limit, i);
    }
    NoRowsIn(hash, log, n + 1);
  }

  /** A file is there, and ends in the rows of its entries. */
  ghost predicate FileEnds(trailer: Trailers, hash: Key -> nat, log: seq<Logged>, files: map<nat, seq<byte>>,
                           id: nat)
  {
    id in files && EndsWithRows(trailer, files[id], RowsIn(hash, log, id))
  }

  ghost predicate AllEnd(trailer: Trailers, hash: Key -> nat, log: seq<Logged>, files: map<nat, seq<byte>>,
                         n: nat)
  {
    forall id: nat :: 1 <= id && id <= n ==> FileEnds(trailer, hash, log, files, id)
  }

  lemma FileEndsStill(trailer: Trailers, hash: Key -> nat, log: seq<Logged>, files: map<nat, seq<byte>>,
                      id: nat, log': seq<Logged>, files': map<nat, seq<byte>>)
    requires FileEnds(trailer, hash, log, files, id) && id in files' && files'[id] == files[id]
    requires RowsIn(hash, log', id) == RowsIn(hash, log, id)
    ensures FileEnds(trailer, hash, log', files', id)
  {}

  lemma AllEndMore(trailer: Trailers, hash: Key -> nat, log: seq<Logged>, files: map<nat, seq<byte>>, n: nat,
                   l: Logged)
    requires AllEnd(trailer, hash, log, files, n) && n < l.at.fileid
    ensures AllEnd(trailer, hash, log + [l], files, n)
  {
    forall id: nat | 1 <= id <= n
      ensures FileEnds(trailer, hash, log + [l], files, id)
    {
      RowsNext(hash, log, l, id);
      FileEndsStill(trailer, hash, log, files, id, log + [l], files);
    }
  }

  /** Another file is written. */
  lemma AllEndStill(trailer: Trailers, hash: Key -> nat, log: seq<Logged>, files: map<nat, seq<byte>>, n: nat,
                    id: nat, file: seq<byte>)
    requires AllEnd(trailer, hash, log, files, n) && n < id
    ensures AllEnd(trailer, hash, log, files[id := file], n)
  {
    var files' := files[id := file];
    forall i: nat | 1 <= i <= n
      ensures FileEnds(trailer, hash, log, files', i)
    {
      FileEndsStill(trailer, hash, log, files, i, log, files');
    }
  }

  lemma FileIsClosed(trailer: Trailers, hash: Key -> nat, log: seq<Logged>, files: map<nat, seq<byte>>, id: nat,
                     buffer: seq<byte>, rows: seq<Row>, file: seq<byte>)
    requires FILE_HEADER_SIZE <= |buffer| && rows == RowsIn(hash, log, id)
    requires file == buffer + trailer(rows, |buffer|)
    ensures FileEnds(trailer, hash, log, files[id := file], id)
  {
    assert file[..|buffer|] == buffer;
    assert EndsAt(trailer, file, rows, |buffer|);
  }

  /** The next file is closed. */
  lemma OneMoreEnds(trailer: Trailers, hash: Key -> nat, log: seq<Logged>, files: map<nat, seq<byte>>, n: nat,
                    id: nat, buffer: seq<byte>, rows: seq<Row>, file: seq<byte>)
    requires AllEnd(trailer, hash, log, files, n) && id == n + 1
    requires FILE_HEADER_SIZE <= |buffer| && rows == RowsIn(hash, log, id)
    requires file == buffer + trailer(rows, |buffer|)
    ensures AllEnd(trailer, hash, log, files[id := file], id)
  {
    FileIsClosed(trailer, hash, log, files, id, buffer, rows, file);
    AllEndStill(trailer, hash, log, files, n, id, file);
    AllEndNext(trailer, hash, log, files[id := file], n, id);
  }

  lemma AllEndNext(trailer: Trailers, hash: Key -> nat, log: seq<Logged>, files: map<nat, seq<byte>>, n: nat,
                   id: nat)
    requires AllEnd(trailer, hash, log, files, n) && FileEnds(trailer, hash, log, files, id) && id == n + 1
    ensures AllEnd(trailer, hash, log, files, id)
  {}

  /**
   * The rows kept are those of the entries of the current file, and every file before it has been closed with the
   * rows of its own.
   */
  ghost predicate FiledAs(trailer: Trailers, hash: Key -> nat, log: seq<Logged>, files: map<nat, seq<byte>>,
                          current: Option<nat>, last: nat, size: nat, rows: seq<Row>, limit: nat)
  {
    && Placed(log, last, limit)
    && match current
       case None => AllEnd(trailer, hash, log, files, last)
       case Some(id) =>
         && 1 <= id == last && FILE_HEADER_SIZE <= size && rows == RowsIn(hash, log, id)
         && AllEnd(trailer, hash, log, files, id - 1)
  }

  lemma FiledOpens(trailer: Trailers, hash: Key -> nat, log: seq<Logged>, files: map<nat, seq<byte>>, last: nat,
                   size: nat, rows: seq<Row>, limit: nat)
    requires FiledAs(trailer, hash, log, files, None, last, size, rows, limit)
    ensures FiledAs(trailer, hash, log, files[last + 1 := []], Some(last + 1), last + 1, FILE_HEADER_SIZE, [], limit)
  {
    NoneInNext(hash, log, last, limit);
    PlacedMore(log, last, limit, last + 1);
    AllEndStill(trailer, hash, log, files, last, last + 1, []);
  }

  lemma FiledAppends(trailer: Trailers, hash: Key -> nat, log: seq<Logged>, files: map<nat, seq<byte>>, id: nat,
                     size: nat, rows: seq<Row>, limit: nat, l: Logged, size': nat)
    requires FiledAs(trailer, hash, log, files, Some(id), id, size, rows, limit) && size <= size'
    requires l.at.fileid == id && FILE_HEADER_SIZE <= l.at.offset <= limit
    ensures FiledAs(trailer, hash, log + [l], files, Some(id), id, size', rows + [RowOf(hash, l)], limit)
  {
    RowsNext(hash, log, l, id);
    PlacedNext(log, id, limit, l);
    AllEndMore(trailer, hash, log, files, id - 1, l);
  }

  type FileHeader = s: seq<byte> | |s| == FILE_HEADER_SIZE witness seq(FILE_HEADER_SIZE, _ => 0)

  class Manager {
    const compression: bool
    const crc8: seq<byte> -> byte
    const crc: Crc
    const hash: Key -> nat
    const fileHeader: nat -> FileHeader
    const sizeBlock: nat
    const filetype: nat
    /** The bytes that an order is written as. */
    const encode: Write -> seq<byte>
    /** The offset arrays that files are closed with. */
    ghost const trailer: Trailers

    /** The files on disk; the image of the current file, of which the bytes before offsetStart are on disk. */
    var files: map<nat, seq<byte>>
    var buffer: seq<byte>
    var offsetStart: nat
    var rows: seq<Row>
    var hasFile: bool
    var bufferHasItems: bool
    var fileid: nat
    var sequenceFileid: nat
    var sequenceTimestamp: nat

    ghost var log: seq<Logged>

    constructor (compression: bool, crc8: seq<byte> -> byte, crc: Crc, hash: Key -> nat, fileHeader: nat -> FileHeader,
                 sizeBlock: nat, filetype: nat)
      ensures this.compression == compression && this.crc8 == crc8 && this.hash == hash
      ensures this.crc == crc && this.sizeBlock == sizeBlock && this.filetype == filetype
      ensures forall w :: encode(w) == EntryBytes(compression, crc8, hash, w)
      ensures Arrays() && Valid() && Filed() && Flushed() && log == []
    {
      this.compression, this.crc8, this.crc, this.hash := compression, crc8, crc, hash;
      this.fileHeader, this.sizeBlock, this.filetype := fileHeader, sizeBlock, filetype;
      encode := w => EntryBytes(compression, crc8, hash, w);
      trailer := (rows: seq<Row>, position: nat) => Trailer(crc, rows, filetype, 0, position);
      files, buffer, offsetStart, rows, hasFile, bufferHasItems := map[], [], 0, [], false, false;
      fileid, sequenceFileid, sequenceTimestamp := 0, 0, 0;
      log := [];
    }

    ghost function Current(): Option<nat>
      reads this
    {
      if hasFile then Some(fileid) else None
    }

    ghost predicate Flushed()
      reads this
    {
      hasFile ==> offsetStart == |buffer|
    }

    ghost predicate Valid()
      reads this
    {
      && (hasFile ==> fileid in files && offsetStart <= |buffer| && files[fileid] == buffer[..offsetStart])
      && (hasFile ==> fileid <= sequenceFileid) && (bufferHasItems ==> hasFile)
      && (forall id :: id in files ==> id <= sequenceFileid)
      && Standing(files, Current(), buffer, log)
    }

    ghost predicate Arrays()
    {
      forall rows: seq<Row>, position: nat :: trailer(rows, position) == Trailer(crc, rows, filetype, 0, position)
    }

    /** Where entries may start. */
    function Limit(): (n: nat)
    {
      if sizeBlock < FILE_HEADER_SIZE then FILE_HEADER_SIZE else sizeBlock
    }

    ghost predicate Filed()
      reads this
    {
      FiledAs(trailer, hash, log, files, Current(), sequenceFileid, |buffer|, rows, Limit())
    }

    /** Once the buffer is flushed, everything that was written is on disk. */
    lemma FlushedIsOnDisk()
      requires Valid() && Flushed()
      ensures OnDisk(files, log)
    {
      assert hasFile ==> buffer[..offsetStart] == buffer;
      forall i | 0 <= i < |log|
        ensures log[i].at.fileid in files && In(files[log[i].at.fileid], log[i])
      {
        assert StandsAt(files, Current(), buffer, log, i);
      }
    }

    method OpenNewFile()
      requires Valid() && Filed() && !hasFile
      modifies this
      ensures Valid() && Filed() && hasFile && log == old(log) && rows == []
      ensures fileid == old(sequenceFileid) + 1 && |buffer| == FILE_HEADER_SIZE
    {
      var id, header := sequenceFileid + 1, fileHeader(sequenceTimestamp + 1);
      StandingOpens(files, buffer, log, id, header);
      FiledOpens(trailer, hash, log, files, sequenceFileid, |buffer|, rows, Limit());
      assert header[..0] == [];
      sequenceFileid, sequenceTimestamp, fileid := id, sequenceTimestamp + 1, id;
      files, hasFile := files[id := []], true;
      offsetStart, buffer, rows := 0, header, [];
    }

    /** CloseCurrentFile: the offset array is written at the end of the file. */
    method CloseCurrentFile()
      requires Arrays() && Valid() && Filed() && hasFile && Flushed()
      modifies this
      ensures Valid() && Filed() && !hasFile && !bufferHasItems && log == old(log)
      ensures fileid == old(fileid) && buffer == old(buffer) && fileid in files
      ensures files[fileid] == old(buffer) + trailer(RowsIn(hash, log, fileid), |old(buffer)|)
    {
      assert buffer[..offsetStart] == buffer;
      var closed := WriteOffsetArray(crc, files[fileid], rows, filetype, 0);
      StandingStays(files, Some(fileid), buffer, log, files[fileid := closed], None, buffer);
      OneMoreEnds(trailer, hash, log, files, fileid - 1, fileid, buffer, rows, closed);
      files := files[fileid := closed];
      bufferHasItems, hasFile := false, false;
    }

    /** The part of FlushCurrentFile that writes the buffer. */
    method WriteBuffer()
      requires Valid() && Filed() && (!bufferHasItems ==> Flushed())
      modifies this
      ensures Valid() && Filed() && Flushed() && !bufferHasItems && hasFile == old(hasFile) && log == old(log)
      ensures buffer == old(buffer) && rows == old(rows)
    {
      if hasFile && bufferHasItems {
        assert buffer[..offsetStart] + buffer[offsetStart..] == buffer;
        AllEndStill(trailer, hash, log, files, fileid - 1, fileid, buffer);
        StandingStays(files, Some(fileid), buffer, log, files[fileid := buffer], Some(fileid), buffer);
        files := files[fileid := files[fileid] + buffer[offsetStart..]];
        offsetStart := |buffer|;
        assert buffer[..|buffer|] == buffer;
      }
      bufferHasItems := false;
    }

    /** FlushCurrentFile, which also ends a file that has reached its size. */
    method FlushCurrentFile(forceNewFile: bool)
      requires Arrays() && Valid() && Filed() && (!bufferHasItems ==> Flushed())
      modifies this
      ensures Valid() && Filed() && Flushed() && !bufferHasItems && log == old(log) && buffer == old(buffer)
      ensures hasFile <==>
                old(hasFile) && |buffer| < sizeBlock && (forceNewFile ==> |buffer| <= FILE_HEADER_SIZE)
    {
      if !hasFile {
        return;
      }
      WriteBuffer();
      if |buffer| >= sizeBlock || (forceNewFile && |buffer| > FILE_HEADER_SIZE) {
        CloseCurrentFile();
      }
    }

    /** Close: the buffer is written, and the current file is closed. */
    method Close()
      requires Arrays() && Valid() && Filed() && (!bufferHasItems ==> Flushed())
      modifies this
      ensures Valid() && Filed() && Flushed() && !hasFile && log == old(log)
    {
      FlushCurrentFile(false);
      if hasFile {
        CloseCurrentFile();
      }
    }

    /** Some bytes go to the end of the buffer, as the entry of an order. */
    method Append(w: Write, bytes: seq<byte>) returns (location: Location, ghost at: Location)
      requires Valid() && Filed() && hasFile && |buffer| <= Limit()
      modifies this
      ensures Valid() && Filed() && hasFile && bufferHasItems
      ensures at == Location(fileid, |old(buffer)|) && location == Packed(at)
      ensures log == old(log) + [Logged(at, w, bytes)]
      ensures rows == old(rows) + [Row(hash(w.key), location.offset)]
    {
      at := Location(fileid, |buffer|);
      location := Packed(Location(fileid, |buffer|));
      StandingNext(files, fileid, buffer, log, Logged(at, w, bytes));
      assert (buffer + bytes)[..offsetStart] == buffer[..offsetStart];
      FiledAppends(trailer, hash, log, files, fileid, |buffer|, rows, Limit(), Logged(at, w, bytes), |buffer + bytes|);
      rows := rows + [Row(hash(w.key), location.offset)];
      buffer := buffer + bytes;
      bufferHasItems := true;
      log := log + [Logged(at, w, bytes)];
    }

    /** One order, in a new file if the current one is full. */
    method WriteOrder(w: Write) returns (location: Location, ghost at: Location)
      requires Arrays() && Valid() && Filed() && (!bufferHasItems ==> Flushed())
      modifies this
      ensures Valid() && Filed() && bufferHasItems && location == Packed(at)
      ensures log == old(log) + [Logged(at, w, encode(w))]
    {
      if |buffer| > sizeBlock {
        FlushCurrentFile(true);
      }
      if !hasFile {
        OpenNewFile();
      }
      location, at := Append(w, encode(w));
    }

    /** WriteOrdersAndFlushFile for self-contained orders, which returns where each went. */
    method WriteOrders(ws: seq<Write>) returns (locations: seq<Location>, ghost ats: seq<Location>)
      requires Arrays() && Valid() && Filed() && Flushed()
      modifies this
      ensures Valid() && Filed() && Flushed() && |ats| == |ws| && (ws != [] ==> hasFile ==> |buffer| < sizeBlock)
      ensures locations == AllPacked(ats)
      ensures log == old(log) + Entered(encode, ats, ws)
    {
      locations, ats := [], [];
      assert log + [] == log;
      var i := 0;
      while i < |ws|
        invariant 0 <= i <= |ws| && |ats| == i && Valid() && Filed() && (!bufferHasItems ==> Flushed())
        invariant locations == AllPacked(ats) && log == old(log) + Entered(encode, ats, ws[..i])
      {
        var location, at := WriteOrder(ws[i]);
        EnteredNext(encode, ats, at, ws, i);
        locations, ats := locations + [location], ats + [at];
        i := i + 1;
      }
      assert ws[..|ws|] == ws;
      FlushCurrentFile(false);
    }
  }

  /** What a batch of orders adds to the log. */
  ghost function Entered(encode: Write -> seq<byte>, ats: seq<Location>, ws: seq<Write>): (r: seq<Logged>)
    requires |ats| == |ws|
    ensures |r| == |ws| && forall i :: 0 <= i < |ws| ==> r[i] == Logged(ats[i], ws[i], encode(ws[i]))
  {
    seq(|ws|, i requires 0 <= i < |ws| => Logged(ats[i], ws[i], encode(ws[i])))
  }

  lemma EnteredNext(encode: Write -> seq<byte>, ats: seq<Location>, at: Location, ws: seq<Write>, i: nat)
    requires i < |ws| && |ats| == i
    ensures Entered(encode, ats + [at], ws[..i + 1])
         == Entered(encode, ats, ws[..i]) + [Logged(at, ws[i], encode(ws[i]))]
  {}

  ghost predicate OnDisk(files: map<nat, seq<byte>>, log: seq<Logged>)
  {
    forall i :: 0 <= i < |log| ==> log[i].at.fileid in files && In(files[log[i].at.fileid], log[i])
  }

  // ----- The log refines a map -----

  function ToOrder(w: Write): Order
  {
    if w.delete then Delete(w.key) else Put(w.key, w.chunk)
  }

  ghost function OrdersOf(log: seq<Logged>): (r: seq<Order>)
    ensures |r| == |log| && forall i :: 0 <= i < |log| ==> r[i] == ToOrder(log[i].w)
  {
    seq(|log|, i requires 0 <= i < |log| => ToOrder(log[i].w))
  }

  /** Each bucket lists the locations of the entries with its hash, in the order they were written. */
  ghost predicate Follows(hash: Key -> nat, log: seq<Logged>, index: Index<Location>)
  {
    forall h :: Bucket(index, h) == BucketOf(hash, log, h)
  }

  ghost function BucketOf(hash: Key -> nat, log: seq<Logged>, h: nat): seq<Location>
  {
    var ps := Positions(hash, OrdersOf(log), h, 0, |log|);
    PositionsAre(hash, OrdersOf(log), h, 0, |log|);
    assert forall i :: 0 <= i < |ps| ==> ps[i] in ps;
    seq(|ps|, i requires 0 <= i < |ps| => Packed(log[ps[i]].at))
  }

  lemma BucketNext(hash: Key -> nat, log: seq<Logged>, l: Logged, h: nat)
    ensures BucketOf(hash, log + [l], h) == BucketOf(hash, log, h) + if hash(l.w.key) == h then [Packed(l.at)] else []
  {
    var more := log + [l];
    var ps, ps' := Positions(hash, OrdersOf(log), h, 0, |log|), Positions(hash, OrdersOf(more), h, 0, |more|);
    assert OrdersOf(more) == OrdersOf(log) + [ToOrder(l.w)];
    PositionsPrefix(hash, OrdersOf(log), [ToOrder(l.w)], h, |log|);
    PositionsAre(hash, OrdersOf(log), h, 0, |log|);
    assert forall i :: 0 <= i < |ps| ==> ps[i] in ps;
    assert ps' == ps + if hash(l.w.key) == h then [|log|] else [];
  }

  /** The index update for a batch that was written: its locations go to the ends of their buckets, in order. */
  method IndexBatch(hash: Key -> nat, index0: Index<Location>, locations: seq<Location>, ws: seq<Write>,
                    ghost ats: seq<Location>, ghost encode: Write -> seq<byte>, ghost log: seq<Logged>)
    returns (index: Index<Location>)
    requires |ats| == |ws| && locations == AllPacked(ats) && Follows(hash, log, index0)
    ensures Follows(hash, log + Entered(encode, ats, ws), index)
  {
    index := index0;
    ghost var done := log;
    assert log + Entered(encode, ats[..0], ws[..0]) == log;
    for i := 0 to |ws|
      invariant done == log + Entered(encode, ats[..i], ws[..i]) && Follows(hash, done, index)
    {
      ghost var l := Logged(ats[i], ws[i], encode(ws[i]));
      forall h
        ensures BucketOf(hash, done + [l], h) == BucketOf(hash, done, h) + if hash(l.w.key) == h then [Packed(l.at)]
                else []
      {
        BucketNext(hash, done, l, h);
      }
      assert done + [l] == log + Entered(encode, ats[..i + 1], ws[..i + 1]);
      index := Insert(index, hash(ws[i].key), locations[i]);
      done := done + [l];
    }
    assert ats[..|ats|] == ats && ws[..|ws|] == ws;
  }

  /** Every entry of the log is that of a self-contained order with a key in play. */
  ghost predicate Genuine(compression: bool, crc8: seq<byte> -> byte, hash: Key -> nat, keys: set<Key>, l: Logged)
  {
    && l.bytes == EntryBytes(compression, crc8, hash, l.w) && SelfContained(compression, hash, l.w)
    && l.w.key != [] && l.w.key in keys
  }

  ghost predicate AllGenuine(compression: bool, crc8: seq<byte> -> byte, hash: Key -> nat, keys: set<Key>,
                             log: seq<Logged>)
  {
    forall i: nat :: GenuineAt(compression, crc8, hash, keys, log, i)
  }

  ghost predicate GenuineAt(compression: bool, crc8: seq<byte> -> byte, hash: Key -> nat, keys: set<Key>,
                            log: seq<Logged>, i: nat)
  {
    i < |log| ==> Genuine(compression, crc8, hash, keys, log[i])
  }

  /** The last location of a bucket is that of the last write for the key. */
  lemma BucketEnds(hash: Key -> nat, keys: set<Key>, log: seq<Logged>, key: Key)
    requires (forall i :: 0 <= i < |log| ==> log[i].w.key in keys) && Distinct(hash, keys) && key in keys
    ensures var bucket := BucketOf(hash, log, hash(key));
            match LastOrder(OrdersOf(log), key)
            case None => bucket == []
            case Some(p) => bucket != [] && bucket[|bucket| - 1] == Packed(log[p].at)
  {
    KeysOf(keys, log);
    LastPosition(hash, keys, OrdersOf(log), key);
    BucketLast(hash, log, hash(key), Positions(hash, OrdersOf(log), hash(key), 0, |log|));
  }

  lemma BucketLast(hash: Key -> nat, log: seq<Logged>, h: nat, ps: seq<nat>)
    requires ps == Positions(hash, OrdersOf(log), h, 0, |log|)
    ensures |BucketOf(hash, log, h)| == |ps|
    ensures ps != [] ==> ps[|ps| - 1] < |log| && BucketOf(hash, log, h)[|ps| - 1] == Packed(log[ps[|ps| - 1]].at)
  {
    PositionsAre(hash, OrdersOf(log), h, 0, |log|);
    assert ps != [] ==> ps[|ps| - 1] in ps;
  }

  lemma KeysOf(keys: set<Key>, log: seq<Logged>)
    requires forall i :: 0 <= i < |log| ==> log[i].w.key in keys
    ensures forall p :: 0 <= p < |log| ==> OrdersOf(log)[p].key in keys
  {}

  /**
   * The log refines a map: after any batches, across flushes and files, the last location of a key's
   * bucket is that of the last order written for the key, and reads as it if and only if an int can
   * hold what is left of the file; provided that 32 bits can hold the offset.
   */
  lemma LogRefinesMap(compression: bool, crc8: seq<byte> -> byte, hash: Key -> nat, keys: set<Key>, log: seq<Logged>,
                      files: map<nat, seq<byte>>, index: Index<Location>, key: Key, slack: seq<byte>)
    requires OnDisk(files, log) && Follows(hash, log, index) && AllGenuine(compression, crc8, hash, keys, log)
    requires Distinct(hash, keys) && key in keys && 16 <= |slack|
    ensures match LastOrder(OrdersOf(log), key)
            case None => Bucket(index, hash(key)) == []
            case Some(p) => EndsWith(compression, crc8, hash, files, Bucket(index, hash(key)), slack, log[p])
  {
    var last := LastOrder(OrdersOf(log), key);
    assert Bucket(index, hash(key)) == BucketOf(hash, log, hash(key));
    forall i | 0 <= i < |log|
      ensures log[i].w.key in keys
    {
      assert GenuineAt(compression, crc8, hash, keys, log, i);
    }
    BucketEnds(hash, keys, log, key);
    if last.Some? {
      var l := log[last.value];
      assert GenuineAt(compression, crc8, hash, keys, log, last.value);
      LoggedReads(compression, crc8, hash, keys, files[l.at.fileid], l, slack);
      PackedIs(l.at);
    }
  }

  lemma LoggedReads(compression: bool, crc8: seq<byte> -> byte, hash: Key -> nat, keys: set<Key>, file: seq<byte>,
                    l: Logged, slack: seq<byte>)
    requires Genuine(compression, crc8, hash, keys, l) && In(file, l) && 16 <= |slack|
    ensures GetEntry(DecoderOf(compression, crc8, false, file + slack, |file|), file + slack, l.at.offset, |file|)
         == if InIntReach(compression, crc8, hash, l.w, l.at.offset, |file|) then Some(l.w) else None
  {
    InStays(file, slack, l);
    EntryRoundTrip(compression, crc8, hash, l.w, l.bytes, file + slack, l.at.offset, |file|);
  }

  /**
   * A bucket ends with the location of an entry, from which it is read, if and only if an int can hold what
   * is left of the file.
   */
  ghost predicate EndsWith(compression: bool, crc8: seq<byte> -> byte, hash: Key -> nat, files: map<nat, seq<byte>>,
                           bucket: seq<Location>, slack: seq<byte>, l: Logged)
  {
    && bucket != [] && bucket[|bucket| - 1] == Packed(l.at)
    && (l.at.offset < 0x1_0000_0000 ==> ReadsAs(compression, crc8, hash, files, bucket[|bucket| - 1], slack, l.w))
  }

  ghost predicate ReadsAs(compression: bool, crc8: seq<byte> -> byte, hash: Key -> nat, files: map<nat, seq<byte>>,
                          at: Location, slack: seq<byte>, w: Write)
  {
    && at.fileid in files
    && var file := files[at.fileid];
    && at.offset <= |file|
    && GetEntry(DecoderOf(compression, crc8, false, file + slack, |file|), file + slack, at.offset, |file|)
         == if InIntReach(compression, crc8, hash, w, at.offset, |file|) then Some(w) else None
  }

  // ----- The walk through a bucket -----

  /** What a location gives for a key: an entry that can be read, and has the key. */
  ghost function EntryFor(compression: bool, crc8: seq<byte> -> byte, files: map<nat, seq<byte>>, slack: seq<byte>,
                          key: Key)
    : Location -> Option<Write>
  {
    (l: Location) =>
      if l.fileid !in files then None
      else
        var file := files[l.fileid];
        match GetEntry(DecoderOf(compression, crc8, false, file + slack, |file|), file + slack, l.offset, |file|)
        case None => None
        case Some(w) => if w.key == key then Some(w) else None
  }

  /** StorageEngine::Get over files of bytes. */
  ghost function LookUp(compression: bool, crc8: seq<byte> -> byte, hash: Key -> nat, files: map<nat, seq<byte>>,
                        index: Index<Location>, slack: seq<byte>, key: Key): Walked<Write>
  {
    WalkAll(EntryFor(compression, crc8, files, slack, key), Bucket(index, hash(key)))
  }

  /** An int can hold what is left of its file from an entry on. */
  ghost predicate Reachable(compression: bool, crc8: seq<byte> -> byte, hash: Key -> nat, files: map<nat, seq<byte>>,
                            l: Logged)
  {
    && l.at.fileid in files && l.at.offset <= |files[l.at.fileid]|
    && InIntReach(compression, crc8, hash, l.w, l.at.offset, |files[l.at.fileid]|)
  }

  lemma LoggedGives(compression: bool, crc8: seq<byte> -> byte, hash: Key -> nat, keys: set<Key>, log: seq<Logged>,
                    files: map<nat, seq<byte>>, slack: seq<byte>, p: nat)
    requires OnDisk(files, log) && p < |log| && Genuine(compression, crc8, hash, keys, log[p]) && 16 <= |slack|
    requires log[p].at.offset < 0x1_0000_0000
    ensures EntryFor(compression, crc8, files, slack, log[p].w.key)(Packed(log[p].at))
         == if Reachable(compression, crc8, hash, files, log[p]) then Some(log[p].w) else None
  {
    PackedIs(log[p].at);
    LoggedReads(compression, crc8, hash, keys, files[log[p].at.fileid], log[p], slack);
  }

  /** The positions in the log of the writes of a key. */
  ghost function WritesOf(hash: Key -> nat, log: seq<Logged>, key: Key): (ps: seq<nat>)
    ensures forall i :: 0 <= i < |ps| ==> ps[i] < |log| && hash(log[ps[i]].w.key) == hash(key)
  {
    var ps := Positions(hash, OrdersOf(log), hash(key), 0, |log|);
    PositionsAre(hash, OrdersOf(log), hash(key), 0, |log|);
    assert forall i :: 0 <= i < |ps| ==> ps[i] in ps;
    ps
  }

  /** The bucket of a key, location by location. */
  lemma BucketGives(compression: bool, crc8: seq<byte> -> byte, hash: Key -> nat, keys: set<Key>, log: seq<Logged>,
                    files: map<nat, seq<byte>>, slack: seq<byte>, key: Key, i: nat)
    requires OnDisk(files, log) && AllGenuine(compression, crc8, hash, keys, log) && Distinct(hash, keys) && key in keys
    requires 16 <= |slack| && i < |WritesOf(hash, log, key)|
    requires log[WritesOf(hash, log, key)[i]].at.offset < 0x1_0000_0000
    ensures i < |BucketOf(hash, log, hash(key))|
    ensures EntryFor(compression, crc8, files, slack, key)(BucketOf(hash, log, hash(key))[i])
         == var l := log[WritesOf(hash, log, key)[i]];
            if Reachable(compression, crc8, hash, files, l) then Some(l.w) else None
  {
    var p := WritesOf(hash, log, key)[i];
    assert GenuineAt(compression, crc8, hash, keys, log, p);
    LoggedGives(compression, crc8, hash, keys, log, files, slack, p);
  }

  /**
   * A lookup over files of bytes gives the last write of the key that can be read, among those that the walk
   * tries: all but the first, or the only one. If none of them can be read it misses the key, or, if there
   * was only one, walks out of the bucket.
   */
  lemma LogWalk(compression: bool, crc8: seq<byte> -> byte, hash: Key -> nat, keys: set<Key>, log: seq<Logged>,
                files: map<nat, seq<byte>>, index: Index<Location>, key: Key, slack: seq<byte>, ps: seq<nat>, p: nat)
    requires OnDisk(files, log) && Follows(hash, log, index) && AllGenuine(compression, crc8, hash, keys, log)
    requires Distinct(hash, keys) && key in keys && 16 <= |slack| && ps == WritesOf(hash, log, key)
    requires forall i :: 0 <= i < |ps| ==> log[ps[i]].at.offset < 0x1_0000_0000
    requires LastReached(|ps|, Reached(compression, crc8, hash, files, log, ps), p)
    ensures Gives(LookUp(compression, crc8, hash, files, index, slack, key), log, ps,
                  Reached(compression, crc8, hash, files, log, ps), p)
  {
    var bucket := BucketOf(hash, log, hash(key));
    BucketLast(hash, log, hash(key), ps);
    assert Bucket(index, hash(key)) == bucket;
    LogBucket(compression, crc8, hash, keys, log, files, key, slack, ps, p, bucket);
  }

  lemma LogBucket(compression: bool, crc8: seq<byte> -> byte, hash: Key -> nat, keys: set<Key>, log: seq<Logged>,
                  files: map<nat, seq<byte>>, key: Key, slack: seq<byte>, ps: seq<nat>, p: nat, bucket: seq<Location>)
    requires OnDisk(files, log) && AllGenuine(compression, crc8, hash, keys, log)
    requires Distinct(hash, keys) && key in keys && 16 <= |slack| && ps == WritesOf(hash, log, key)
    requires forall i :: 0 <= i < |ps| ==> log[ps[i]].at.offset < 0x1_0000_0000
    requires LastReached(|ps|, Reached(compression, crc8, hash, files, log, ps), p)
    requires bucket == BucketOf(hash, log, hash(key)) && |bucket| == |ps|
    ensures Gives(WalkAll(EntryFor(compression, crc8, files, slack, key), bucket), log, ps,
                  Reached(compression, crc8, hash, files, log, ps), p)
  {
    BucketsGive(compression, crc8, hash, keys, log, files, slack, key, ps);
    LogWalkFrom(EntryFor(compression, crc8, files, slack, key), bucket, log, ps,
                Reached(compression, crc8, hash, files, log, ps), p);
  }

  /** Of n locations one is tried, and none after it can be read. */
  ghost predicate LastReached(n: nat, reached: nat -> bool, p: nat)
  {
    Tried(n, p) && forall q: nat :: p < q < n ==> !reached(q)
  }

  /** A lookup gives a write of the key, if that can be read; if not, and it is the last to be tried, nothing. */
  ghost predicate Gives(r: Walked<Write>, log: seq<Logged>, ps: seq<nat>, reached: nat -> bool, p: nat)
  {
    && p < |ps| && ps[p] < |log|
    && if reached(p) then r == Hit(log[ps[p]].w) else p <= 1 ==> r == if |ps| == 1 then RunsOut else Missed
  }

  lemma LogWalkFrom(read: Location -> Option<Write>, bucket: seq<Location>, log: seq<Logged>, ps: seq<nat>,
                    reached: nat -> bool, p: nat)
    requires |bucket| == |ps| && (forall i :: 0 <= i < |ps| ==> ps[i] < |log|) && LastReached(|ps|, reached, p)
    requires forall q: nat :: GivesAt(read, bucket, log, ps, reached, q)
    ensures Gives(WalkAll(read, bucket), log, ps, reached, p)
  {
    var answers := (q: nat) => if q < |ps| && ps[q] < |log| then log[ps[q]].w else log[ps[p]].w;
    forall q: nat | p <= q < |bucket|
      ensures read(bucket[q]) == if reached(q) then Some(answers(q)) else None
    {
      assert GivesAt(read, bucket, log, ps, reached, q);
    }
    WalkOf(read, bucket, reached, answers, p);
  }

  ghost function Reached(compression: bool, crc8: seq<byte> -> byte, hash: Key -> nat, files: map<nat, seq<byte>>,
                         log: seq<Logged>, ps: seq<nat>): nat -> bool
  {
    (q: nat) => q < |ps| && ps[q] < |log| && Reachable(compression, crc8, hash, files, log[ps[q]])
  }

  /** A location of the bucket of a key gives the write it is of, if that can be reached. */
  ghost predicate GivesAt(read: Location -> Option<Write>, bucket: seq<Location>, log: seq<Logged>, ps: seq<nat>,
                          reached: nat -> bool, q: nat)
  {
    q < |bucket| && q < |ps| && ps[q] < |log| ==> read(bucket[q]) == if reached(q) then Some(log[ps[q]].w) else None
  }

  lemma BucketsGive(compression: bool, crc8: seq<byte> -> byte, hash: Key -> nat, keys: set<Key>, log: seq<Logged>,
                    files: map<nat, seq<byte>>, slack: seq<byte>, key: Key, ps: seq<nat>)
    requires OnDisk(files, log) && AllGenuine(compression, crc8, hash, keys, log) && Distinct(hash, keys) && key in keys
    requires 16 <= |slack| && ps == WritesOf(hash, log, key)
    requires forall i :: 0 <= i < |ps| ==> log[ps[i]].at.offset < 0x1_0000_0000
    ensures forall q: nat ::
              GivesAt(EntryFor(compression, crc8, files, slack, key), BucketOf(hash, log, hash(key)), log, ps,
                                     Reached(compression, crc8, hash, files, log, ps), q)
  {
    forall q: nat
      ensures GivesAt(EntryFor(compression, crc8, files, slack, key), BucketOf(hash, log, hash(key)), log, ps,
                      Reached(compression, crc8, hash, files, log, ps), q)
    {
      if q < |ps| {
        BucketGives(compression, crc8, hash, keys, log, files, slack, key, q);
      }
    }
  }

  // ----- Whole runs -----

  function Flatten(batches: seq<seq<Write>>): seq<Write>
    decreases |batches|
  {
    if batches == [] then [] else Flatten(batches[..|batches| - 1]) + batches[|batches| - 1]
  }

  ghost function Writes(log: seq<Logged>): (r: seq<Write>)
    ensures |r| == |log| && forall i :: 0 <= i < |log| ==> r[i] == log[i].w
  {
    seq(|log|, i requires 0 <= i < |log| => log[i].w)
  }

  /** The bytes logged for every write are its entry. */
  ghost predicate Encoded(encode: Write -> seq<byte>, log: seq<Logged>)
  {
    forall i :: 0 <= i < |log| ==> log[i].bytes == encode(log[i].w)
  }

  /** Some writes are all that is in the log, and the index follows it. */
  ghost predicate Holds(encode: Write -> seq<byte>, hash: Key -> nat, log: seq<Logged>, index: Index<Location>,
                        ws: seq<Write>)
  {
    Writes(log) == ws && Encoded(encode, log) && Follows(hash, log, index)
  }

  lemma HoldsMore(encode: Write -> seq<byte>, hash: Key -> nat, log: seq<Logged>, index0: Index<Location>,
                  ws: seq<Write>, ats: seq<Location>, batch: seq<Write>, index: Index<Location>)
    requires Holds(encode, hash, log, index0, ws) && |ats| == |batch|
    requires Follows(hash, log + Entered(encode, ats, batch), index)
    ensures Holds(encode, hash, log + Entered(encode, ats, batch), index, ws + batch)
  {
    assert Writes(log + Entered(encode, ats, batch)) == ws + batch;
  }

  /** One batch is written and indexed. */
  method WriteBatch(m: Manager, batch: seq<Write>, index0: Index<Location>,
                    ghost ws: seq<Write>) returns (index: Index<Location>)
    requires m.Arrays() && m.Valid() && m.Filed() && m.Flushed() && Holds(m.encode, m.hash, m.log, index0, ws)
    modifies m
    ensures m.Valid() && m.Filed() && m.Flushed() && Holds(m.encode, m.hash, m.log, index, ws + batch)
  {
    ghost var log := m.log;
    var locations, ats := m.WriteOrders(batch);
    index := IndexBatch(m.hash, index0, locations, batch, ats, m.encode, log);
    HoldsMore(m.encode, m.hash, log, index0, ws, ats, batch, index);
  }

  /** Batch after batch is written and indexed. */
  method WriteBatches(m: Manager, batches: seq<seq<Write>>) returns (index: Index<Location>)
    requires m.Arrays() && m.Valid() && m.Filed() && m.Flushed() && m.log == []
    modifies m
    ensures m.Valid() && m.Filed() && m.Flushed() && OnDisk(m.files, m.log)
    ensures Holds(m.encode, m.hash, m.log, index, Flatten(batches))
  {
    index := map[];
    var i := 0;
    while i < |batches|
      invariant 0 <= i <= |batches| && m.Valid() && m.Filed() && m.Flushed()
      invariant Holds(m.encode, m.hash, m.log, index, Flatten(batches[..i]))
    {
      index := WriteBatch(m, batches[i], index, Flatten(batches[..i]));
      assert batches[..i + 1][..i] == batches[..i];
      i := i + 1;
    }
    assert batches[..|batches|] == batches;
    m.FlushedIsOnDisk();
  }

  lemma BatchesGenuine(compression: bool, crc8: seq<byte> -> byte, hash: Key -> nat, keys: set<Key>,
                       encode: Write -> seq<byte>, log: seq<Logged>, ws: seq<Write>)
    requires Writes(log) == ws && Encoded(encode, log)
    requires forall w :: encode(w) == EntryBytes(compression, crc8, hash, w)
    requires forall w :: w in ws ==> SelfContained(compression, hash, w) && w.key != [] && w.key in keys
    ensures AllGenuine(compression, crc8, hash, keys, log)
  {
    forall i: nat
      ensures GenuineAt(compression, crc8, hash, keys, log, i)
    {
      if i < |log| {
        assert Writes(log)[i] in ws;
      }
    }
  }

  ghost function OrdersFor(ws: seq<Write>): (r: seq<Order>)
    ensures |r| == |ws| && forall i :: 0 <= i < |ws| ==> r[i] == ToOrder(ws[i])
  {
    seq(|ws|, i requires 0 <= i < |ws| => ToOrder(ws[i]))
  }

  /**
   * The log refines a map, for every sequence of batches: what WriteBatches leaves on disk and in the
   * index gives each key the last order for it in all the batches, across flushes and files, up to the
   * sizes that an int and a location can hold.
   */
  lemma BatchesRefineMap(compression: bool, crc8: seq<byte> -> byte, hash: Key -> nat, keys: set<Key>,
                         encode: Write -> seq<byte>, log: seq<Logged>, batches: seq<seq<Write>>,
                         files: map<nat, seq<byte>>, index: Index<Location>, key: Key, slack: seq<byte>)
    requires OnDisk(files, log) && Holds(encode, hash, log, index, Flatten(batches))
    requires forall w :: encode(w) == EntryBytes(compression, crc8, hash, w)
    requires forall w :: w in Flatten(batches) ==> SelfContained(compression, hash, w) && w.key != [] && w.key in keys
    requires Distinct(hash, keys) && key in keys && 16 <= |slack|
    ensures match LastOrder(OrdersFor(Flatten(batches)), key)
            case None => Bucket(index, hash(key)) == []
            case Some(p) =>
              && log[p].w == Flatten(batches)[p]
              && EndsWith(compression, crc8, hash, files, Bucket(index, hash(key)), slack, log[p])
  {
    BatchesGenuine(compression, crc8, hash, keys, encode, log, Flatten(batches));
    assert OrdersOf(log) == OrdersFor(Flatten(batches));
    LogRefinesMap(compression, crc8, hash, keys, log, files, index, key, slack);
  }

  // ----- The header that a last part writes again -----

  /** The header that the first of several parts reserves; the first part of a large entry has a file of its own. */
  function FirstPartHeader(hash: Key -> nat, key: Key, sizeValue: nat, sizeCompressed: nat, checksum: nat,
                           large: bool): EntryHeader
  {
    if large then EntryHeader(0, ENTRY_FULL, |key|, sizeValue, sizeCompressed, 0, hash(key))
    else
      EntryHeader(checksum, ENTRY_FULL + IS_UNCOMPACTED + HAS_PADDING, |key|, sizeValue, sizeCompressed,
                  Padding(sizeValue), hash(key))
  }

  /** The header that the last part writes in its place. */
  function LastPartHeader(hash: Key -> nat, key: Key, sizeValue: nat, sizeCompressed: nat, checksum: nat,
                          large: bool): EntryHeader
  {
    EntryHeader(checksum, if !large && sizeCompressed > 0 then ENTRY_FULL + IS_UNCOMPACTED + HAS_PADDING
                else ENTRY_FULL,
                |key|, sizeValue, sizeCompressed, if large then 0 else Padding(sizeValue), hash(key))
  }

  /**
   * Whatever compressed sizes and checksums the two record, the headers have the same size: the entry is
   * never corrupted.
   */
  lemma LastPartHeaderFits(compression: bool, crc8: seq<byte> -> byte, hash: Key -> nat, key: Key, sizeValue: nat,
                           large: bool, compressed1: nat, checksum1: nat, compressed2: nat, checksum2: nat)
    ensures |EncodeHeader(compression, crc8, FirstPartHeader(hash, key, sizeValue, compressed1, checksum1, large))|
         == |EncodeHeader(compression, crc8, LastPartHeader(hash, key, sizeValue, compressed2, checksum2, large))|
  {
    RewrittenHeaderFits(compression, crc8, FirstPartHeader(hash, key, sizeValue, compressed1, checksum1, large),
                        LastPartHeader(hash, key, sizeValue, compressed2, checksum2, large));
  }
}
