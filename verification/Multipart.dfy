/**
 * Values in several parts, from the orders that PutPart hands out to the file, the index and back. The
 * storage engine takes an order for the last of its value by Order::IsLastPart, which goes by sizes, and
 * it enters a value in the index only with an order that it takes for the last.
 */
module Multipart {
  import opened Bytes
  import opened Words
  import opened Coding
  import opened Orders
  import opened Stream
  import opened StreamWriter
  import opened Format
  import opened HSTable
  import opened HSTableManager

  // ----- An entry in a file -----

  /** The header that an order gets which is the first of its value, or all of it. */
  function FirstHeader(hash: Key -> nat, key: Key, p: Part): EntryHeader
  {
    if IsSelfContained(p) then HeaderOf(hash, Write(false, key, p.chunk, p.sizeValue, p.sizeCompressed, p.checksum))
    else FirstPartHeader(hash, key, p.sizeValue, p.sizeCompressed, p.checksum, false)
  }

  /** The header that an order writes which is taken for the last of its value. */
  function LastHeader(hash: Key -> nat, key: Key, p: Part): EntryHeader
  {
    if p.offset == 0 then FirstHeader(hash, key, p)
    else LastPartHeader(hash, key, p.sizeValue, p.sizeCompressed, p.checksum, false)
  }

  /** At an offset of a file stand a header, a key and some content, in the space that the header calls for. */
  ghost predicate Stands(file: seq<byte>, at: nat, head: seq<byte>, key: seq<byte>, content: seq<byte>, room: nat)
  {
    var q := at + |head| + |key|;
    && |content| <= room && q + room <= |file|
    && file[at..at + |head|] == head && file[at + |head|..q] == key && file[q..q + |content|] == content
  }

  lemma StandsMore(file: seq<byte>, more: seq<byte>, at: nat, head: seq<byte>, key: seq<byte>, content: seq<byte>,
                   room: nat)
    requires Stands(file, at, head, key, content, room)
    ensures Stands(file + more, at, head, key, content, room)
  {
    var q := at + |head| + |key|;
    PrefixSlice(file, file + more, at, at + |head|);
    PrefixSlice(file, file + more, at + |head|, q);
    PrefixSlice(file, file + more, q, q + |content|);
  }

  lemma OverwriteAfter(s: seq<byte>, start: nat, bytes: seq<byte>, lo: nat, hi: nat)
    requires start + |bytes| <= |s| && lo <= hi <= |s|
    ensures hi <= start || start + |bytes| <= lo ==> Overwrite(s, start, bytes)[lo..hi] == s[lo..hi]
    ensures Overwrite(s, start, bytes)[start..start + |bytes|] == bytes
  {
    var r := Overwrite(s, start, bytes);
    if hi <= start || start + |bytes| <= lo {
      assert forall i :: lo <= i < hi ==> r[i] == s[i];
    }
  }

  /** A chunk goes behind the content. */
  lemma StandsNext(file: seq<byte>, at: nat, head: seq<byte>, key: seq<byte>, content: seq<byte>, room: nat,
                   chunk: seq<byte>, start: nat)
    requires Stands(file, at, head, key, content, room) && |content| + |chunk| <= room
    requires start == at + |head| + |key| + |content|
    ensures Stands(Overwrite(file, start, chunk), at, head, key, content + chunk, room)
  {
    var q := at + |head| + |key|;
    OverwriteAfter(file, start, chunk, at, at + |head|);
    OverwriteAfter(file, start, chunk, at + |head|, q);
    OverwriteAfter(file, start, chunk, q, start);
    var r := Overwrite(file, start, chunk);
    assert r[q..start + |chunk|] == r[q..start] + r[start..start + |chunk|];
  }

  /** The header is replaced by one of the same size. */
  lemma StandsAnew(file: seq<byte>, at: nat, head: seq<byte>, key: seq<byte>, content: seq<byte>, room: nat,
                   head': seq<byte>)
    requires Stands(file, at, head, key, content, room) && |head'| == |head|
    ensures Stands(Overwrite(file, at, head'), at, head', key, content, room)
  {
    var q := at + |head| + |key|;
    OverwriteAfter(file, at, head', at + |head|, q);
    OverwriteAfter(file, at, head', q, q + |content|);
  }

  /** A new entry at the end of a file. */
  lemma StandsNew(file: seq<byte>, head: seq<byte>, key: seq<byte>, content: seq<byte>, zeros: seq<byte>)
    ensures Stands(file + (head + key + content + zeros), |file|, head, key, content, |content| + |zeros|)
  {
    var all := file + (head + key + content + zeros);
    var at := |file|;
    assert all[at..at + |head|] == head;
    assert all[at + |head|..at + |head| + |key|] == key;
    assert all[at + |head| + |key|..at + |head| + |key| + |content|] == content;
  }

  // ----- Orders on their way to the file and the index -----

  /** What has become of a value: nothing yet, an entry that is not in the index, or one that is. */
  datatype Progress = Absent | Opened(at: nat, header: EntryHeader, content: seq<byte>)
                    | Entered(at: nat, header: EntryHeader, content: seq<byte>)

  /** What one order makes of it, with the file ending at some position. */
  function Next(hash: Key -> nat, key: Key, pr: Progress, p: Part, end: nat): Progress
  {
    if p.offset == 0 then
      if IsLastPart(p) then Entered(end, FirstHeader(hash, key, p), p.chunk)
      else Opened(end, FirstHeader(hash, key, p), p.chunk)
    else if pr.Opened? then
      if IsLastPart(p) then Entered(pr.at, LastHeader(hash, key, p), pr.content + p.chunk)
      else Opened(pr.at, pr.header, pr.content + p.chunk)
    else pr
  }

  /** An order has room: it goes right after what is there, in the space that its value reserves. */
  predicate HasRoom(key: Key, pr: Progress, p: Part)
  {
    && |p.chunk| <= Reserved(p.sizeValue)
    && (p.offset > 0 && pr.Opened? ==>
          && p.offset == |pr.content| && |pr.content| + |p.chunk| <= Reserved(p.sizeValue)
          && pr.header.sizeValue == p.sizeValue)
  }

  /**
   * WriteOrdersAndFlushFile, for the orders of one key from one thread. Other entries may be appended to the
   * file in between.
   */
  class EntryWriter {
    const compression: bool
    const crc8: seq<byte> -> byte
    const hash: Key -> nat
    const key: Key

    var file: seq<byte>
    /** What key_to_location, if it has it, and key_to_headersize say of the key. */
    var location: Option<nat>
    var headerSize: nat
    /** The offsets that went to the index for the key, and those that were there before. */
    var index: seq<nat>
    ghost const earlier: seq<nat>

    /** What earlier values of the key left is arbitrary. */
    constructor (compression: bool, crc8: seq<byte> -> byte, hash: Key -> nat, key: Key, file: seq<byte>,
                 location: Option<nat>, headerSize: nat, index: seq<nat>)
      ensures this.compression == compression && this.crc8 == crc8 && this.hash == hash && this.key == key
      ensures this.file == file && this.index == earlier == index && Is(Absent)
    {
      this.compression, this.crc8, this.hash, this.key := compression, crc8, hash, key;
      this.file, this.location, this.headerSize, this.index := file, location, headerSize, index;
      earlier := index;
    }

    ghost predicate EntryAt(at: nat, h: EntryHeader, content: seq<byte>)
      reads this
    {
      Stands(file, at, EncodeHeader(compression, crc8, h), key, content, h.SizeValueOffset())
    }

    ghost predicate Is(pr: Progress)
      reads this
    {
      match pr
      case Absent => index == earlier
      case Opened(at, h, content) =>
        && location == Some(at) && index == earlier && EntryAt(at, h, content)
        && headerSize == |EncodeHeader(compression, crc8, h)|
        && h == FirstPartHeader(hash, key, h.sizeValue, h.sizeCompressed, h.checksumContent, false)
        && h.sizeCompressed == 0
      case Entered(at, h, content) => location == None && index == earlier + [at] && EntryAt(at, h, content)
    }

    /** Entries of other keys are appended. */
    method AppendOthers(others: seq<byte>, ghost pr: Progress)
      requires Is(pr)
      modifies this`file
      ensures file == old(file) + others && Is(pr)
    {
      if pr.Opened? || pr.Entered? {
        StandsMore(file, others, pr.at, EncodeHeader(compression, crc8, pr.header), key, pr.content,
                   pr.header.SizeValueOffset());
      }
      file := file + others;
    }

    /** WriteFirstPartOrSmallOrder, which reserves the space of a value that has more parts. */
    method WriteFirst(p: Part) returns (at: nat)
      requires p.offset == 0 && |p.chunk| <= Reserved(p.sizeValue) && (p.sizeCompressed > 0 ==> IsLastPart(p))
      requires |file| < 0x1_0000_0000
      modifies this`file, this`headerSize
      ensures at == |old(file)| && EntryAt(at, FirstHeader(hash, key, p), p.chunk)
      ensures !IsLastPart(p) ==> headerSize == |EncodeHeader(compression, crc8, FirstHeader(hash, key, p))|
    {
      at := |file|;
      var h := FirstHeader(hash, key, p);
      var head := EncodeHeader(compression, crc8, h);
      var zeros := if IsSelfContained(p) then [] else seq(h.SizeValueOffset() - |p.chunk|, _ => 0);
      StandsNew(file, head, key, p.chunk, zeros);
      file := file + (head + key + p.chunk + zeros);
      if !IsSelfContained(p) {
        headerSize := |head|;
      }
    }

    /** The part of WriteMiddleOrLastPart that writes the chunk. */
    method WriteChunk(at: nat, p: Part, ghost h: EntryHeader, ghost content: seq<byte>)
      requires Is(Opened(at, h, content)) && p.offset > 0 && HasRoom(key, Opened(at, h, content), p)
      modifies this`file
      ensures EntryAt(at, h, content + p.chunk)
    {
      var start := at + headerSize + |key| + p.offset;
      StandsNext(file, at, EncodeHeader(compression, crc8, h), key, content, h.SizeValueOffset(), p.chunk, start);
      file := Overwrite(file, start, p.chunk);
    }

    /** WriteMiddleOrLastPart, which writes the header again with an order that is taken for the last. */
    method WriteLater(at: nat, p: Part, ghost h: EntryHeader, ghost content: seq<byte>)
      requires Is(Opened(at, h, content)) && p.offset > 0 && HasRoom(key, Opened(at, h, content), p)
      modifies this`file
      ensures if IsLastPart(p) then EntryAt(at, LastHeader(hash, key, p), content + p.chunk)
              else EntryAt(at, h, content + p.chunk)
    {
      WriteChunk(at, p, h, content);
      if IsLastPart(p) {
        WriteHeader(at, p, h, content + p.chunk);
      }
    }

    /** The part of it that writes the header again. */
    method WriteHeader(at: nat, p: Part, ghost h: EntryHeader, ghost content: seq<byte>)
      requires EntryAt(at, h, content) && p.offset > 0 && h.sizeValue == p.sizeValue
      requires h == FirstPartHeader(hash, key, h.sizeValue, h.sizeCompressed, h.checksumContent, false)
      requires h.sizeCompressed == 0
      modifies this`file
      ensures EntryAt(at, LastHeader(hash, key, p), content)
    {
      var anew := EncodeHeader(compression, crc8, LastHeader(hash, key, p));
      LastPartHeaderFits(compression, crc8, hash, key, p.sizeValue, false, h.sizeCompressed, h.checksumContent,
                         p.sizeCompressed, p.checksum);
      StandsAnew(file, at, EncodeHeader(compression, crc8, h), key, content, h.SizeValueOffset(), anew);
      file := Overwrite(file, at, anew);
    }

    /** One order. */
    method WriteOrder(p: Part, ghost pr: Progress)
      requires Is(pr) && HasRoom(key, pr, p) && (p.sizeCompressed > 0 && p.offset == 0 ==> IsLastPart(p))
      requires (p.offset == 0 <==> pr == Absent) && (p.offset == 0 ==> |file| < 0x1_0000_0000)
      modifies this`file, this`location, this`headerSize, this`index
      ensures Is(Next(hash, key, pr, p, |old(file)|))
    {
      var at: Option<nat> := location;
      if p.offset == 0 {
        var start := WriteFirst(p);
        at := Some(start);
      } else if location.Some? {
        WriteLater(location.value, p, pr.header, pr.content);
      }
      if IsLastPart(p) {
        if at.Some? {
          index := index + [at.value];
        }
        location := None;
      } else if p.offset == 0 {
        location := at;
      }
    }
  }

  // ----- What becomes of the orders of a value -----

  /** The first order that is taken for the last of its value. */
  function Counted(parts: seq<Part>): (r: Option<nat>)
    ensures IsFirst(r, parts)
    decreases |parts|
  {
    if parts == [] then None
    else
      var before := Counted(parts[..|parts| - 1]);
      if before.Some? then before
      else if IsLastPart(parts[|parts| - 1]) then Some(|parts| - 1)
      else None
  }

  /** What some orders make of their value, the first of which finds the file ending at some position. */
  function Became(hash: Key -> nat, key: Key, parts: seq<Part>, at: nat): Progress
    decreases |parts|
  {
    if parts == [] then Absent
    else Next(hash, key, Became(hash, key, parts[..|parts| - 1], at), parts[|parts| - 1], at)
  }

  ghost predicate OneAfterAnother(size: nat, parts: seq<Part>)
  {
    (size > 0 || |parts| == 1) && forall i :: 0 <= i < |parts| ==> LaidAt(size, parts, i)
  }

  lemma FirstAtZero(size: nat, parts: seq<Part>, i: nat)
    requires OneAfterAnother(size, parts) && i < |parts|
    ensures parts[i].offset == 0 <==> i == 0
  {
    assert LaidAt(size, parts, i) && parts[..0] == [];
    if i > 0 {
      assert LaidAt(size, parts, i - 1);
    }
  }

  /**
   * The entry is in the index from the first order on that is taken for the last, with what was laid down
   * until then.
   */
  ghost function Made(hash: Key -> nat, key: Key, parts: seq<Part>, i: nat, at: nat): Progress
    requires 0 < i <= |parts|
  {
    match Counted(parts[..i])
    case None => Opened(at, FirstHeader(hash, key, parts[0]), Laid(parts[..i]))
    case Some(e) => Entered(at, LastHeader(hash, key, parts[e]), Laid(parts[..e + 1]))
  }

  lemma {:induction false} OrdersBecome(hash: Key -> nat, key: Key, size: nat, parts: seq<Part>, i: nat, at: nat)
    requires OneAfterAnother(size, parts) && 0 < i <= |parts|
    ensures Became(hash, key, parts[..i], at) == Made(hash, key, parts, i, at)
    decreases i
  {
    var p := parts[i - 1];
    assert parts[..i][..i - 1] == parts[..i - 1] && parts[..0] == [];
    FirstAtZero(size, parts, i - 1);
    assert LaidAt(size, parts, i - 1);
    if i > 1 {
      OrdersBecome(hash, key, size, parts, i - 1, at);
    }
  }

  // ----- Reading an entry that is in the index -----

  /** The key and the used content of an entry, found after its header; the entry may have more space. */
  lemma GetEntryRoom(decode: HeaderDecoder, h: EntryHeader, q: nat, key: seq<byte>, content: seq<byte>, data: seq<byte>,
                     offset: nat, filesize: nat)
    requires decode(offset) == Some((h, q)) && q + |key| + h.SizeValueOffset() <= filesize <= |data|
    requires 0 < h.sizeKey == |key| && h.SizeValueUsed() == |content| <= h.SizeValueOffset() && h.IsEntryFull()
    requires data[q..q + |key|] == key && data[q + |key|..q + |key| + |content|] == content
    ensures GetEntry(decode, data, offset, filesize)
         == Some(Write(h.IsDelete(), key, content, h.sizeValue, h.sizeCompressed, h.checksumContent))
  {}

  /** What may be said of an order that is taken for the last, and of its header. */
  ghost predicate Fitting(compression: bool, hash: Key -> nat, key: Key, p: Part)
  {
    && key != [] && |key| < TWO64 && hash(key) < TWO64 && Reserved(p.sizeValue) < TWO64 && p.sizeCompressed < TWO64
    && (!compression ==> p.sizeCompressed == 0) && p.offset + |p.chunk| <= Reserved(p.sizeValue) && IsLastPart(p)
  }

  lemma LastHeaderIs(compression: bool, hash: Key -> nat, key: Key, p: Part)
    requires Fitting(compression, hash, key, p)
    ensures var h := LastHeader(hash, key, p);
            && h.Fits() && h.sizeKey == |key| && h.sizeValue == p.sizeValue && h.checksumContent == p.checksum
            && var r := Format.Stored(compression, h);
            && r.IsEntryFull() && !r.IsDelete() && r.sizeCompressed == p.sizeCompressed && r.sizeValue == p.sizeValue
            && r.sizeKey == |key| && r.checksumContent == p.checksum
            && r.SizeValueUsed() == p.offset + |p.chunk| <= r.SizeValueOffset() <= h.SizeValueOffset()
  {}

  /** The header of an entry fits the int that holds the size of the rest of its file. */
  predicate InReachOf(compression: bool, crc8: seq<byte> -> byte, h: EntryHeader, at: nat, filesize: nat)
    requires at <= filesize
  {
    |EncodeHeader(compression, crc8, h)| <= Int32(filesize - at)
  }

  /** An entry whose header is given as bytes. */
  lemma EntryInRoom(compression: bool, crc8: seq<byte> -> byte, verify: bool, h: EntryHeader, head: seq<byte>,
                    key: seq<byte>, content: seq<byte>, room: nat, data: seq<byte>, at: nat, filesize: nat)
    requires HeaderReadsBack(compression, crc8, h, head) && head != [] && Stands(data, at, head, key, content, room)
    requires at + |head| + |key| + room <= filesize && filesize + 16 <= |data|
    requires 0 < h.sizeKey == |key| && h.SizeValueUsed() == |content| <= h.SizeValueOffset() <= room && h.IsEntryFull()
    ensures GetEntry(DecoderOf(compression, crc8, verify, data, filesize), data, at, filesize)
         == if |head| <= Int32(filesize - at)
            then Some(Write(h.IsDelete(), key, content, h.sizeValue, h.sizeCompressed, h.checksumContent)) else None
  {
    HeaderDecodes(compression, crc8, verify, h, head, data, at, filesize);
    EntryDecoded(DecoderOf(compression, crc8, verify, data, filesize), h, head, key, content, room, data, at, filesize);
  }

  lemma EntryDecoded(decode: HeaderDecoder, h: EntryHeader, head: seq<byte>, key: seq<byte>, content: seq<byte>,
                     room: nat, data: seq<byte>, at: nat, filesize: nat)
    requires Stands(data, at, head, key, content, room) && at + |head| + |key| + room <= filesize <= |data|
    requires decode(at) == if |head| <= Int32(filesize - at) then Some((h, (at + |head|) as nat)) else None
    requires 0 < h.sizeKey == |key| && h.SizeValueUsed() == |content| <= h.SizeValueOffset() <= room && h.IsEntryFull()
    ensures GetEntry(decode, data, at, filesize)
         == if |head| <= Int32(filesize - at)
            then Some(Write(h.IsDelete(), key, content, h.sizeValue, h.sizeCompressed, h.checksumContent)) else None
  {
    if |head| <= Int32(filesize - at) {
      GetEntryRoom(decode, h, at + |head|, key, content, data, at, filesize);
    }
  }

  /**
   * An entry that is in the index is read with what was laid down of it, or refused where its header is out
   * of reach.
   */
  lemma EnteredReads(compression: bool, crc8: seq<byte> -> byte, hash: Key -> nat, key: Key, verify: bool,
                     file: seq<byte>, slack: seq<byte>, at: nat, p: Part, content: seq<byte>)
    requires Fitting(compression, hash, key, p) && |content| == p.offset + |p.chunk| && 16 <= |slack|
    requires var h := LastHeader(hash, key, p);
             Stands(file, at, EncodeHeader(compression, crc8, h), key, content, h.SizeValueOffset())
    ensures GetEntry(DecoderOf(compression, crc8, verify, file + slack, |file|), file + slack, at, |file|)
         == if InReachOf(compression, crc8, LastHeader(hash, key, p), at, |file|)
            then Some(Write(false, key, content, p.sizeValue, p.sizeCompressed, p.checksum)) else None
  {
    LastHeaderIs(compression, hash, key, p);
    HeaderRoundTrip(compression, crc8, LastHeader(hash, key, p));
    EnteredFrom(compression, crc8, verify, LastHeader(hash, key, p),
                Format.Stored(compression, LastHeader(hash, key, p)),
                EncodeHeader(compression, crc8, LastHeader(hash, key, p)), key, content, file, slack, at);
  }

  lemma EnteredFrom(compression: bool, crc8: seq<byte> -> byte, verify: bool, h: EntryHeader, r: EntryHeader,
                    head: seq<byte>, key: seq<byte>, content: seq<byte>, file: seq<byte>, slack: seq<byte>, at: nat)
    requires HeaderReadsBack(compression, crc8, r, head) && head != [] && 16 <= |slack|
    requires Stands(file, at, head, key, content, h.SizeValueOffset())
    requires 0 < r.sizeKey == |key| && r.SizeValueUsed() == |content| <= r.SizeValueOffset() <= h.SizeValueOffset()
    requires r.IsEntryFull()
    ensures GetEntry(DecoderOf(compression, crc8, verify, file + slack, |file|), file + slack, at, |file|)
         == if |head| <= Int32(|file| - at)
            then Some(Write(r.IsDelete(), key, content, r.sizeValue, r.sizeCompressed, r.checksumContent)) else None
  {
    EnteredIn(compression, crc8, verify, h.SizeValueOffset(), r, head, key, content, file, slack, at);
  }

  lemma EnteredIn(compression: bool, crc8: seq<byte> -> byte, verify: bool, room: nat, r: EntryHeader, head: seq<byte>,
                  key: seq<byte>, content: seq<byte>, file: seq<byte>, slack: seq<byte>, at: nat)
    requires HeaderReadsBack(compression, crc8, r, head) && head != [] && 16 <= |slack|
    requires Stands(file, at, head, key, content, room)
    requires 0 < r.sizeKey == |key| && r.SizeValueUsed() == |content| <= r.SizeValueOffset() <= room && r.IsEntryFull()
    ensures GetEntry(DecoderOf(compression, crc8, verify, file + slack, |file|), file + slack, at, |file|)
         == if |head| <= Int32(|file| - at)
            then Some(Write(r.IsDelete(), key, content, r.sizeValue, r.sizeCompressed, r.checksumContent)) else None
  {
    StandsMore(file, slack, at, head, key, content, room);
    EntryInRoom(compression, crc8, verify, r, head, key, content, room, file + slack, at, |file|);
  }

  /** An order that is taken for the last records what is stored, as the reader takes it. */
  ghost predicate Tells(sum: Sum, key: Key, p: Part, st: Stored)
  {
    && st.WellFormed()
    && (if st.mode.Plain? then p.sizeCompressed == 0 && p.sizeValue == |st.tail|
        else p.sizeCompressed == |st.Bytes()| > 0)
    && (st.mode.Framed? ==> p.checksum == Streamed(sum, sum(0, key), st.frames))
  }

  /** MultipartReader over an entry that was read. */
  method ReadValue(sum: Sum, w: Write, verify: bool, ghost p: Part, ghost st: Stored)
    returns (value: seq<byte>, status: Status)
    requires Tells(sum, w.key, p, st) && st.Bytes() == w.chunk
    requires w.sizeValue == p.sizeValue && w.sizeCompressed == p.sizeCompressed && w.checksum == p.checksum
    ensures value == st.Value() && status == OK
  {
    var reader := new Reader(w.chunk, w.sizeValue, w.sizeCompressed, w.checksum, sum(0, w.key), verify, sum);
    value := reader.ReadAll(st);
    status := reader.status;
  }

  // ----- Whole values -----

  /** What a lookup finds of a value: nothing in the index, an entry that is refused, or bytes with a status. */
  datatype Outcome = NeverIndexed | Refused | Read(value: seq<byte>, status: Status)

  /** A part before the last happens to end where the value would, as it is. */
  predicate EndsEarly(parts: seq<Part>, size: nat, e: nat)
  {
    e + 1 < |parts| && parts[e].offset + |parts[e].chunk| == size
  }

  /** In every run: which order is the first to be taken for the last of its value. */
  lemma RunCounted(sum: Sum, compression: bool, key: seq<byte>, size: nat, writers: seq<Writer>, pieces: seq<seq<byte>>,
                   frames: seq<seq<byte>>, parts: seq<Part>)
    requires Composes(sum) && IsRun(sum, compression, key, size, writers, pieces, frames, parts)
    requires MakeUp(pieces, size) && pieces != []
    ensures OneAfterAnother(size, parts)
    ensures forall e: nat :: EndsEarly(parts, size, e) ==> Counted(parts) == Some(e)
    ensures (forall e: nat :: !EndsEarly(parts, size, e)) ==>
              Counted(parts) == if compression && SwitchesLate(writers, frames, size, |parts| - 1) then None
              else Some(|parts| - 1)
  {
    var late := compression && SwitchesLate(writers, frames, size, |parts| - 1);
    RunLaysAll(sum, compression, key, size, writers, pieces, frames, parts);
    RunCountsAll(sum, compression, key, size, writers, pieces, frames, parts, late);
    CountedFrom(Counted(parts), size, parts, late);
  }

  lemma RunLaysAll(sum: Sum, compression: bool, key: seq<byte>, size: nat, writers: seq<Writer>, pieces: seq<seq<byte>>,
                   frames: seq<seq<byte>>, parts: seq<Part>)
    requires Composes(sum) && IsRun(sum, compression, key, size, writers, pieces, frames, parts) && MakeUp(pieces, size)
    ensures OneAfterAnother(size, parts)
  {
    forall i | 0 <= i < |parts|
      ensures LaidAt(size, parts, i)
    {
      RunLays(sum, compression, key, size, writers, pieces, frames, parts, i);
    }
  }

  lemma RunCountsAll(sum: Sum, compression: bool, key: seq<byte>, size: nat, writers: seq<Writer>,
                     pieces: seq<seq<byte>>, frames: seq<seq<byte>>, parts: seq<Part>, late: bool)
    requires Composes(sum) && IsRun(sum, compression, key, size, writers, pieces, frames, parts) && MakeUp(pieces, size)
    requires pieces != [] && late == (compression && SwitchesLate(writers, frames, size, |parts| - 1))
    ensures forall i: nat :: CountsAt(size, parts, late, i)
  {
    forall i: nat
      ensures CountsAt(size, parts, late, i)
    {
      if i < |parts| {
        RunCounts(sum, compression, key, size, writers, pieces, frames, parts, i);
      }
    }
  }

  ghost predicate CountsAt(size: nat, parts: seq<Part>, late: bool, i: nat)
  {
    i < |parts| ==> (IsLastPart(parts[i]) <==> if i + 1 < |parts| then EndsEarly(parts, size, i) else !late)
  }

  /** An order is the first to be taken for the last, or none is. */
  ghost predicate IsFirst(first: Option<nat>, parts: seq<Part>)
  {
    if first.None? then forall i :: 0 <= i < |parts| ==> !IsLastPart(parts[i])
    else first.value < |parts| && IsLastPart(parts[first.value]) && forall i :: 0 <= i < first.value ==>
      !IsLastPart(parts[i])
  }

  lemma CountedFrom(first: Option<nat>, size: nat, parts: seq<Part>, late: bool)
    requires parts != [] && OneAfterAnother(size, parts) && forall i: nat :: CountsAt(size, parts, late, i)
    requires IsFirst(first, parts)
    ensures forall e: nat :: EndsEarly(parts, size, e) ==> first == Some(e)
    ensures (forall e: nat :: !EndsEarly(parts, size, e)) ==> first == if late then None else Some(|parts| - 1)
  {
    assert CountsAt(size, parts, late, |parts| - 1);
    if first.Some? {
      assert CountsAt(size, parts, late, first.value);
    }
    forall e: nat | EndsEarly(parts, size, e)
      ensures first == Some(e)
    {
      assert CountsAt(size, parts, late, e);
      if first.value < e {
        EndsGrow(size, parts, first.value, e);
      }
    }
  }

  /** There is room for each order in turn. */
  lemma RoomFor(hash: Key -> nat, key: Key, size: nat, parts: seq<Part>, i: nat, at: nat)
    requires OneAfterAnother(size, parts) && i < |parts|
    ensures HasRoom(key, Became(hash, key, parts[..i], at), parts[i])
    ensures parts[i].offset == 0 <==> Became(hash, key, parts[..i], at) == Absent
  {
    assert LaidAt(size, parts, i);
    FirstAtZero(size, parts, i);
    if i > 0 {
      OrdersBecome(hash, key, size, parts, i, at);
      assert LaidAt(size, parts, 0);
    } else {
      assert parts[..0] == [];
    }
  }

  /** One order of a value is written, after entries of other keys. */
  method WriteNth(writer: EntryWriter, parts: seq<Part>, i: nat, others: seq<byte>, ghost size: nat, ghost at: nat)
    requires OneAfterAnother(size, parts) && i < |parts| && (parts[0].sizeCompressed > 0 ==> IsLastPart(parts[0]))
    requires writer.Is(Became(writer.hash, writer.key, parts[..i], at))
    requires i == 0 ==> |writer.file| + |others| == at < 0x1_0000_0000
    modifies writer
    ensures writer.Is(Became(writer.hash, writer.key, parts[..i + 1], at))
  {
    ghost var pr := Became(writer.hash, writer.key, parts[..i], at);
    RoomFor(writer.hash, writer.key, size, parts, i, at);
    FirstAtZero(size, parts, i);
    BecomesNext(writer.hash, writer.key, parts, i, at, |writer.file| + |others|);
    writer.AppendOthers(others, pr);
    writer.WriteOrder(parts[i], pr);
  }

  lemma BecomesNext(hash: Key -> nat, key: Key, parts: seq<Part>, i: nat, at: nat, end: nat)
    requires i < |parts| && (parts[i].offset == 0 ==> end == at)
    ensures Became(hash, key, parts[..i + 1], at) == Next(hash, key, Became(hash, key, parts[..i], at), parts[i], end)
  {
    assert parts[..i + 1][..i] == parts[..i];
  }

  /** The orders of a value are written, one after another, with other entries in between and after them. */
  method WriteOrders(writer: EntryWriter, parts: seq<Part>, others: nat -> seq<byte>,
                     ghost size: nat) returns (ghost at: nat)
    requires parts != [] && OneAfterAnother(size, parts) && (parts[0].sizeCompressed > 0 ==> IsLastPart(parts[0]))
    requires writer.Is(Absent) && |writer.file| + |others(0)| < 0x1_0000_0000
    modifies writer
    ensures writer.Is(Made(writer.hash, writer.key, parts, |parts|, at)) && at == |old(writer.file)| + |others(0)|
  {
    at := |writer.file| + |others(0)|;
    WriteAll(writer, parts, others, size, at);
    OrdersBecome(writer.hash, writer.key, size, parts, |parts|, at);
    writer.AppendOthers(others(|parts|), Made(writer.hash, writer.key, parts, |parts|, at));
  }

  method WriteAll(writer: EntryWriter, parts: seq<Part>, others: nat -> seq<byte>, ghost size: nat, ghost at: nat)
    requires parts != [] && OneAfterAnother(size, parts) && (parts[0].sizeCompressed > 0 ==> IsLastPart(parts[0]))
    requires writer.Is(Absent) && |writer.file| + |others(0)| == at < 0x1_0000_0000
    modifies writer
    ensures writer.Is(Became(writer.hash, writer.key, parts[..|parts|], at))
  {
    var i := 0;
    assert parts[..0] == [];
    while i < |parts|
      invariant 0 <= i <= |parts| && writer.Is(Became(writer.hash, writer.key, parts[..i], at))
      invariant i == 0 ==> |writer.file| + |others(0)| == at
    {
      WriteNth(writer, parts, i, others(i), size, at);
      i := i + 1;
    }
  }

  /** What a lookup gives of a value that is in the index. */
  function Given(reached: bool, value: seq<byte>): Outcome
  {
    if reached then Read(value, OK) else Refused
  }

  /** A lookup of an entry that is in the index. */
  method LookUp(sum: Sum, compression: bool, crc8: seq<byte> -> byte, hash: Key -> nat, key: Key, verify: bool,
                file: seq<byte>, slack: seq<byte>, at: nat, ghost p: Part, ghost st: Stored, ghost size: nat)
    returns (outcome: Outcome)
    requires Sized(compression, size, p) && Tells(sum, key, p, st) && |st.Bytes()| == p.offset + |p.chunk|
    requires 16 <= |slack|
    requires key != [] && |key| < TWO64 && hash(key) < TWO64 && Reserved(size) < TWO64
    requires var h := LastHeader(hash, key, p);
             Stands(file, at, EncodeHeader(compression, crc8, h), key, st.Bytes(), h.SizeValueOffset())
    ensures outcome == Given(InReachOf(compression, crc8, LastHeader(hash, key, p), at, |file|), st.Value())
  {
    EnteredReads(compression, crc8, hash, key, verify, file, slack, at, p, st.Bytes());
    var entry := GetEntry(DecoderOf(compression, crc8, verify, file + slack, |file|), file + slack, at, |file|);
    if entry.None? {
      return Refused;
    }
    var value, status := ReadValue(sum, entry.value, verify, p, st);
    outcome := Read(value, status);
  }

  /** What the last order of a run tells, if it is taken for that. */
  lemma LastTells(sum: Sum, compression: bool, key: seq<byte>, size: nat, writers: seq<Writer>, pieces: seq<seq<byte>>,
                  frames: seq<seq<byte>>, parts: seq<Part>) returns (st: Stored)
    requires Composes(sum) && IsRun(sum, compression, key, size, writers, pieces, frames, parts)
    requires MakeUp(pieces, size) && pieces != [] && IsLastPart(parts[|parts| - 1])
    ensures Tells(sum, key, parts[|parts| - 1], st) && st.Bytes() == Laid(parts) && st.Value() == Concat(pieces)
    ensures !compression ==> parts[|parts| - 1].sizeCompressed == 0
  {
    var n := |parts| - 1;
    RunLays(sum, compression, key, size, writers, pieces, frames, parts, n);
    var st1, st2 := RunCloses(sum, compression, key, size, writers, pieces, frames, parts);
    ClosesCounts(sum, key, parts[n], st1, st2);
    BytesPositive(st2);
    StreamedIsSum(sum, sum(0, key), st2.frames);
    st := st2;
  }

  /** What an order tells that is taken for the last too early: bytes that are not compressed. */
  lemma EarlyTells(sum: Sum, key: Key, size: nat, parts: seq<Part>, e: nat) returns (st: Stored)
    requires EndsEarly(parts, size, e) && LaidAt(size, parts, e)
    ensures Tells(sum, key, parts[e], st) && st.Bytes() == st.Value() == Laid(parts[..e + 1])
    ensures parts[e].sizeCompressed == 0
  {
    st := Stored([], [], Plain, Laid(parts[..e + 1]));
    assert Concat([]) + st.tail == st.tail;
  }

  /** The sizes of an order that is taken for the last. */
  ghost predicate Sized(compression: bool, size: nat, p: Part)
  {
    && p.sizeValue == size && p.offset + |p.chunk| <= Reserved(size) && IsLastPart(p)
    && (!compression ==> p.sizeCompressed == 0) && p.sizeCompressed <= Reserved(size)
  }

  /** With an order that is taken for the last are stored the value, or else the bytes up to it. */
  ghost predicate ToldAt(sum: Sum, compression: bool, key: Key, size: nat, parts: seq<Part>, e: nat, value: seq<byte>,
                         st: Stored)
  {
    && e < |parts| && Sized(compression, size, parts[e]) && Tells(sum, key, parts[e], st)
    && st.Bytes() == Laid(parts[..e + 1]) && |st.Bytes()| == parts[e].offset + |parts[e].chunk|
    && st.Value() == if e + 1 == |parts| then value else Laid(parts[..e + 1])
  }

  /** What is stored with the order that is taken for the last. */
  lemma RunTells(sum: Sum, compression: bool, key: seq<byte>, size: nat, writers: seq<Writer>, pieces: seq<seq<byte>>,
                 frames: seq<seq<byte>>, parts: seq<Part>, e: nat) returns (st: Stored)
    requires Composes(sum) && IsRun(sum, compression, key, size, writers, pieces, frames, parts)
    requires MakeUp(pieces, size) && e < |parts| && IsLastPart(parts[e])
    ensures ToldAt(sum, compression, key, size, parts, e, Concat(pieces), st)
  {
    RunLays(sum, compression, key, size, writers, pieces, frames, parts, e);
    if e + 1 == |parts| {
      assert parts[..e + 1] == parts;
      st := LastTells(sum, compression, key, size, writers, pieces, frames, parts);
    } else {
      RunCounts(sum, compression, key, size, writers, pieces, frames, parts, e);
      st := EarlyTells(sum, key, size, parts, e);
    }
  }

  lemma {:induction false} AllPiecesMakeUp(parts: seq<seq<byte>>, max: nat, size: nat)
    requires 0 < max
    ensures Concat(AllPieces(parts, max, size)) == Concat(parts)
    decreases |parts|
  {
    if parts != [] {
      var n := |parts| - 1;
      AllPiecesMakeUp(parts[..n], max, size);
      AllPiecesNext(parts, n, max, size);
      assert parts[..n + 1] == parts;
    }
  }

  /** The parts of a value are put, and become orders. */
  method PutAll(sum: Sum, compression: bool, maximumPartSize: nat, key: seq<byte>, parts: seq<seq<byte>>)
    returns (orders: seq<Part>, ghost writers: seq<Writer>, ghost frames: seq<seq<byte>>)
    requires 0 < maximumPartSize && (compression ==> maximumPartSize <= MAX_PART) && Composes(sum)
    requires parts != [] && forall i :: 0 <= i < |parts| ==> parts[i] != [] || parts == [[]]
    requires Reserved(|Concat(parts)|) < TWO64
    ensures var size := |Concat(parts)|;
            var pieces := AllPieces(parts, maximumPartSize, size);
            && orders != [] && MakeUp(pieces, size) && Concat(pieces) == Concat(parts)
            && IsRun(sum, compression, key, size, writers, pieces, frames, orders) && writers[0] == IDLE
  {
    var region := new byte[Reserved(|Concat(parts)|)](_ => 0);
    var db := new Database(sum, compression, maximumPartSize);
    ghost var st1, st2 := db.PutValue(key, parts, region);
    orders, writers, frames := db.stored, db.writers, db.frames;
    AllPiecesMakeUp(parts, maximumPartSize, |Concat(parts)|);
    if |Concat(parts)| == 0 {
      OnePieceOfNothing(parts, maximumPartSize);
    }
  }

  lemma OnePieceOfNothing(parts: seq<seq<byte>>, max: nat)
    requires 0 < max && parts != [] && |Concat(parts)| == 0
    requires forall i :: 0 <= i < |parts| ==> parts[i] != [] || parts == [[]]
    ensures |AllPieces(parts, max, 0)| == 1
  {
    var n := |parts| - 1;
    assert parts[n] == [];
    assert parts[..0] == [];
  }

  /** What the orders of a value leave in the file and the index. */
  ghost predicate Left(compression: bool, crc8: seq<byte> -> byte, hash: Key -> nat, key: Key, first: Option<nat>,
                       orders: seq<Part>, file: seq<byte>, index: seq<nat>, index': seq<nat>, at: nat)
  {
    match first
    case None => index' == index
    case Some(e) =>
      && e < |orders| && index' == index + [at]
      && var h := LastHeader(hash, key, orders[e]);
      Stands(file, at, EncodeHeader(compression, crc8, h), key, Laid(orders[..e + 1]), h.SizeValueOffset())
  }

  /** The orders of a value are written; what earlier values of the key left in the tables is arbitrary. */
  method WriteValue(compression: bool, crc8: seq<byte> -> byte, hash: Key -> nat, key: Key, orders: seq<Part>,
                    file: seq<byte>, others: nat -> seq<byte>, index: seq<nat>, location: Option<nat>, headerSize: nat,
                    ghost size: nat)
    returns (file': seq<byte>, index': seq<nat>, ghost at: nat)
    requires orders != [] && OneAfterAnother(size, orders) && (orders[0].sizeCompressed > 0 ==> IsLastPart(orders[0]))
    requires |file| + |others(0)| < 0x1_0000_0000
    ensures at == |file| + |others(0)| <= |file'|
    ensures Left(compression, crc8, hash, key, Counted(orders), orders, file', index, index', at)
  {
    var writer := new EntryWriter(compression, crc8, hash, key, file, location, headerSize, index);
    at := WriteOrders(writer, orders, others, size);
    file', index' := writer.file, writer.index;
    MadeIsLeft(writer, orders, at);
  }

  lemma MadeIsLeft(writer: EntryWriter, orders: seq<Part>, at: nat)
    requires orders != [] && writer.Is(Made(writer.hash, writer.key, orders, |orders|, at))
    ensures Left(writer.compression, writer.crc8, writer.hash, writer.key, Counted(orders), orders, writer.file,
                 writer.earlier, writer.index, at)
  {
    assert orders[..|orders|] == orders;
  }

  /** Whether an entry with the header of an order can be read. */
  ghost function Reaches(compression: bool, crc8: seq<byte> -> byte, hash: Key -> nat, key: Key, orders: seq<Part>,
                         at: nat, filesize: nat): nat -> bool
  {
    (e: nat) => e < |orders| && at <= filesize
      && InReachOf(compression, crc8, LastHeader(hash, key, orders[e]), at, filesize)
  }

  lemma ReachesAt(compression: bool, crc8: seq<byte> -> byte, hash: Key -> nat, key: Key, orders: seq<Part>, at: nat,
                  filesize: nat, e: nat)
    requires e < |orders| && at <= filesize
    ensures Reaches(compression, crc8, hash, key, orders, at, filesize)(e)
       <==> InReachOf(compression, crc8, LastHeader(hash, key, orders[e]), at, filesize)
  {}

  /** What a lookup finds of a value, by the order that is the first to be taken for the last. */
  ghost function Outcomes(first: Option<nat>, orders: seq<Part>, value: seq<byte>, reached: nat -> bool): Outcome
    requires first.Some? ==> first.value < |orders|
  {
    match first
    case None => NeverIndexed
    case Some(e) => Given(reached(e), if e + 1 == |orders| then value else Laid(orders[..e + 1]))
  }

  /** The orders of a run meet what the writing of them asks for. */
  lemma RunWrites(sum: Sum, compression: bool, key: seq<byte>, size: nat, writers: seq<Writer>, pieces: seq<seq<byte>>,
                  frames: seq<seq<byte>>, parts: seq<Part>)
    requires Composes(sum) && IsRun(sum, compression, key, size, writers, pieces, frames, parts)
    requires MakeUp(pieces, size) && pieces != []
    ensures OneAfterAnother(size, parts) && (parts[0].sizeCompressed > 0 ==> IsLastPart(parts[0]))
  {
    RunLaysAll(sum, compression, key, size, writers, pieces, frames, parts);
    RunCounts(sum, compression, key, size, writers, pieces, frames, parts, 0);
    assert LaidAt(size, parts, 0);
  }

  /** A lookup of what some orders left. */
  method LookUpLeft(sum: Sum, compression: bool, crc8: seq<byte> -> byte, hash: Key -> nat, key: Key, verify: bool,
                    file: seq<byte>, slack: seq<byte>, index: seq<nat>, index': seq<nat>, ghost first: Option<nat>,
                    ghost orders: seq<Part>, ghost value: seq<byte>, ghost size: nat, ghost st: Stored, ghost at: nat)
    returns (outcome: Outcome)
    requires 16 <= |slack| && at <= |file|
    requires key != [] && |key| < TWO64 && hash(key) < TWO64 && Reserved(size) < TWO64
    requires Left(compression, crc8, hash, key, first, orders, file, index, index', at)
    requires first.Some? ==> ToldAt(sum, compression, key, size, orders, first.value, value, st)
    ensures outcome == Outcomes(first, orders, value, Reaches(compression, crc8, hash, key, orders, at, |file|))
  {
    if |index'| == |index| {
      return NeverIndexed;
    }
    ghost var e := first.value;
    ReachesAt(compression, crc8, hash, key, orders, at, |file|, e);
    outcome := LookUp(sum, compression, crc8, hash, key, verify, file, slack, index'[|index|], orders[e], st, size);
  }

  /** A lookup of what the orders of a run left. */
  method LookUpRun(sum: Sum, compression: bool, crc8: seq<byte> -> byte, hash: Key -> nat, key: Key, verify: bool,
                   file: seq<byte>, slack: seq<byte>, index: seq<nat>, index': seq<nat>, ghost orders: seq<Part>,
                   ghost size: nat, ghost writers: seq<Writer>, ghost pieces: seq<seq<byte>>,
                   ghost frames: seq<seq<byte>>, ghost at: nat)
    returns (outcome: Outcome)
    requires Composes(sum) && IsRun(sum, compression, key, size, writers, pieces, frames, orders)
    requires MakeUp(pieces, size) && pieces != [] && 16 <= |slack| && at <= |file|
    requires key != [] && |key| < TWO64 && hash(key) < TWO64 && Reserved(size) < TWO64
    requires Left(compression, crc8, hash, key, Counted(orders), orders, file, index, index', at)
    ensures outcome == Outcomes(Counted(orders), orders, Concat(pieces),
                                Reaches(compression, crc8, hash, key, orders, at, |file|))
  {
    ghost var first, st := Counted(orders), Start(compression, size);
    if first.Some? {
      st := RunTells(sum, compression, key, size, writers, pieces, frames, orders, first.value);
    }
    outcome := LookUpLeft(sum, compression, crc8, hash, key, verify, file, slack, index, index', first, orders,
                          Concat(pieces), size, st, at);
  }

  /**
   * What a lookup finds of a value, in terms of the sizes of its orders. It is found if and only if no order
   * before the last ends at the value's size and the last does not switch compression off late. In the
   * first case the bytes stored up to that order are taken for it, and in the second it is never indexed.
   */
  ghost predicate LookedUp(value: seq<byte>, orders: seq<Part>, late: bool, reached: nat -> bool, outcome: Outcome)
  {
    && (forall e: nat :: EndsEarly(orders, |value|, e) ==> outcome == Given(reached(e), Laid(orders[..e + 1])))
    && (orders != [] && (forall e: nat :: !EndsEarly(orders, |value|, e)) ==>
          outcome == if late then NeverIndexed else Given(reached(|orders| - 1), value))
  }

  lemma OutcomesAre(sum: Sum, compression: bool, key: seq<byte>, size: nat, writers: seq<Writer>,
                    pieces: seq<seq<byte>>, frames: seq<seq<byte>>, orders: seq<Part>, reached: nat -> bool)
    requires Composes(sum) && IsRun(sum, compression, key, size, writers, pieces, frames, orders)
    requires MakeUp(pieces, size) && pieces != []
    ensures LookedUp(Concat(pieces), orders, compression && SwitchesLate(writers, frames, size, |orders| - 1), reached,
                     Outcomes(Counted(orders), orders, Concat(pieces), reached))
  {
    RunCounted(sum, compression, key, size, writers, pieces, frames, orders);
    OutcomesFrom(Counted(orders), Concat(pieces), orders,
                 compression && SwitchesLate(writers, frames, size, |orders| - 1), reached);
  }

  lemma OutcomesFrom(first: Option<nat>, value: seq<byte>, orders: seq<Part>, late: bool, reached: nat -> bool)
    requires first.Some? ==> first.value < |orders|
    requires forall e: nat :: EndsEarly(orders, |value|, e) ==> first == Some(e)
    requires (forall e: nat :: !EndsEarly(orders, |value|, e)) ==> first == if late then None else Some(|orders| - 1)
    ensures LookedUp(value, orders, late, reached, Outcomes(first, orders, value, reached))
  {}

  /** The orders of a run are written, and the value is looked up. */
  method StoreRun(sum: Sum, compression: bool, crc8: seq<byte> -> byte, hash: Key -> nat, key: Key, verify: bool,
                  file: seq<byte>, others: nat -> seq<byte>, slack: seq<byte>, index: seq<nat>, location: Option<nat>,
                  headerSize: nat, orders: seq<Part>, ghost size: nat, ghost writers: seq<Writer>,
                  ghost pieces: seq<seq<byte>>, ghost frames: seq<seq<byte>>)
    returns (outcome: Outcome, index': seq<nat>, ghost at: nat, ghost filesize: nat)
    requires Composes(sum) && IsRun(sum, compression, key, size, writers, pieces, frames, orders)
    requires MakeUp(pieces, size) && pieces != [] && 16 <= |slack|
    requires key != [] && |key| < TWO64 && hash(key) < TWO64 && Reserved(size) < TWO64
    requires |file| + |others(0)| < 0x1_0000_0000
    ensures at == |file| + |others(0)| <= filesize && index' == index + (if outcome.NeverIndexed? then [] else [at])
    ensures LookedUp(Concat(pieces), orders, compression && SwitchesLate(writers, frames, size, |orders| - 1),
                     Reaches(compression, crc8, hash, key, orders, at, filesize), outcome)
  {
    RunWrites(sum, compression, key, size, writers, pieces, frames, orders);
    var file';
    file', index', at := WriteValue(compression, crc8, hash, key, orders, file, others, index, location, headerSize,
                                    size);
    filesize := |file'|;
    outcome := LookUpRun(sum, compression, crc8, hash, key, verify, file', slack, index, index', orders, size, writers,
                         pieces, frames, at);
    OutcomesAre(sum, compression, key, size, writers, pieces, frames, orders,
                Reaches(compression, crc8, hash, key, orders, at, filesize));
  }

  /**
   * The stream round trip, whatever the parts, whatever frames compression gives for their pieces, and
   * whatever other entries are written meanwhile.
   */
  method StoreAndLoad(sum: Sum, compression: bool, maximumPartSize: nat, crc8: seq<byte> -> byte, hash: Key -> nat,
                      key: Key, parts: seq<seq<byte>>, verify: bool, file: seq<byte>, others: nat -> seq<byte>,
                      slack: seq<byte>, index: seq<nat>, location: Option<nat>, headerSize: nat)
    returns (outcome: Outcome, orders: seq<Part>, index': seq<nat>, ghost writers: seq<Writer>,
             ghost frames: seq<seq<byte>>, ghost at: nat, ghost filesize: nat)
    requires 0 < maximumPartSize && (compression ==> maximumPartSize <= MAX_PART) && Composes(sum) && 16 <= |slack|
    requires parts != [] && forall i :: 0 <= i < |parts| ==> parts[i] != [] || parts == [[]]
    requires key != [] && |key| < TWO64 && hash(key) < TWO64 && Reserved(|Concat(parts)|) < TWO64
    requires |file| + |others(0)| < 0x1_0000_0000
    ensures var size := |Concat(parts)|;
            orders != [] && IsRun(sum, compression, key, size, writers, AllPieces(parts, maximumPartSize, size), frames,
                                  orders)
    ensures at == |file| + |others(0)| <= filesize && index' == index + (if outcome.NeverIndexed? then [] else [at])
    ensures LookedUp(Concat(parts), orders, compression && SwitchesLate(writers, frames, |Concat(parts)|, |orders| - 1),
                     Reaches(compression, crc8, hash, key, orders, at, filesize), outcome)
  {
    orders, writers, frames := PutAll(sum, compression, maximumPartSize, key, parts);
    ghost var size := |Concat(parts)|;
    ghost var pieces := AllPieces(parts, maximumPartSize, size);
    outcome, index', at, filesize := StoreRun(sum, compression, crc8, hash, key, verify, file, others, slack, index,
                                              location, headerSize, orders, size, writers, pieces, frames);
  }

  // ----- Values that are not found -----

  /** The first of two orders, as the bytes that are stored up to it. */
  lemma FirstLaid(orders: seq<Part>)
    requires orders != []
    ensures Laid(orders[..1]) == orders[0].chunk
  {
    assert orders[..1][..0] == [] && [] + orders[0].chunk == orders[0].chunk;
  }

  /** A first order that ends early is taken for the whole value. */
  lemma FirstIsTaken(value: seq<byte>, orders: seq<Part>, late: bool, reached: nat -> bool, outcome: Outcome)
    requires EndsEarly(orders, |value|, 0) && LookedUp(value, orders, late, reached, outcome)
    ensures outcome == Given(reached(0), orders[0].chunk)
  {
    FirstLaid(orders);
  }

  /**
   * For the compressor as it is, a value below 64 KB that is put in two parts, the first without repeats and
   * the second of eight bytes, is found as eight zeros and its first part.
   */
  method TakeFirstForWhole(sum: Sum, maximumPartSize: nat, crc8: seq<byte> -> byte, hash: Key -> nat, key: Key,
                           one: seq<byte>, two: seq<byte>, verify: bool, file: seq<byte>, others: nat -> seq<byte>,
                           slack: seq<byte>)
    returns (outcome: Outcome, orders: seq<Part>, ghost at: nat, ghost filesize: nat)
    requires Composes(sum) && 16 <= |slack| && key != [] && |key| < TWO64 && hash(key) < TWO64
    requires one != [] && NoRepeat(one) && |two| == HEADER && |one| + |two| < 65536
    requires |one| + |two| <= maximumPartSize <= MAX_PART
    requires |file| + |others(0)| < 0x1_0000_0000
    ensures outcome == Given(Reaches(true, crc8, hash, key, orders, at, filesize)(0), ZEROS + one)
  {
    ghost var size := |one| + |two|;
    TwoWholePieces(one, two, maximumPartSize, size);
    var index;
    ghost var writers, frames;
    outcome, orders, index, writers, frames, at, filesize :=
      StoreAndLoad(sum, true, maximumPartSize, crc8, hash, key, [one, two], verify, file, others, slack, [], None, 0);
    FirstCanCountAsLast(sum, key, size, writers, one, two, frames, orders);
    FirstIsTaken(Concat([one, two]), orders, SwitchesLate(writers, frames, size, 1),
                 Reaches(true, crc8, hash, key, orders, at, filesize), outcome);
  }

  /** Of two orders, the first does not end early, and the second switches compression off late. */
  lemma NeverTaken(value: seq<byte>, orders: seq<Part>, reached: nat -> bool, outcome: Outcome)
    requires |orders| == 2 && !EndsEarly(orders, |value|, 0) && LookedUp(value, orders, true, reached, outcome)
    ensures outcome == NeverIndexed
  {
    assert forall e: nat :: EndsEarly(orders, |value|, e) ==> e == 0;
  }

  /**
   * For the compressor as it is, a value of 64 KB or more, and less than 128 KB, that is put in two parts in
   * which nothing repeats is never indexed, unless the second has eight bytes: then it is found as the
   * frame of the first.
   */
  method LoseTheValue(sum: Sum, maximumPartSize: nat, crc8: seq<byte> -> byte, hash: Key -> nat, key: Key,
                      one: seq<byte>, two: seq<byte>, verify: bool, file: seq<byte>, others: nat -> seq<byte>,
                      slack: seq<byte>)
    returns (outcome: Outcome, orders: seq<Part>, ghost at: nat, ghost filesize: nat)
    requires Composes(sum) && 16 <= |slack| && key != [] && |key| < TWO64 && hash(key) < TWO64
    requires one != [] && two != [] && NoRepeat(one) && NoRepeat(two)
    requires 65536 <= |one| + |two| < 131072 && |one| + |two| <= maximumPartSize <= MAX_PART
    requires |file| + |others(0)| < 0x1_0000_0000
    ensures |two| != HEADER ==> outcome == NeverIndexed
    ensures |two| == HEADER ==> outcome == Given(Reaches(true, crc8, hash, key, orders, at, filesize)(0), RawFrame(one))
  {
    ghost var size := |one| + |two|;
    TwoWholePieces(one, two, maximumPartSize, size);
    var index;
    ghost var writers, frames;
    outcome, orders, index, writers, frames, at, filesize :=
      StoreAndLoad(sum, true, maximumPartSize, crc8, hash, key, [one, two], verify, file, others, slack, [], None, 0);
    SecondIsLate(sum, key, size, writers, one, two, frames, orders);
    if |two| == HEADER {
      FirstIsTaken(Concat([one, two]), orders, true, Reaches(true, crc8, hash, key, orders, at, filesize), outcome);
    } else {
      NeverTaken(Concat([one, two]), orders, Reaches(true, crc8, hash, key, orders, at, filesize), outcome);
    }
  }
}
