/**
 * Writing a value in parts, after Database::PutPart and PutPartValidSize: each part is compressed
 * into a frame as long as the space reserved for the value can still take the rest of it raw, and
 * from then on parts are stored as they are.
 */
module StreamWriter {
  import opened Bytes
  import opened Words
  import opened Stream
  import Format
  import Lz4Format
  import Crc32c

  function Reserved(size: nat): nat
  {
    size + Format.Padding(size)
  }

  /** Subtraction of 64-bit unsigned integers, which wraps around. */
  function Sub64(a: int, b: int): (r: nat)
    ensures 0 <= a - b < TWO64 ==> r == a - b
  {
    (a - b) % TWO64
  }

  // ----- One part -----

  /** The storage that a thread keeps from one part to the next. */
  datatype Writer = Writer(enabled: bool, offset: nat, compressed: nat, checksum: u32)

  /** What is handed to the write buffer for a part. */
  datatype Part = Part(chunk: seq<byte>, offset: nat, sizeValue: nat, sizeCompressed: nat, checksum: u32)

  datatype Placed = Placed(writer: Writer, chunk: seq<byte>, offset: nat)

  datatype Put = Accepted(writer: Writer, part: Part) | OutsideMemory

  /** The test that disables compression. */
  predicate MustDisable(start: nat, chunkSize: nat, offset: nat, size: nat, frameSize: nat)
  {
    Sub64(Sub64(size, offset), chunkSize) + HEADER > Sub64(Sub64(Reserved(size), start), frameSize)
  }

  /** Where a part goes, and as what bytes; `frame` is what the compressor makes of the chunk. */
  function Place(compression: bool, w0: Writer, chunk: seq<byte>, offset: nat, size: nat, frame: seq<byte>): Placed
  {
    var w := if offset == 0 then w0.(enabled := true, offset := 0) else w0;
    if !w.enabled then Placed(w.(offset := w.offset + |chunk|), chunk, w.offset)
    else if !compression || chunk == [] then Placed(w, chunk, offset)
    else
      var start := if offset == 0 then 0 else w.compressed;
      if MustDisable(start, |chunk|, offset, size, |frame|) then
        Placed(w.(enabled := false, compressed := start, offset := start + HEADER + |chunk|), ZEROS + chunk, start)
      else
        Placed(w.(compressed := start + |frame|), frame, start)
  }

  /** The compressed size that goes with a part; it is zero unless the part is the last. */
  function Recorded(compression: bool, p: Placed, chunk: seq<byte>, offset: nat, size: nat): nat
  {
    if !compression || chunk == [] || |chunk| + offset != size then 0
    else if p.writer.enabled then p.writer.compressed
    else if offset == 0 then p.writer.offset
    else p.offset + |chunk|
  }

  /** The sizes and the checksum of a part that has its place, and the guard against writing outside of the space. */
  function Finish(sum: Sum, compression: bool, checksum: u32, key: seq<byte>, chunk: seq<byte>, offset: nat, size: nat,
                  p: Placed): Put
  {
    var crc := sum(if offset == 0 then sum(0, key) else checksum, p.chunk);
    var padding := if compression && chunk != [] then Format.Padding(size) else 0;
    if p.offset + |p.chunk| > size + padding then OutsideMemory
    else
      Accepted(p.writer.(checksum := crc),
               Part(p.chunk, p.offset, size, Recorded(compression, p, chunk, offset, size),
                    if |chunk| + offset == size then crc else 0))
  }

  function PutStep(sum: Sum, compression: bool, w: Writer, key: seq<byte>, chunk: seq<byte>, offset: nat, size: nat,
                   frame: seq<byte>): Put
  {
    Finish(sum, compression, w.checksum, key, chunk, offset, size, Place(compression, w, chunk, offset, size, frame))
  }

  // ----- What the parts amount to -----

  function Start(compression: bool, size: nat): Stored
  {
    Stored([], [], if compression && size > 0 then Framed else Plain, [])
  }

  /** What is stored once one more part is; `enabled` is whether compression still is. */
  function Advance(st: Stored, chunk: seq<byte>, frame: seq<byte>, enabled: bool): Stored
  {
    if !st.mode.Framed? then st.(tail := st.tail + chunk)
    else if enabled then st.(frames := st.frames + [frame], raws := st.raws + [chunk])
    else st.(mode := SwitchedOff, tail := chunk)
  }

  /** While compression is on, there is room for a header and the rest of the value as it is. */
  ghost predicate Room(w: Writer, st: Stored, size: nat)
  {
    match st.mode
    case Framed => w.enabled && w.compressed == |st.Bytes()|
      && w.compressed + (size - |st.Value()|) + HEADER <= Reserved(size)
    case SwitchedOff => !w.enabled && w.offset == |st.Bytes()| && w.offset + (size - |st.Value()|) <= Reserved(size)
    case Plain => w.enabled
  }

  /** A checksum over pieces is that of their concatenation. */
  ghost predicate Composes(sum: Sum)
  {
    forall c: u32, a, b :: Joins(sum, c, a, b)
  }

  ghost predicate Joins(sum: Sum, c: u32, a: seq<byte>, b: seq<byte>)
  {
    sum(c, []) == c && sum(sum(c, a), b) == sum(c, a + b)
  }

  /** A writer is between two parts of a value. */
  ghost predicate Tracks(sum: Sum, compression: bool, w: Writer, st: Stored, key: seq<byte>, size: nat)
  {
    && st.WellFormed() && |st.Value()| <= size
    && (st.mode.Plain? <==> !compression || size == 0)
    && Room(w, st, size)
    && w.checksum == sum(sum(0, key), st.Bytes())
  }

  /** A writer is about to put the part at an offset. */
  ghost predicate Ready(sum: Sum, compression: bool, w: Writer, st: Stored, key: seq<byte>, size: nat, offset: nat)
  {
    if offset == 0 then st == Start(compression, size)
    else Tracks(sum, compression, w, st, key, size) && offset == |st.Value()|
  }

  /** A part of a value: never empty, unless the value is. */
  ghost predicate IsPart(compression: bool, chunk: seq<byte>, frame: seq<byte>, offset: nat, size: nat)
  {
    && offset + |chunk| <= size && Reserved(size) < TWO64
    && (chunk == [] ==> size == 0)
    && (compression && chunk != [] ==> IsFrame(frame, chunk) && |frame| <= HEADER + |chunk|)
  }

  lemma AdvanceFramed(st: Stored, chunk: seq<byte>, frame: seq<byte>)
    requires st.WellFormed() && st.mode.Framed? && IsFrame(frame, chunk)
    ensures var st' := Advance(st, chunk, frame, true);
            st'.WellFormed() && st'.Bytes() == st.Bytes() + frame && st'.Value() == st.Value() + chunk
  {
    var st' := Advance(st, chunk, frame, true);
    forall i | 0 <= i < |st'.frames|
      ensures st'.Legal(i)
    {
      assert i < |st.frames| ==> st.Legal(i);
    }
    ConcatSnoc(st.frames, frame);
    ConcatSnoc(st.raws, chunk);
  }

  lemma AdvanceRaw(st: Stored, chunk: seq<byte>, frame: seq<byte>)
    requires st.WellFormed()
    ensures var st' := Advance(st, chunk, frame, false);
            && st'.WellFormed() && st'.Value() == st.Value() + chunk
            && st'.Bytes() == st.Bytes() + (if st.mode.Framed? then ZEROS + chunk else chunk)
  {
    var st' := Advance(st, chunk, frame, false);
    forall i | 0 <= i < |st'.frames|
      ensures st'.Legal(i)
    {
      assert st.Legal(i);
    }
  }

  /** A frame that leaves room enough keeps compression on; otherwise the part goes raw, and so does the rest. */
  lemma MustDisableMeans(start: nat, chunkSize: nat, offset: nat, size: nat, frameSize: nat)
    requires offset + chunkSize <= size && Reserved(size) < TWO64 && frameSize <= HEADER + chunkSize
    requires start + (size - offset) + HEADER <= Reserved(size)
    ensures MustDisable(start, chunkSize, offset, size, frameSize)
       <==> start + frameSize + (size - offset - chunkSize) + HEADER > Reserved(size)
  {}

  /** Parts are laid down one after another, and the space reserved for the value always suffices. */
  lemma PlaceKeeps(compression: bool, w: Writer, st: Stored, chunk: seq<byte>, offset: nat, size: nat, frame: seq<byte>)
    requires IsPart(compression, chunk, frame, offset, size) && st.WellFormed() && offset == |st.Value()|
    requires st.mode.Plain? <==> !compression || size == 0
    requires if offset == 0 then st == Start(compression, size) else Room(w, st, size)
    ensures var p := Place(compression, w, chunk, offset, size, frame);
            var st' := Advance(st, chunk, frame, p.writer.enabled);
            && st'.WellFormed() && st'.Value() == st.Value() + chunk && Room(p.writer, st', size)
            && p.offset == |st.Bytes()| && st'.Bytes() == st.Bytes() + p.chunk
            && p.offset + |p.chunk| <= if compression && chunk != [] then Reserved(size) else size
  {
    var p := Place(compression, w, chunk, offset, size, frame);
    match st.mode
    case Plain =>
      AdvanceRaw(st, chunk, frame);
    case SwitchedOff =>
      AdvanceRaw(st, chunk, frame);
    case Framed =>
      var start := if offset == 0 then 0 else w.compressed;
      MustDisableMeans(start, |chunk|, offset, size, |frame|);
      if p.writer.enabled {
        AdvanceFramed(st, chunk, frame);
      } else {
        AdvanceRaw(st, chunk, frame);
      }
  }

  lemma StartIsWellFormed(compression: bool, size: nat)
    ensures Start(compression, size).WellFormed()
    ensures Start(compression, size).Bytes() == [] && Start(compression, size).Value() == []
  {}

  /** The guard against writing outside of the allocated memory is never taken. */
  lemma PutKeeps(sum: Sum, compression: bool, w: Writer, st: Stored, key: seq<byte>, chunk: seq<byte>, offset: nat,
                 size: nat, frame: seq<byte>)
    requires Composes(sum) && IsPart(compression, chunk, frame, offset, size)
    requires Ready(sum, compression, w, st, key, size, offset)
    ensures var put := PutStep(sum, compression, w, key, chunk, offset, size, frame);
            && put.Accepted?
            && var st' := Advance(st, chunk, frame, put.writer.enabled);
            && Tracks(sum, compression, put.writer, st', key, size)
            && st'.Value() == st.Value() + chunk && st'.Bytes() == st.Bytes() + put.part.chunk
            && put.part.offset == |st.Bytes()| && |st'.Bytes()| <= Reserved(size)
            && (offset + |chunk| == size ==> put.part.checksum == put.writer.checksum)
  {
    StartIsWellFormed(compression, size);
    PlaceKeeps(compression, w, st, chunk, offset, size, frame);
    assert Joins(sum, sum(0, key), st.Bytes(), Place(compression, w, chunk, offset, size, frame).chunk);
  }

  /** The last part of a value that is not its only part switches compression off. */
  ghost predicate SwitchedAtEnd(st: Stored, st': Stored)
  {
    st.mode.Framed? && st'.mode.SwitchedOff? && st.frames != []
  }

  /** The compressed size recorded with the last part is where the stored bytes end, unless that part switches off. */
  lemma RecordedSize(sum: Sum, compression: bool, w: Writer, st: Stored, key: seq<byte>, chunk: seq<byte>, offset: nat,
                     size: nat, frame: seq<byte>)
    requires Composes(sum) && IsPart(compression, chunk, frame, offset, size) && offset + |chunk| == size
    requires Ready(sum, compression, w, st, key, size, offset) && compression && size > 0
    ensures var put := PutStep(sum, compression, w, key, chunk, offset, size, frame);
            && put.Accepted?
            && var st' := Advance(st, chunk, frame, put.writer.enabled);
            && (put.part.sizeCompressed == |st'.Bytes()| <==> !SwitchedAtEnd(st, st'))
            && (SwitchedAtEnd(st, st') ==> put.part.sizeCompressed == |st'.Bytes()| - HEADER)
  {
    StartIsWellFormed(compression, size);
    PutKeeps(sum, compression, w, st, key, chunk, offset, size, frame);
    PlaceKeeps(compression, w, st, chunk, offset, size, frame);
  }

  /** When the last part switches compression off, in terms of sizes known before it is put. */
  lemma SwitchesAtEndWhen(sum: Sum, compression: bool, w: Writer, st: Stored, key: seq<byte>, chunk: seq<byte>,
                          offset: nat, size: nat, frame: seq<byte>)
    requires Composes(sum) && IsPart(compression, chunk, frame, offset, size) && offset + |chunk| == size
    requires Ready(sum, compression, w, st, key, size, offset) && compression && size > 0
    ensures var put := PutStep(sum, compression, w, key, chunk, offset, size, frame);
            && put.Accepted?
            && (SwitchedAtEnd(st, Advance(st, chunk, frame, put.writer.enabled))
                <==> offset > 0 && w.enabled && w.compressed + |frame| + HEADER > Reserved(size))
  {
    StartIsWellFormed(compression, size);
    PutKeeps(sum, compression, w, st, key, chunk, offset, size, frame);
    if st.mode.Framed? {
      MustDisableMeans(if offset == 0 then 0 else w.compressed, |chunk|, offset, size, |frame|);
    }
  }

  /** A value put in one part is always recorded right, and its order is self-contained. */
  lemma OnePart(sum: Sum, compression: bool, w: Writer, key: seq<byte>, chunk: seq<byte>, frame: seq<byte>)
    requires Composes(sum) && IsPart(compression, chunk, frame, 0, |chunk|)
    ensures var put := PutStep(sum, compression, w, key, chunk, 0, |chunk|, frame);
            && put.Accepted? && IsSelfContained(put.part)
            && put.part.sizeCompressed == if compression then |put.part.chunk| else 0
  {
    var st := Start(compression, |chunk|);
    StartIsWellFormed(compression, |chunk|);
    PutKeeps(sum, compression, w, st, key, chunk, 0, |chunk|, frame);
    if compression && chunk != [] {
      RecordedSize(sum, compression, w, st, key, chunk, 0, |chunk|, frame);
    }
  }

  /** Order::IsLastPart. */
  predicate IsLastPart(p: Part)
  {
    |p.chunk| + p.offset == if p.sizeCompressed == 0 then p.sizeValue else p.sizeCompressed
  }

  /** Order::IsSelfContained. */
  predicate IsSelfContained(p: Part)
  {
    p.offset == 0 && IsLastPart(p)
  }

  // ----- A value as a run of puts -----

  /** The compressed size that goes with the last part is where the stored bytes end, or there is no compression. */
  predicate RecordedRight(last: Part)
  {
    last.sizeCompressed == 0 || last.sizeCompressed == last.offset + |last.chunk|
  }

  /** One step of a run: a piece is put, with a frame that compression may give for it. */
  ghost predicate StepAt(sum: Sum, compression: bool, key: seq<byte>, size: nat, writers: seq<Writer>,
                         pieces: seq<seq<byte>>, frames: seq<seq<byte>>, parts: seq<Part>, i: nat)
  {
    i < |pieces| && i + 1 < |writers| && i < |frames| && i < |parts| ==>
      && IsPart(compression, pieces[i], frames[i], |Concat(pieces[..i])|, size)
      && PutStep(sum, compression, writers[i], key, pieces[i], |Concat(pieces[..i])|, size, frames[i])
         == Accepted(writers[i + 1], parts[i])
  }

  /** The pieces of a value are put one after another, through these writers, and these parts are handed out. */
  ghost predicate IsRun(sum: Sum, compression: bool, key: seq<byte>, size: nat, writers: seq<Writer>,
                        pieces: seq<seq<byte>>, frames: seq<seq<byte>>, parts: seq<Part>)
  {
    && |writers| == |pieces| + 1 && |frames| == |parts| == |pieces|
    && forall i: nat :: StepAt(sum, compression, key, size, writers, pieces, frames, parts, i)
  }

  lemma RunNext(sum: Sum, compression: bool, key: seq<byte>, size: nat, writers: seq<Writer>, pieces: seq<seq<byte>>,
                frames: seq<seq<byte>>, parts: seq<Part>, piece: seq<byte>, frame: seq<byte>, w: Writer, part: Part)
    requires IsRun(sum, compression, key, size, writers, pieces, frames, parts)
    requires IsPart(compression, piece, frame, |Concat(pieces)|, size)
    requires PutStep(sum, compression, writers[|writers| - 1], key, piece, |Concat(pieces)|, size, frame)
         == Accepted(w, part)
    ensures IsRun(sum, compression, key, size, writers + [w], pieces + [piece], frames + [frame], parts + [part])
  {
    var writers', pieces', frames', parts' := writers + [w], pieces + [piece], frames + [frame], parts + [part];
    forall i: nat
      ensures StepAt(sum, compression, key, size, writers', pieces', frames', parts', i)
    {
      if i < |pieces| {
        assert StepAt(sum, compression, key, size, writers, pieces, frames, parts, i);
        assert pieces'[..i] == pieces[..i];
      } else if i == |pieces| {
        assert pieces'[..i] == pieces;
      }
    }
  }

  /** The bytes that some parts lay down, one after another. */
  function Laid(parts: seq<Part>): seq<byte>
    decreases |parts|
  {
    if parts == [] then [] else Laid(parts[..|parts| - 1]) + parts[|parts| - 1].chunk
  }

  lemma LaidNext(parts: seq<Part>, i: nat)
    requires i < |parts|
    ensures Laid(parts[..i + 1]) == Laid(parts[..i]) + parts[i].chunk
  {
    assert parts[..i + 1][..i] == parts[..i];
  }

  /** In every run, whatever the frames, the writer is ready for each piece when it comes. */
  lemma {:induction false} RunReady(sum: Sum, compression: bool, key: seq<byte>, size: nat, writers: seq<Writer>,
                                    pieces: seq<seq<byte>>, frames: seq<seq<byte>>, parts: seq<Part>,
                                    i: nat) returns (st: Stored)
    requires Composes(sum) && IsRun(sum, compression, key, size, writers, pieces, frames, parts)
    requires (size > 0 || i == 0) && i < |pieces|
    ensures Ready(sum, compression, writers[i], st, key, size, |Concat(pieces[..i])|)
    ensures st.WellFormed() && st.Bytes() == Laid(parts[..i]) && st.Value() == Concat(pieces[..i])
    decreases i
  {
    StartIsWellFormed(compression, size);
    if i == 0 {
      st := Start(compression, size);
      assert parts[..0] == [] && pieces[..0] == [];
    } else {
      var before := RunReady(sum, compression, key, size, writers, pieces, frames, parts, i - 1);
      assert StepAt(sum, compression, key, size, writers, pieces, frames, parts, i - 1);
      PutKeeps(sum, compression, writers[i - 1], before, key, pieces[i - 1], |Concat(pieces[..i - 1])|, size,
               frames[i - 1]);
      st := Advance(before, pieces[i - 1], frames[i - 1], writers[i].enabled);
      PieceAt(pieces, i - 1);
      LaidNext(parts, i - 1);
    }
  }

  /** The last of several parts switches compression off: its frame would not leave room for a header. */
  predicate SwitchesLate(writers: seq<Writer>, frames: seq<seq<byte>>, size: nat, n: nat)
    requires n < |writers| && n < |frames|
  {
    n > 0 && writers[n].enabled && writers[n].compressed + |frames[n]| + HEADER > Reserved(size)
  }

  /**
   * In every run, the compressed size recorded with the last part is where the stored bytes end, if and
   * only if that part does not switch compression off late; otherwise it is short by a header.
   */
  lemma RunRecordsRight(sum: Sum, key: seq<byte>, size: nat, writers: seq<Writer>, pieces: seq<seq<byte>>,
                        frames: seq<seq<byte>>, parts: seq<Part>)
    requires Composes(sum) && IsRun(sum, true, key, size, writers, pieces, frames, parts)
    requires pieces != [] && |Concat(pieces)| == size > 0
    ensures var n := |pieces| - 1;
            && (RecordedRight(parts[n]) <==> !SwitchesLate(writers, frames, size, n))
            && (SwitchesLate(writers, frames, size, n) ==>
                  parts[n].sizeCompressed == parts[n].offset + |parts[n].chunk| - HEADER)
  {
    var n := |pieces| - 1;
    var st := RunReady(sum, true, key, size, writers, pieces, frames, parts, n);
    assert StepAt(sum, true, key, size, writers, pieces, frames, parts, n);
    var offset := |Concat(pieces[..n])|;
    PieceAt(pieces, n);
    assert pieces[..n + 1] == pieces;
    FirstPiece(sum, true, key, size, writers, pieces, frames, parts, n);
    PutKeeps(sum, true, writers[n], st, key, pieces[n], offset, size, frames[n]);
    RecordedSize(sum, true, writers[n], st, key, pieces[n], offset, size, frames[n]);
    SwitchesAtEndWhen(sum, true, writers[n], st, key, pieces[n], offset, size, frames[n]);
  }

  /** Only the first piece of a nonempty value starts at 0. */
  lemma FirstPiece(sum: Sum, compression: bool, key: seq<byte>, size: nat, writers: seq<Writer>, pieces: seq<seq<byte>>,
                   frames: seq<seq<byte>>, parts: seq<Part>, i: nat)
    requires IsRun(sum, compression, key, size, writers, pieces, frames, parts) && size > 0 && i < |pieces|
    ensures |Concat(pieces[..i])| == 0 <==> i == 0
  {
    if i > 0 {
      assert StepAt(sum, compression, key, size, writers, pieces, frames, parts, i - 1);
      PieceAt(pieces, i - 1);
    }
  }

  // ----- Which orders count as the last of their value -----

  /** The pieces make up a value: they are not empty, unless the value is, which is put in one. */
  ghost predicate MakeUp(pieces: seq<seq<byte>>, size: nat)
  {
    |Concat(pieces)| == size && (size > 0 || |pieces| == 1)
  }

  /** A part goes where the one before it ended, in the space reserved, and only the last records a compressed size. */
  ghost predicate LaidAt(size: nat, parts: seq<Part>, i: nat)
    requires i < |parts|
  {
    && parts[i].sizeValue == size && parts[i].offset == |Laid(parts[..i])|
    && Laid(parts[..i + 1]) == Laid(parts[..i]) + parts[i].chunk && |Laid(parts[..i + 1])| <= Reserved(size)
    && (size > 0 ==> parts[i].chunk != []) && (i + 1 < |parts| ==> parts[i].sizeCompressed == 0)
  }

  lemma RunLays(sum: Sum, compression: bool, key: seq<byte>, size: nat, writers: seq<Writer>, pieces: seq<seq<byte>>,
                frames: seq<seq<byte>>, parts: seq<Part>, i: nat)
    requires Composes(sum) && IsRun(sum, compression, key, size, writers, pieces, frames, parts)
    requires MakeUp(pieces, size) && i < |pieces|
    ensures LaidAt(size, parts, i)
  {
    var st := RunReady(sum, compression, key, size, writers, pieces, frames, parts, i);
    assert StepAt(sum, compression, key, size, writers, pieces, frames, parts, i);
    PutLays(sum, compression, writers[i], st, key, pieces[i], |Concat(pieces[..i])|, size, frames[i], parts[i]);
    LaidNext(parts, i);
    OnlyLastEnds(sum, compression, key, size, writers, pieces, frames, parts, i);
  }

  /** What one put lays down, and that it records nothing unless it ends the value. */
  lemma PutLays(sum: Sum, compression: bool, w: Writer, st: Stored, key: seq<byte>, chunk: seq<byte>, offset: nat,
                size: nat, frame: seq<byte>, part: Part)
    requires Composes(sum) && IsPart(compression, chunk, frame, offset, size)
    requires Ready(sum, compression, w, st, key, size, offset)
    requires PutStep(sum, compression, w, key, chunk, offset, size, frame).Accepted?
    requires part == PutStep(sum, compression, w, key, chunk, offset, size, frame).part
    ensures part.sizeValue == size && part.offset == |st.Bytes()| && |st.Bytes() + part.chunk| <= Reserved(size)
    ensures (size > 0 ==> part.chunk != []) && (offset + |chunk| != size ==> part.sizeCompressed == 0)
  {
    PutKeeps(sum, compression, w, st, key, chunk, offset, size, frame);
  }

  /** Only the last piece ends the value. */
  lemma OnlyLastEnds(sum: Sum, compression: bool, key: seq<byte>, size: nat, writers: seq<Writer>,
                     pieces: seq<seq<byte>>, frames: seq<seq<byte>>, parts: seq<Part>, i: nat)
    requires IsRun(sum, compression, key, size, writers, pieces, frames, parts) && MakeUp(pieces, size) && i < |pieces|
    ensures |Concat(pieces[..i])| + |pieces[i]| == size <==> i + 1 == |pieces|
  {
    PieceAt(pieces, i);
    if i + 1 < |pieces| {
      assert StepAt(sum, compression, key, size, writers, pieces, frames, parts, i + 1);
      PieceAt(pieces, i + 1);
    } else {
      assert pieces[..i + 1] == pieces;
    }
  }

  /** What the last part of a run records of the whole. */
  lemma RunCloses(sum: Sum, compression: bool, key: seq<byte>, size: nat, writers: seq<Writer>, pieces: seq<seq<byte>>,
                  frames: seq<seq<byte>>, parts: seq<Part>)
    returns (st1: Stored, st2: Stored)
    requires Composes(sum) && IsRun(sum, compression, key, size, writers, pieces, frames, parts) && MakeUp(pieces, size)
    requires pieces != []
    ensures Closes(sum, key, parts[|parts| - 1], st1, st2)
    ensures st2.WellFormed() && st2.Bytes() == Laid(parts) && st2.Value() == Concat(pieces)
    ensures st2.mode.Plain? <==> !compression || size == 0
  {
    var n := |pieces| - 1;
    st1 := RunReady(sum, compression, key, size, writers, pieces, frames, parts, n);
    assert StepAt(sum, compression, key, size, writers, pieces, frames, parts, n);
    st2 := Advance(st1, pieces[n], frames[n], writers[n + 1].enabled);
    var offset := |Concat(pieces[..n])|;
    OnlyLastEnds(sum, compression, key, size, writers, pieces, frames, parts, n);
    PutKeeps(sum, compression, writers[n], st1, key, pieces[n], offset, size, frames[n]);
    PutCloses(sum, compression, writers[n], st1, key, pieces[n], offset, size, frames[n]);
    PieceAt(pieces, n);
    LaidNext(parts, n);
    assert pieces[..n + 1] == pieces && parts[..n + 1] == parts;
  }

  /** The last order of a value counts as last exactly when it does not switch compression off after others. */
  lemma ClosesCounts(sum: Sum, key: seq<byte>, last: Part, st1: Stored, st2: Stored)
    requires Closes(sum, key, last, st1, st2) && st2.WellFormed() && last.sizeValue == |st2.Value()|
    requires last.sizeValue == 0 ==> st2.mode.Plain?
    ensures IsLastPart(last) <==> !SwitchedAtEnd(st1, st2)
  {
    BytesPositive(st2);
  }

  /**
   * Which orders of a run count as last, for Order::IsLastPart. The last one does if and only if it does not
   * switch compression off late, and an earlier one if and only if it happens to end at the value's size.
   */
  lemma RunCounts(sum: Sum, compression: bool, key: seq<byte>, size: nat, writers: seq<Writer>, pieces: seq<seq<byte>>,
                  frames: seq<seq<byte>>, parts: seq<Part>, i: nat)
    requires Composes(sum) && IsRun(sum, compression, key, size, writers, pieces, frames, parts)
    requires MakeUp(pieces, size) && i < |parts|
    ensures IsLastPart(parts[i]) <==>
              if i + 1 < |parts| then parts[i].offset + |parts[i].chunk| == size
              else !(compression && SwitchesLate(writers, frames, size, i))
    ensures IsSelfContained(parts[i]) <==> i == 0 && IsLastPart(parts[i])
  {
    RunLays(sum, compression, key, size, writers, pieces, frames, parts, i);
    if i > 0 {
      RunLays(sum, compression, key, size, writers, pieces, frames, parts, i - 1);
    } else {
      assert parts[..0] == [];
    }
    if i + 1 == |parts| {
      LastCounts(sum, compression, key, size, writers, pieces, frames, parts);
    }
  }

  lemma LastCounts(sum: Sum, compression: bool, key: seq<byte>, size: nat, writers: seq<Writer>, pieces: seq<seq<byte>>,
                   frames: seq<seq<byte>>, parts: seq<Part>)
    requires Composes(sum) && IsRun(sum, compression, key, size, writers, pieces, frames, parts)
    requires MakeUp(pieces, size) && pieces != []
    ensures IsLastPart(parts[|parts| - 1]) <==> !(compression && SwitchesLate(writers, frames, size, |parts| - 1))
  {
    var n := |parts| - 1;
    RunLays(sum, compression, key, size, writers, pieces, frames, parts, n);
    var st1, st2 := RunCloses(sum, compression, key, size, writers, pieces, frames, parts);
    ClosesCounts(sum, key, parts[n], st1, st2);
    if compression && size > 0 {
      RunRecordsRight(sum, key, size, writers, pieces, frames, parts);
    }
  }

  /** Parts end further and further on, so that at most one before the last ends at the value's size. */
  lemma {:induction false} EndsGrow(size: nat, parts: seq<Part>, i: nat, j: nat)
    requires i < j < |parts| && size > 0 && forall k :: 0 <= k < |parts| ==> LaidAt(size, parts, k)
    ensures parts[i].offset + |parts[i].chunk| < parts[j].offset + |parts[j].chunk|
    decreases j
  {
    assert LaidAt(size, parts, j) && LaidAt(size, parts, j - 1);
    if i < j - 1 {
      EndsGrow(size, parts, i, j - 1);
    }
  }

  // ----- A recorded size that is short -----

  ghost predicate RepeatsAt(s: seq<byte>, i: nat, k: nat)
  {
    i < k && k + 4 <= |s| && s[i..i + 4] == s[k..k + 4]
  }

  /** No four bytes in a row come twice. */
  ghost predicate NoRepeat(s: seq<byte>)
  {
    forall i: nat, k: nat :: !RepeatsAt(s, i, k)
  }

  /** A copied match is periodic. */
  lemma {:induction false} CopyIsPeriodic(out: seq<byte>, offset: nat, n: nat)
    requires 1 <= offset <= |out|
    ensures Periodic(Lz4Format.CopyMatch(out, offset, n), |out|, |out| + n, offset)
    decreases n
  {
    if n > 0 {
      var copied, r := Lz4Format.CopyMatch(out, offset, n - 1), Lz4Format.CopyMatch(out, offset, n);
      CopyIsPeriodic(out, offset, n - 1);
      var lo, hi := |out|, |copied|;
      assert r[lo..hi] == copied[lo..hi] && r[lo - offset..hi - offset] == copied[lo - offset..hi - offset];
      PeriodicSnoc(r, lo, |r|, offset);
    }
  }

  lemma PeriodicRepeats(s: seq<byte>, last: seq<byte>, p: nat, offset: nat)
    requires Periodic(s, p, |s|, offset) && p + 4 <= |s|
    ensures RepeatsAt(s + last, p - offset, p)
  {
    var t, q := s + last, p - offset;
    assert s[p..|s|][..4] == s[p..p + 4] && s[q..|s| - offset][..4] == s[q..q + 4];
    assert t[p..p + 4] == s[p..p + 4] && t[q..q + 4] == s[q..q + 4];
  }

  /** So data with a match has four bytes twice. */
  lemma MatchRepeats(ss: Lz4Format.Sequences, last: seq<byte>)
    requires Lz4Format.Valid(ss) && ss.Append?
    ensures !NoRepeat(Lz4Format.Expand(ss) + last)
  {
    var out := Lz4Format.Expand(ss.init) + ss.last.literals;
    CopyIsPeriodic(out, ss.last.offset, ss.last.matchLength);
    PeriodicRepeats(Lz4Format.Expand(ss), last, |out|, ss.last.offset);
  }

  /** Without a match, a block is longer than what it stands for. */
  lemma NoBlock(block: seq<byte>, raw: seq<byte>)
    requires Lz4Compressor.Encodes(block, raw) && NoRepeat(raw)
    ensures |block| > |raw|
  {
    var ss: Lz4Format.Sequences, last: seq<byte> :| Lz4Compressor.IsBlock(block, ss, last, raw);
    NoMatch(ss, last);
    assert Lz4Format.EncodeSequences(ss) == [] && Lz4Format.Expand(ss) + last == last;
  }

  /** A chunk in which nothing repeats can only be framed raw, by whatever compressor. */
  lemma OnlyRaw(frame: seq<byte>, raw: seq<byte>)
    requires IsFrame(frame, raw) && NoRepeat(raw)
    ensures frame == RawFrame(raw)
  {
    forall block: seq<byte> | Lz4Compressor.Encodes(block, raw)
      ensures |block| > |raw|
    {
      NoBlock(block, raw);
    }
  }

  lemma NoMatch(ss: Lz4Format.Sequences, last: seq<byte>)
    requires Lz4Format.Valid(ss) && NoRepeat(Lz4Format.Expand(ss) + last)
    ensures ss.Empty?
  {
    if ss.Append? {
      MatchRepeats(ss, last);
    }
  }

  /** Bytes that count in groups of three, each closed by a 255. */
  function Counting(n: nat): (s: seq<byte>)
    requires n <= 195075
    ensures |s| == n
  {
    seq(n, i requires 0 <= i < n => CountingAt(i))
  }

  function CountingAt(i: nat): byte
    requires i < 195075
  {
    if i % 3 == 2 then 255 else if i % 3 == 0 then i / 3 / 255 else i / 3 % 255
  }

  lemma CountingGroup(g: nat)
    requires g < 65025
    ensures CountingAt(3 * g) == g / 255 && CountingAt(3 * g + 1) == g % 255
  {
    assert (3 * g) % 3 == 0 && (3 * g + 1) % 3 == 1;
    assert (3 * g) / 3 == (3 * g + 1) / 3 == g;
  }

  lemma GroupsDiffer(a: nat, b: nat) returns (d: nat)
    requires a < b < 65025
    ensures d < 2 && CountingAt(3 * a + d) != CountingAt(3 * b + d)
  {
    CountingGroup(a);
    CountingGroup(b);
    d := if a / 255 != b / 255 then 0 else 1;
  }

  /** Four bytes in a row tell where they are. */
  lemma CountingTells(i: nat, k: nat) returns (j: nat)
    requires i < k && k + 3 < 195075
    ensures j < 4 && CountingAt(i + j) != CountingAt(k + j)
  {
    var r := i % 3;
    if k % 3 != r {
      j := 2 - r;
      assert (i + j) % 3 == 2 && (k + j) % 3 != 2;
    } else if r == 0 {
      j := GroupsDiffer(i / 3, k / 3);
    } else {
      var d := GroupsDiffer(i / 3 + 1, k / 3 + 1);
      j := 3 - r + d;
      assert i + j == 3 * (i / 3 + 1) + d && k + j == 3 * (k / 3 + 1) + d;
    }
  }

  lemma CountingHasNoRepeat(n: nat)
    requires n <= 195075
    ensures NoRepeat(Counting(n))
  {
    forall i: nat, k: nat
      ensures !RepeatsAt(Counting(n), i, k)
    {
      if i < k && k + 4 <= n {
        var j := CountingTells(i, k);
        DiffersAt(Counting(n), i, k, j);
      }
    }
  }

  lemma DiffersAt(s: seq<byte>, i: nat, k: nat, j: nat)
    requires i < k && k + 4 <= |s| && j < 4 && s[i + j] != s[k + j]
    ensures !RepeatsAt(s, i, k)
  {
    assert s[i..i + 4][j] == s[i + j] && s[k..k + 4][j] == s[k + j];
  }

  /** The first part of such a value keeps compression on. */
  lemma FirstStaysOn(sum: Sum, w: Writer, key: seq<byte>, chunk: seq<byte>, size: nat)
    requires 0 < |chunk| <= size && 65536 <= size < 131072
    ensures var put := PutStep(sum, true, w, key, chunk, 0, size, RawFrame(chunk));
            && put.Accepted? && put.writer.enabled && put.writer.compressed == |chunk| + HEADER
            && put.part.chunk == RawFrame(chunk) && put.part.offset == 0
  {
    MustDisableMeans(0, |chunk|, 0, size, |chunk| + HEADER);
  }

  /** The last part switches it off. */
  lemma LastSwitchesOff(sum: Sum, w: Writer, key: seq<byte>, chunk: seq<byte>, offset: nat, size: nat)
    requires 0 < offset && 0 < |chunk| && offset + |chunk| == size && 65536 <= size < 131072
    requires w.enabled && w.compressed == offset + HEADER
    ensures var put := PutStep(sum, true, w, key, chunk, offset, size, RawFrame(chunk));
            && put.Accepted? && put.part.offset + |put.part.chunk| == size + 2 * HEADER
            && put.part.sizeCompressed == size + HEADER
  {
    MustDisableMeans(offset + HEADER, |chunk|, offset, size, |chunk| + HEADER);
  }

  /**
   * The recorded size can be short, whatever the compressor: in every run that puts a value of 64 KB or
   * more, and less than 128 KB, in two parts in which nothing repeats.
   */
  lemma RecordedSizeCanBeShort(sum: Sum, key: seq<byte>, size: nat, writers: seq<Writer>, one: seq<byte>,
                               two: seq<byte>, frames: seq<seq<byte>>, parts: seq<Part>)
    requires Composes(sum) && IsRun(sum, true, key, size, writers, [one, two], frames, parts)
    requires 65536 <= |one| + |two| == size < 131072 && NoRepeat(one) && NoRepeat(two)
    ensures parts[1].offset + |parts[1].chunk| == size + 2 * HEADER && parts[1].sizeCompressed == size + HEADER
    ensures parts[0].offset == 0 && parts[0].chunk == RawFrame(one)
  {
    var pieces := [one, two];
    TwoPieces(one, two);
    assert StepAt(sum, true, key, size, writers, pieces, frames, parts, 0);
    assert StepAt(sum, true, key, size, writers, pieces, frames, parts, 1);
    TwoPuts(sum, writers[0], writers[1], writers[2], key, one, two, size, frames[0], frames[1], parts[0], parts[1]);
  }

  lemma TwoPuts(sum: Sum, w0: Writer, w1: Writer, w2: Writer, key: seq<byte>, one: seq<byte>, two: seq<byte>, size: nat,
                frame1: seq<byte>, frame2: seq<byte>, part1: Part, part2: Part)
    requires IsPart(true, one, frame1, 0, size) && IsPart(true, two, frame2, |one|, size)
    requires 65536 <= |one| + |two| == size < 131072 && NoRepeat(one) && NoRepeat(two)
    requires PutStep(sum, true, w0, key, one, 0, size, frame1) == Accepted(w1, part1)
    requires PutStep(sum, true, w1, key, two, |one|, size, frame2) == Accepted(w2, part2)
    ensures part1.offset == 0 && part1.chunk == RawFrame(one)
    ensures part2.offset + |part2.chunk| == size + 2 * HEADER && part2.sizeCompressed == size + HEADER
  {
    OnlyRaw(frame1, one);
    OnlyRaw(frame2, two);
    FirstStaysOn(sum, w0, key, one, size);
    LastSwitchesOff(sum, w1, key, two, |one|, size);
  }

  /** So the second part switches compression off late. */
  lemma SecondIsLate(sum: Sum, key: seq<byte>, size: nat, writers: seq<Writer>, one: seq<byte>, two: seq<byte>,
                     frames: seq<seq<byte>>, parts: seq<Part>)
    requires Composes(sum) && IsRun(sum, true, key, size, writers, [one, two], frames, parts)
    requires 65536 <= |one| + |two| == size < 131072 && NoRepeat(one) && NoRepeat(two)
    ensures SwitchesLate(writers, frames, size, 1) && parts[0].offset == 0 && parts[0].chunk == RawFrame(one)
  {
    TwoPieces(one, two);
    RecordedSizeCanBeShort(sum, key, size, writers, one, two, frames, parts);
    RunRecordsRight(sum, key, size, writers, [one, two], frames, parts);
  }

  /** The first part of a value below 64 KB in which nothing repeats switches compression off. */
  lemma FirstSwitchesOff(sum: Sum, w: Writer, key: seq<byte>, chunk: seq<byte>, size: nat)
    requires 0 < |chunk| <= size < 65536
    ensures var put := PutStep(sum, true, w, key, chunk, 0, size, RawFrame(chunk));
            && put.Accepted? && !put.writer.enabled && put.part.chunk == ZEROS + chunk && put.part.offset == 0
  {
    MustDisableMeans(0, |chunk|, 0, size, |chunk| + HEADER);
  }

  /**
   * A first part can be taken for the whole value, whatever the compressor: in every run that puts less
   * than 64 KB in two parts, the first without repeats and the second of eight bytes.
   */
  lemma FirstCanCountAsLast(sum: Sum, key: seq<byte>, size: nat, writers: seq<Writer>, one: seq<byte>, two: seq<byte>,
                            frames: seq<seq<byte>>, parts: seq<Part>)
    requires Composes(sum) && IsRun(sum, true, key, size, writers, [one, two], frames, parts)
    requires |one| + |two| == size < 65536 && NoRepeat(one) && |two| == HEADER
    ensures IsSelfContained(parts[0]) && parts[0].offset == 0 && parts[0].chunk == ZEROS + one && IsLastPart(parts[1])
  {
    var pieces := [one, two];
    TwoPieces(one, two);
    assert StepAt(sum, true, key, size, writers, pieces, frames, parts, 0);
    OnlyRaw(frames[0], one);
    FirstSwitchesOff(sum, writers[0], key, one, size);
    RunCounts(sum, true, key, size, writers, pieces, frames, parts, 0);
    RunCounts(sum, true, key, size, writers, pieces, frames, parts, 1);
  }

  lemma TwoPieces(one: seq<byte>, two: seq<byte>)
    ensures Concat([one, two][..0]) == [] && Concat([one, two][..1]) == one && Concat([one, two]) == one + two
  {
    assert [one, two][..0] == [] && [one, two][..1] == [one] && [one][..0] == [];
  }

  /** The pieces that PutPart cuts a chunk into, from an offset on. */
  function Cut(chunk: seq<byte>, max: nat, offset: nat): seq<seq<byte>>
    requires 0 < max && offset <= |chunk|
    decreases |chunk| - offset
  {
    if offset == |chunk| then []
    else
      var next := if offset + max < |chunk| then offset + max else |chunk|;
      [chunk[offset..next]] + Cut(chunk, max, next)
  }

  function PiecesOf(chunk: seq<byte>, max: nat, size: nat): seq<seq<byte>>
    requires 0 < max
  {
    if size <= max then [chunk] else Cut(chunk, max, 0)
  }

  function AllPieces(parts: seq<seq<byte>>, max: nat, size: nat): seq<seq<byte>>
    requires 0 < max
    decreases |parts|
  {
    if parts == [] then [] else AllPieces(parts[..|parts| - 1], max, size) + PiecesOf(parts[|parts| - 1], max, size)
  }

  // ----- The writer -----

  /** A chunk as a frame, or, where that leaves too little room for the rest, after a header of zeros. */
  method CompressChunk(chunk: seq<byte>, start: nat, offset: nat, size: nat)
    returns (final: seq<byte>, on: bool, frame: seq<byte>)
    requires 0 < |chunk| <= MAX_PART
    ensures IsFrame(frame, chunk) && |frame| <= HEADER + |chunk|
    ensures on == !MustDisable(start, |chunk|, offset, size, |frame|)
    ensures final == if on then frame else ZEROS + chunk
  {
    var packed := Compress(chunk);
    frame := packed.value;
    final, on := packed.value, true;
    if MustDisable(start, |chunk|, offset, size, |final|) {
      final, on := ZEROS + chunk, false;
    }
  }

  /** The part of PutPartValidSize after a chunk has its place. */
  method FinishPut(sum: Sum, compression: bool, checksum: u32, key: seq<byte>, chunk: seq<byte>, offset: nat, size: nat,
                   p: Placed)
    returns (put: Put)
    ensures put == Finish(sum, compression, checksum, key, chunk, offset, size, p)
  {
    var isFirst, isLast, doCompression := offset == 0, |chunk| + offset == size, compression && chunk != [];
    var recorded := 0;
    if doCompression && isLast {
      if p.writer.enabled {
        recorded := p.writer.compressed;
      } else if isFirst {
        recorded := p.writer.offset;
      } else {
        recorded := p.offset + |chunk|;
      }
    }
    var crc := checksum;
    if isFirst {
      crc := sum(0, key);
    }
    crc := sum(crc, p.chunk);
    if p.offset + |p.chunk| > size + if doCompression then Format.Padding(size) else 0 {
      return OutsideMemory;
    }
    put := Accepted(p.writer.(checksum := crc), Part(p.chunk, p.offset, size, recorded, if isLast then crc else 0));
  }

  class Database {
    const sum: Sum
    const compression: bool
    const maximumPartSize: nat

    var enabled: bool
    var offset: nat
    var compressed: nat
    var checksum: u32

    /** The parts of the current value that went to the write buffer. */
    var stored: seq<Part>
    ghost var writers: seq<Writer>
    ghost var pieces: seq<seq<byte>>
    ghost var frames: seq<seq<byte>>

    constructor (sum: Sum, compression: bool, maximumPartSize: nat)
      ensures this.sum == sum && this.compression == compression && this.maximumPartSize == maximumPartSize
      ensures State() == IDLE
    {
      this.sum, this.compression, this.maximumPartSize := sum, compression, maximumPartSize;
      enabled, offset, compressed, checksum, stored := false, 0, 0, 0, [];
      writers := [];
    }

    /** What was put of the current value is the run of its pieces. */
    ghost predicate Traced(key: seq<byte>, size: nat)
      reads this
    {
      && IsRun(sum, compression, key, size, writers, pieces, frames, stored)
      && writers[|writers| - 1] == State()
    }

    function State(): Writer
      reads this
    {
      Writer(enabled, offset, compressed, checksum)
    }

    /** The part of PutPartValidSize that decides where a chunk goes, and as what bytes. */
    method PlaceChunk(chunk: seq<byte>, offsetChunk: nat, size: nat)
      returns (final: seq<byte>, start: nat, frame: seq<byte>)
      requires compression ==> |chunk| <= MAX_PART
      modifies this`enabled, this`offset, this`compressed, this`checksum
      ensures compression && chunk != [] ==> IsFrame(frame, chunk) && |frame| <= HEADER + |chunk|
      ensures Placed(State(), final, start) == Place(compression, old(State()), chunk, offsetChunk, size, frame)
    {
      frame := RawFrame(chunk);
      if offsetChunk == 0 {
        enabled, offset := true, 0;
      }
      final, start := chunk, offsetChunk;
      if !enabled {
        start := offset;
        offset := offset + |chunk|;
      } else if compression && chunk != [] {
        start := if offsetChunk == 0 then 0 else compressed;
        var on;
        final, on, frame := CompressChunk(chunk, start, offsetChunk, size);
        if on {
          compressed := start + |final|;
        } else {
          compressed := start;
          enabled := false;
          offset := start + |final|;
        }
      }
    }

    /** Database::PutPartValidSize; `frame` is what compressing the chunk gives. */
    method PutPartValidSize(key: seq<byte>, chunk: seq<byte>, offsetChunk: nat, size: nat)
      returns (r: Option<Part>, frame: seq<byte>)
      requires compression ==> |chunk| <= MAX_PART
      modifies this`enabled, this`offset, this`compressed, this`checksum
      ensures compression && chunk != [] ==> IsFrame(frame, chunk) && |frame| <= HEADER + |chunk|
      ensures var put := PutStep(sum, compression, old(State()), key, chunk, offsetChunk, size, frame);
              if put.Accepted? then r == Some(put.part) && State() == put.writer else r == None
    {
      var crc := checksum;
      var final, start;
      final, start, frame := PlaceChunk(chunk, offsetChunk, size);
      var put := FinishPut(sum, compression, crc, key, chunk, offsetChunk, size, Placed(State(), final, start));
      if put.OutsideMemory? {
        return None, frame;
      }
      checksum := put.writer.checksum;
      r := Some(put.part);
    }

    /** Between two parts of a value: the writer tracks what is stored, and has made this run from this first state. */
    ghost predicate After(key: seq<byte>, size: nat, region: array<byte>, st: Stored, first: Writer, ps: seq<seq<byte>>)
      reads this, region
    {
      && Tracks(sum, compression, State(), st, key, size) && st.Bytes() <= region[..]
      && Traced(key, size) && pieces == ps && writers[0] == first && stored != []
    }

    /** Before the part at an offset of a value. */
    ghost predicate Before(key: seq<byte>, size: nat, at: nat, region: array<byte>, st: Stored, first: Writer,
                           ps: seq<seq<byte>>)
      reads this, region
    {
      if at == 0 then st == Start(compression, size) && State() == first && ps == []
      else After(key, size, region, st, first, ps) && |st.Value()| == |Concat(ps)| == at
    }

    method StartRun(key: seq<byte>, size: nat)
      modifies this`stored, this`writers, this`pieces, this`frames
      ensures Traced(key, size) && writers == [State()] && pieces == [] && stored == []
    {
      stored, writers, pieces, frames := [], [State()], [], [];
    }

    /** A part that was put is entered in the run. */
    method EnterRun(key: seq<byte>, chunk: seq<byte>, offsetChunk: nat, size: nat, ghost w: Writer, frame: seq<byte>,
                    part: Part)
      requires IsRun(sum, compression, key, size, writers, pieces, frames, stored) && writers[|writers| - 1] == w
      requires |Concat(pieces)| == offsetChunk && IsPart(compression, chunk, frame, offsetChunk, size)
      requires PutStep(sum, compression, w, key, chunk, offsetChunk, size, frame) == Accepted(State(), part)
      modifies this`stored, this`writers, this`pieces, this`frames
      ensures Traced(key, size) && writers[0] == old(writers[0])
      ensures pieces == old(pieces) + [chunk] && stored == old(stored) + [part]
    {
      RunNext(sum, compression, key, size, writers, pieces, frames, stored, chunk, frame, State(), part);
      stored, writers, pieces, frames := stored + [part], writers + [State()], pieces + [chunk], frames + [frame];
    }

    /** One part is put and written into the space reserved for the value. */
    method PutStored(key: seq<byte>, chunk: seq<byte>, offsetChunk: nat, size: nat, region: array<byte>,
                     ghost st: Stored)
      returns (part: Part, frame: seq<byte>, ghost st': Stored)
      requires Composes(sum) && Reserved(size) < TWO64 && region.Length == Reserved(size)
      requires offsetChunk + |chunk| <= size && (chunk == [] ==> size == 0) && (compression ==> |chunk| <= MAX_PART)
      requires Ready(sum, compression, State(), st, key, size, offsetChunk) && st.Bytes() <= region[..]
      modifies this`enabled, this`offset, this`compressed, this`checksum, region
      ensures Tracks(sum, compression, State(), st', key, size) && st'.Bytes() <= region[..]
      ensures st'.Value() == st.Value() + chunk
      ensures offsetChunk + |chunk| == size ==> Closes(sum, key, part, st, st')
      ensures IsPart(compression, chunk, frame, offsetChunk, size)
      ensures PutStep(sum, compression, old(State()), key, chunk, offsetChunk, size, frame) == Accepted(State(), part)
    {
      ghost var w := State();
      var r;
      r, frame := PutPartValidSize(key, chunk, offsetChunk, size);
      PutKeeps(sum, compression, w, st, key, chunk, offsetChunk, size, frame);
      part := r.value;
      st' := Advance(st, chunk, frame, enabled);
      if offsetChunk + |chunk| == size {
        PutCloses(sum, compression, w, st, key, chunk, offsetChunk, size, frame);
      }
      WriteAt(region, part.offset, part.chunk, st.Bytes());
    }

    /** The same, and the part is entered in the run. */
    method PutOne(key: seq<byte>, chunk: seq<byte>, offsetChunk: nat, size: nat, region: array<byte>, ghost st: Stored,
                  ghost first: Writer, ghost ps: seq<seq<byte>>)
      returns (ghost st': Stored)
      requires Composes(sum) && Reserved(size) < TWO64 && region.Length == Reserved(size)
      requires offsetChunk + |chunk| <= size && (chunk == [] ==> size == 0) && (compression ==> |chunk| <= MAX_PART)
      requires Before(key, size, offsetChunk, region, st, first, ps)
      modifies this, region
      ensures After(key, size, region, st', first, ps + [chunk]) && st'.Value() == st.Value() + chunk
      ensures offsetChunk + |chunk| == size ==> Closes(sum, key, stored[|stored| - 1], st, st')
    {
      if offsetChunk == 0 {
        StartRun(key, size);
        StartIsWellFormed(compression, size);
      }
      ghost var w := State();
      var part, frame;
      part, frame, st' := PutStored(key, chunk, offsetChunk, size, region, st);
      EnterRun(key, chunk, offsetChunk, size, w, frame, part);
    }

    /** Database::PutPart, which cuts a part that may be too large. */
    method PutPart(key: seq<byte>, chunk: seq<byte>, offsetChunk: nat, size: nat, region: array<byte>, ghost st: Stored,
                   ghost first: Writer, ghost ps: seq<seq<byte>>)
      returns (ok: bool, ghost st1: Stored, ghost st2: Stored)
      requires 0 < maximumPartSize && (compression ==> maximumPartSize <= MAX_PART)
      requires Composes(sum) && Reserved(size) < TWO64 && region.Length == Reserved(size)
      requires (chunk == [] ==> size == 0) && Before(key, size, offsetChunk, region, st, first, ps)
      requires |Concat(ps)| == offsetChunk
      modifies this, region
      ensures ok <==> offsetChunk + |chunk| <= size
      ensures !ok ==> State() == old(State()) && stored == old(stored) && region[..] == old(region[..])
      ensures ok ==> After(key, size, region, st2, first, ps + PiecesOf(chunk, maximumPartSize, size))
      ensures ok ==> st2.Value() == st.Value() + chunk
      ensures ok && offsetChunk + |chunk| == size ==> Closes(sum, key, stored[|stored| - 1], st1, st2)
    {
      st1, st2 := st, st;
      if offsetChunk + |chunk| > size {
        return false, st1, st2;
      }
      ok := true;
      if size <= maximumPartSize {
        st2 := PutOne(key, chunk, offsetChunk, size, region, st, first, ps);
        return;
      }
      st1, st2 := PutPieces(key, chunk, offsetChunk, size, region, st, first, ps);
    }

    /** Where a chunk is, after the pieces before an offset of it; `all` are the pieces there will be in the end. */
    ghost predicate ChunkAt(key: seq<byte>, chunk: seq<byte>, offset: nat, offsetChunk: nat, size: nat,
                            region: array<byte>, value: seq<byte>, st1: Stored, st2: Stored, first: Writer,
                            done: seq<seq<byte>>, all: seq<seq<byte>>)
      requires 0 < maximumPartSize && offset <= |chunk|
      reads this, region
    {
      && Before(key, size, offsetChunk + offset, region, st2, first, done) && (offset > 0 ==> stored != [])
      && st2.Value() == value + chunk[..offset] && |Concat(done)| == offsetChunk + offset
      && done + Cut(chunk, maximumPartSize, offset) == all
      && (offset > 0 && offsetChunk + offset == size ==> Closes(sum, key, stored[|stored| - 1], st1, st2))
    }

    /** One piece of a chunk is put. */
    method PutPiece(key: seq<byte>, chunk: seq<byte>, offset: nat, next: nat, offsetChunk: nat, size: nat,
                    region: array<byte>, ghost value: seq<byte>, ghost st1: Stored, ghost st2: Stored,
                    ghost first: Writer, ghost done: seq<seq<byte>>, ghost all: seq<seq<byte>>)
      returns (ghost st': Stored)
      requires 0 < maximumPartSize && (compression ==> maximumPartSize <= MAX_PART) && offset < |chunk|
      requires offsetChunk + |chunk| <= size
      requires next == if offset + maximumPartSize < |chunk| then offset + maximumPartSize else |chunk|
      requires Composes(sum) && Reserved(size) < TWO64 && region.Length == Reserved(size)
      requires ChunkAt(key, chunk, offset, offsetChunk, size, region, value, st1, st2, first, done, all)
      modifies this, region
      ensures ChunkAt(key, chunk, next, offsetChunk, size, region, value, st2, st', first, done + [chunk[offset..next]],
                      all)
    {
      Continue(value, chunk, offset, next);
      CutNext(done, chunk[offset..next], Cut(chunk, maximumPartSize, next));
      st' := PutOne(key, chunk[offset..next], offsetChunk + offset, size, region, st2, first, done);
    }

    method PutPieces(key: seq<byte>, chunk: seq<byte>, offsetChunk: nat, size: nat, region: array<byte>,
                     ghost st: Stored, ghost first: Writer, ghost ps: seq<seq<byte>>)
      returns (ghost st1: Stored, ghost st2: Stored)
      requires 0 < maximumPartSize && (compression ==> maximumPartSize <= MAX_PART) && chunk != []
      requires offsetChunk + |chunk| <= size
      requires Composes(sum) && Reserved(size) < TWO64 && region.Length == Reserved(size)
      requires Before(key, size, offsetChunk, region, st, first, ps) && |Concat(ps)| == offsetChunk
      modifies this, region
      ensures After(key, size, region, st2, first, ps + Cut(chunk, maximumPartSize, 0))
      ensures st2.Value() == st.Value() + chunk
      ensures offsetChunk + |chunk| == size ==> Closes(sum, key, stored[|stored| - 1], st1, st2)
    {
      st1, st2 := st, st;
      var offset := 0;
      ghost var done, all := ps, ps + Cut(chunk, maximumPartSize, 0);
      Continue(st.Value(), chunk, 0, 0);
      while offset < |chunk|
        invariant offset <= |chunk|
        invariant ChunkAt(key, chunk, offset, offsetChunk, size, region, st.Value(), st1, st2, first, done, all)
      {
        var next := if offset + maximumPartSize < |chunk| then offset + maximumPartSize else |chunk|;
        ghost var st' := PutPiece(key, chunk, offset, next, offsetChunk, size, region, st.Value(), st1, st2, first,
                                  done, all);
        st1, st2 := st2, st';
        done := done + [chunk[offset..next]];
        offset := next;
      }
      assert Cut(chunk, maximumPartSize, |chunk|) == [] && done + [] == done;
      assert chunk[..|chunk|] == chunk;
    }

    /** Where a value is after its first i parts. */
    ghost predicate ValueAt(key: seq<byte>, parts: seq<seq<byte>>, i: nat, region: array<byte>, st1: Stored,
                            st2: Stored, first: Writer)
      requires 0 < maximumPartSize && i <= |parts|
      reads this, region
    {
      var size, offset := |Concat(parts)|, |Concat(parts[..i])|;
      var ps := AllPieces(parts[..i], maximumPartSize, size);
      && st2.Value() == Concat(parts[..i]) && |Concat(ps)| == offset
      && (i < |parts| ==> Before(key, size, offset, region, st2, first, ps))
      && (i == |parts| ==> After(key, size, region, st2, first, ps) && Closes(sum, key, stored[|stored| - 1], st1, st2))
    }

    /** One part of a value is put. */
    method PutPartOf(key: seq<byte>, parts: seq<seq<byte>>, i: nat, offset: nat, size: nat, region: array<byte>,
                     ghost st1: Stored, ghost st2: Stored, ghost first: Writer)
      returns (next: nat, ghost st1': Stored, ghost st2': Stored)
      requires 0 < maximumPartSize && (compression ==> maximumPartSize <= MAX_PART) && Composes(sum)
      requires i < |parts| && (parts[i] != [] || parts == [[]])
      requires size == |Concat(parts)| && Reserved(size) < TWO64 && region.Length == Reserved(size)
      requires offset == |Concat(parts[..i])| && ValueAt(key, parts, i, region, st1, st2, first)
      modifies this, region
      ensures next == |Concat(parts[..i + 1])| && ValueAt(key, parts, i + 1, region, st1', st2', first)
    {
      ConcatNext(parts, i);
      next := offset + |parts[i]|;
      AllPiecesNext(parts, i, maximumPartSize, size);
      var ok;
      ok, st1', st2' := PutPart(key, parts[i], offset, size, region, st2, first,
                                AllPieces(parts[..i], maximumPartSize, size));
    }

    lemma ValueStarts(key: seq<byte>, parts: seq<seq<byte>>, region: array<byte>, st: Stored)
      requires 0 < maximumPartSize && parts != [] && st == Start(compression, |Concat(parts)|)
      ensures ValueAt(key, parts, 0, region, st, st, State()) && parts[..0] == []
    {
      StartIsWellFormed(compression, |Concat(parts)|);
      assert parts[..0] == [];
    }

    lemma ValueEnds(key: seq<byte>, parts: seq<seq<byte>>, region: array<byte>, st1: Stored, st2: Stored, first: Writer)
      requires 0 < maximumPartSize && ValueAt(key, parts, |parts|, region, st1, st2, first)
      ensures After(key, |Concat(parts)|, region, st2, first, AllPieces(parts, maximumPartSize, |Concat(parts)|))
      ensures st2.Value() == Concat(parts) && Closes(sum, key, stored[|stored| - 1], st1, st2)
    {
      assert parts[..|parts|] == parts;
    }

    /** MultipartWriter: a value put part by part. */
    method PutValue(key: seq<byte>, parts: seq<seq<byte>>, region: array<byte>)
      returns (ghost st1: Stored, ghost st2: Stored)
      requires 0 < maximumPartSize && (compression ==> maximumPartSize <= MAX_PART) && Composes(sum)
      requires parts != [] && forall i :: 0 <= i < |parts| ==> parts[i] != [] || parts == [[]]
      requires Reserved(|Concat(parts)|) < TWO64 && region.Length == Reserved(|Concat(parts)|)
      modifies this, region
      ensures After(key, |Concat(parts)|, region, st2, old(State()), AllPieces(parts, maximumPartSize, |Concat(parts)|))
      ensures st2.Value() == Concat(parts) && Closes(sum, key, stored[|stored| - 1], st1, st2)
    {
      var size := |Concat(parts)|;
      var i, offset := 0, 0;
      ghost var first := State();
      st1, st2 := Start(compression, size), Start(compression, size);
      ValueStarts(key, parts, region, st1);
      while i < |parts|
        invariant 0 <= i <= |parts| && offset == |Concat(parts[..i])|
        invariant ValueAt(key, parts, i, region, st1, st2, first)
      {
        offset, st1, st2 := PutPartOf(key, parts, i, offset, size, region, st1, st2, first);
        i := i + 1;
      }
      ValueEnds(key, parts, region, st1, st2, first);
    }
  }

  // ----- Whole values -----

  lemma CutNext(done: seq<seq<byte>>, piece: seq<byte>, rest: seq<seq<byte>>)
    ensures done + ([piece] + rest) == (done + [piece]) + rest
    ensures Concat(done + [piece]) == Concat(done) + piece
  {
    ConcatSnoc(done, piece);
  }

  lemma RestOf(pre: seq<byte>, chunk: seq<byte>, offset: nat, next: nat)
    requires offset <= next <= |chunk|
    ensures (pre + chunk[offset..next]) + chunk[next..] == pre + chunk[offset..]
  {}

  lemma {:induction false} CutConcat(chunk: seq<byte>, max: nat, offset: nat, base: seq<seq<byte>>)
    requires 0 < max && offset <= |chunk|
    ensures Concat(base + Cut(chunk, max, offset)) == Concat(base) + chunk[offset..]
    decreases |chunk| - offset
  {
    if offset == |chunk| {
      assert base + [] == base && chunk[offset..] == [];
    } else {
      var next := if offset + max < |chunk| then offset + max else |chunk|;
      CutNext(base, chunk[offset..next], Cut(chunk, max, next));
      CutConcat(chunk, max, next, base + [chunk[offset..next]]);
      RestOf(Concat(base), chunk, offset, next);
    }
  }

  /** The pieces of one more part: together they are the part. */
  lemma AllPiecesNext(parts: seq<seq<byte>>, i: nat, max: nat, size: nat)
    requires 0 < max && i < |parts|
    ensures AllPieces(parts[..i + 1], max, size) == AllPieces(parts[..i], max, size) + PiecesOf(parts[i], max, size)
    ensures Concat(AllPieces(parts[..i + 1], max, size)) == Concat(AllPieces(parts[..i], max, size)) + parts[i]
  {
    assert parts[..i + 1][..i] == parts[..i];
    var before := AllPieces(parts[..i], max, size);
    if size <= max {
      ConcatSnoc(before, parts[i]);
    } else {
      CutConcat(parts[i], max, 0, before);
      assert parts[i][0..] == parts[i];
    }
  }

  lemma ConcatNext(parts: seq<seq<byte>>, i: nat)
    requires i < |parts|
    ensures Concat(parts[..i + 1]) == Concat(parts[..i]) + parts[i]
    ensures |Concat(parts[..i])| + |parts[i]| <= |Concat(parts)|
    ensures i + 1 == |parts| ==> parts[..i + 1] == parts
  {
    PieceAt(parts, i);
  }

  lemma Continue(value: seq<byte>, chunk: seq<byte>, a: nat, b: nat)
    requires a <= b <= |chunk|
    ensures (value + chunk[..a]) + chunk[a..b] == value + chunk[..b]
    ensures b == 0 ==> value + chunk[..b] == value
    ensures b == |chunk| ==> chunk[..b] == chunk
  {}

  /** A part written right after what is there. */
  method WriteAt(region: array<byte>, start: nat, chunk: seq<byte>, ghost before: seq<byte>)
    requires start == |before| && start + |chunk| <= region.Length && before <= region[..]
    modifies region
    ensures before + chunk <= region[..]
  {
    assert region[..start] == before;
    forall i | 0 <= i < |chunk| {
      region[start + i] := chunk[i];
    }
    assert region[..start] == before && region[start..start + |chunk|] == chunk;
  }

  /** What the last part of a value records of the whole. */
  ghost predicate Closes(sum: Sum, key: seq<byte>, part: Part, st: Stored, st': Stored)
  {
    && part.offset + |part.chunk| == |st'.Bytes()| && part.checksum == sum(sum(0, key), st'.Bytes())
    && part.sizeCompressed == RecordedFor(st, st')
    && (SwitchedAtEnd(st, st') ==> |part.chunk| == HEADER + |st'.tail| > HEADER)
  }

  ghost function RecordedFor(st: Stored, st': Stored): int
  {
    if st'.mode.Plain? then 0
    else if SwitchedAtEnd(st, st') then |st'.Bytes()| - HEADER
    else |st'.Bytes()|
  }

  lemma PutCloses(sum: Sum, compression: bool, w: Writer, st: Stored, key: seq<byte>, chunk: seq<byte>, offset: nat,
                  size: nat, frame: seq<byte>)
    requires Composes(sum) && IsPart(compression, chunk, frame, offset, size) && offset + |chunk| == size
    requires Ready(sum, compression, w, st, key, size, offset)
    ensures var put := PutStep(sum, compression, w, key, chunk, offset, size, frame);
            put.Accepted? && Closes(sum, key, put.part, st, Advance(st, chunk, frame, put.writer.enabled))
  {
    PutKeeps(sum, compression, w, st, key, chunk, offset, size, frame);
    if compression && size > 0 {
      RecordedSize(sum, compression, w, st, key, chunk, offset, size, frame);
    }
  }

  lemma {:induction false} StreamedIsSum(sum: Sum, crc: u32, parts: seq<seq<byte>>)
    requires Composes(sum)
    ensures Streamed(sum, crc, parts) == sum(crc, Concat(parts))
    decreases |parts|
  {
    if parts == [] {
      assert Joins(sum, crc, [], []);
    } else {
      var n := |parts| - 1;
      StreamedIsSum(sum, crc, parts[..n]);
      assert Joins(sum, crc, Concat(parts[..n]), parts[n]);
    }
  }

  /** CRC-32C is such a checksum. */
  lemma CrcComposes()
    ensures Composes(Crc32c.Extended)
  {
    forall c: u32, a, b
      ensures Joins(Crc32c.Extended, c, a, b)
    {
      Crc32c.StreamedIsExtended(c, []);
      Crc32c.ExtendConcat(c, a, b);
    }
  }

  lemma CrcInjective()
    ensures Injective(Crc32c.Extended)
  {
    forall c: u32, d: u32, s: seq<byte> | Crc32c.Extended(c, s) == Crc32c.Extended(d, s)
      ensures c == d
    {
      Crc32c.ExtendInjective(c, d, s);
    }
  }

  /**
   * Verification in one piece can refuse what is right, whatever the compressor: of two values of one
   * byte each, under the same key, it does so with at least one.
   */
  lemma OnePieceCanRefuse(initial: u32, x: byte, y: byte, a: Stored, b: Stored)
    requires x != y && a.WellFormed() && b.WellFormed() && a.mode.Framed? && b.mode.Framed?
    requires a.raws == [[x]] && b.raws == [[y]]
    ensures var sum := Crc32c.Extended;
            || OnePieceStatus(sum, a, initial, Streamed(sum, initial, a.frames), true) == IOError
            || OnePieceStatus(sum, b, initial, Streamed(sum, initial, b.frames), true) == IOError
  {
    CrcInjective();
    assert a.Legal(0) && b.Legal(0);
    OnlyRaw(a.frames[0], [x]);
    OnlyRaw(b.frames[0], [y]);
    OneFrameVerifies(Crc32c.Extended, a, initial);
    OneFrameVerifies(Crc32c.Extended, b, initial);
    RawFramesDiffer(initial, x, y);
  }

  lemma RawFramesDiffer(c: u32, x: byte, y: byte)
    requires x != y
    ensures Crc32c.Extended(c, RawFrame([x])) != Crc32c.Extended(c, RawFrame([y]))
  {
    var head := RawFrame([x])[..HEADER];
    assert RawFrame([x]) == head + [x] && RawFrame([y]) == head + [y];
    if Crc32c.Extended(c, RawFrame([x])) == Crc32c.Extended(c, RawFrame([y])) {
      Crc32c.LastByteTells(c, head, x, y);
    }
  }

  lemma BytesPositive(st: Stored)
    requires st.WellFormed()
    ensures st.Value() != [] ==> st.Bytes() != []
    ensures st.mode.Plain? ==> st.Value() == st.tail
  {
    if st.mode.Framed? && st.Value() != [] {
      assert st.Legal(|st.frames| - 1);
    }
  }

  const IDLE := Writer(false, 0, 0, 0)

  lemma TwoWholePieces(one: seq<byte>, two: seq<byte>, max: nat, size: nat)
    requires size <= max && 0 < max
    ensures AllPieces([one, two], max, size) == [one, two] && Concat([one, two]) == one + two
  {
    TwoPieces(one, two);
    assert [one, two][..1] == [one] && [one][..0] == [];
    assert AllPieces([one], max, size) == [one];
  }
}
