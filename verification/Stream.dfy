/**
 * Values stored in parts, with compression that a value may lose on the way: the frames of
 * CompressorLZ4, what is stored in the end, and the reader of MultipartReader.
 */
module Stream {
  import opened Bytes
  import opened Words
  import opened Coding
  import Lz4Compressor
  import Lz4Parse
  import Lz4Decoder

  const HEADER := 8
  const MAX_PART := Lz4Compressor.MAX_INPUT_SIZE
  const ZEROS: seq<byte> := [0, 0, 0, 0, 0, 0, 0, 0]

  // ----- Frames -----

  function RawFrame(raw: seq<byte>): (frame: seq<byte>)
    ensures |frame| == HEADER + |raw|
  {
    Fixed(0, 4) + Fixed(|raw|, 4) + raw
  }

  function BlockFrame(block: seq<byte>, raw: seq<byte>): (frame: seq<byte>)
    ensures |frame| == HEADER + |block|
  {
    Fixed(HEADER + |block|, 4) + Fixed(|raw|, 4) + block
  }

  ghost predicate IsBlockFrame(frame: seq<byte>, block: seq<byte>, raw: seq<byte>)
  {
    frame == BlockFrame(block, raw) && Lz4Compressor.Encodes(block, raw) && |block| <= |raw|
  }

  /** A frame holds a block no longer than the raw bytes, or else the raw bytes. */
  ghost predicate IsFrame(frame: seq<byte>, raw: seq<byte>)
  {
    && 0 < |raw| <= MAX_PART
    && (frame == RawFrame(raw) || exists block: seq<byte> :: IsBlockFrame(frame, block, raw))
  }

  /** The frame that compression gives: the block that LZ4 makes, unless it is longer than the raw bytes. */
  ghost predicate FramedAs(frame: seq<byte>, block: seq<byte>, raw: seq<byte>)
  {
    && Lz4Compressor.IsBlockOf(block, Lz4Parse.Parse(raw, Lz4Compressor.TableFor(|raw|)), raw)
    && frame == if |block| > |raw| then RawFrame(raw) else BlockFrame(block, raw)
  }

  /** CompressorLZ4::Compress, without its count of the bytes produced. */
  method Compress(source: seq<byte>) returns (r: Option<seq<byte>>)
    ensures r.Some? <==> |source| <= MAX_PART
    ensures r.Some? && source != [] ==> IsFrame(r.value, source) && |r.value| <= |source| + HEADER
    ensures source == [] ==> r == Some(RawFrame([]))
    ensures r.Some? ==> exists block: seq<byte> :: FramedAs(r.value, block, source)
  {
    var bound := Lz4Compressor.CompressBound(|source|);
    var dest := new byte[bound](_ => 0);
    var ret := Lz4Compressor.CompressLimitedOutput(source, dest, bound);
    if ret <= 0 {
      return None;
    }
    var block := dest[..ret];
    if ret > |source| {
      assert FramedAs(RawFrame(source), block, source);
      return Some(RawFrame(source));
    }
    r := Some(BlockFrame(block, source));
    assert IsBlockFrame(r.value, block, source) && FramedAs(r.value, block, source);
  }

  /** HasFrameHeaderDisabledCompression. */
  predicate IsDisabled(data: seq<byte>, p: nat)
    requires p + HEADER <= |data|
  {
    data[p..p + HEADER] == ZEROS
  }

  function SizeCompressed(data: seq<byte>, p: nat): nat
    requires p + HEADER <= |data|
  {
    LittleEndian(data[p..p + 4])
  }

  function SizeSource(data: seq<byte>, p: nat): nat
    requires p + HEADER <= |data|
  {
    LittleEndian(data[p + 4..p + HEADER])
  }

  function FrameSize(data: seq<byte>, p: nat): nat
    requires p + HEADER <= |data|
  {
    if SizeCompressed(data, p) > 0 then SizeCompressed(data, p) else HEADER + SizeSource(data, p)
  }

  /** The sizes in a frame header stay inside the data, and the block can be read from. */
  predicate FrameReadable(data: seq<byte>, p: nat)
  {
    && p + HEADER <= |data|
    && HEADER <= FrameSize(data, p) <= |data| - p
    && (SizeCompressed(data, p) > 0 ==> Lz4Decoder.Readable(data[p + HEADER..p + FrameSize(data, p)], 0))
  }

  datatype Unframed = Raw(bytes: seq<byte>) | Corrupt | Unspecified

  /** What a frame stands for. */
  function Unframe(data: seq<byte>, p: nat): Unframed
    requires FrameReadable(data, p)
  {
    var block := data[p + HEADER..p + FrameSize(data, p)];
    if SizeCompressed(data, p) == 0 then Raw(block)
    else
      match Lz4Decoder.Decode(block, SizeSource(data, p), SizeSource(data, p))
      case Decoded(out) => if out == [] then Corrupt else Raw(out)
      case Malformed(_) => Corrupt
      case OffsetZero => Unspecified
  }

  datatype Status = OK | Done | IOError

  /** CompressorLZ4::Uncompress of the frame at an offset. */
  method Uncompress(source: seq<byte>, offset: nat, total: nat) returns (status: Status, dest: seq<byte>, size: nat)
    requires offset != total ==> FrameReadable(source, offset)
    ensures offset == total ==> status.Done?
    ensures offset != total && Unframe(source, offset).Corrupt? ==> status.IOError?
    ensures offset != total && Unframe(source, offset).Raw? ==>
              status.OK? && dest == Unframe(source, offset).bytes && size == FrameSize(source, offset)
  {
    dest, size := [], 0;
    if offset == total {
      return Done, dest, size;
    }
    var sizeSource := SizeSource(source, offset);
    size := FrameSize(source, offset);
    var block := source[offset + HEADER..offset + size];
    if SizeCompressed(source, offset) == 0 {
      return OK, block, size;
    }
    var out := new byte[sizeSource](_ => 0);
    var ret := Lz4Decoder.DecompressSafePartial(block, out, sizeSource, sizeSource);
    if ret <= 0 || ret > sizeSource {
      return IOError, dest, size;
    }
    return OK, out[..ret], size;
  }

  lemma DisabledIsEmpty(data: seq<byte>, p: nat)
    requires p + HEADER <= |data| && IsDisabled(data, p)
    ensures SizeSource(data, p) == 0
  {
    assert data[p + 4..p + HEADER] == data[p..p + HEADER][4..] == ZEROS[4..];
    ZerosReadZero(data[p + 4..p + HEADER]);
  }

  lemma {:induction false} ZerosReadZero(s: seq<byte>)
    requires forall i :: 0 <= i < |s| ==> s[i] == 0
    ensures LittleEndian(s) == 0
    decreases |s|
  {
    if s != [] {
      ZerosReadZero(s[1..]);
    }
  }

  /** The parts of a frame, found where it stands. */
  lemma HeaderReads(data: seq<byte>, p: nat, sizes: (seq<byte>, seq<byte>), body: seq<byte>)
    requires |sizes.0| == |sizes.1| == 4 && p + HEADER + |body| <= |data|
    requires data[p..p + HEADER + |body|] == sizes.0 + sizes.1 + body
    ensures SizeCompressed(data, p) == LittleEndian(sizes.0) && SizeSource(data, p) == LittleEndian(sizes.1)
    ensures data[p + HEADER..p + HEADER + |body|] == body
  {
    Split3(data, p, p + HEADER + |body|, sizes.0, sizes.1, body);
  }

  lemma RawFrameReads(data: seq<byte>, p: nat, raw: seq<byte>)
    requires 0 < |raw| <= MAX_PART
    requires p + HEADER + |raw| <= |data| && data[p..p + HEADER + |raw|] == RawFrame(raw)
    ensures SizeCompressed(data, p) == 0 && SizeSource(data, p) == |raw|
    ensures data[p + HEADER..p + HEADER + |raw|] == raw
  {
    Fixed32Reads(0);
    Fixed32Reads(|raw|);
    HeaderReads(data, p, (Fixed(0, 4), Fixed(|raw|, 4)), raw);
  }

  lemma BlockFrameReads(data: seq<byte>, p: nat, block: seq<byte>, raw: seq<byte>)
    requires |block| <= |raw| <= MAX_PART
    requires p + HEADER + |block| <= |data| && data[p..p + HEADER + |block|] == BlockFrame(block, raw)
    ensures SizeCompressed(data, p) == HEADER + |block| && SizeSource(data, p) == |raw|
    ensures data[p + HEADER..p + HEADER + |block|] == block
  {
    Fixed32Reads(HEADER + |block|);
    Fixed32Reads(|raw|);
    HeaderReads(data, p, (Fixed(HEADER + |block|, 4), Fixed(|raw|, 4)), block);
  }

  /** A frame for some raw bytes stands at p, and is not a switch-off. */
  ghost predicate FrameAt(data: seq<byte>, p: nat, frame: seq<byte>, raw: seq<byte>)
  {
    && HEADER < |frame| <= |data| - p && data[p..p + |frame|] == frame
    && FrameReadable(data, p) && FrameSize(data, p) == |frame| && Unframe(data, p) == Raw(raw)
    && !IsDisabled(data, p)
  }

  lemma RawFrameAt(data: seq<byte>, p: nat, raw: seq<byte>)
    requires 0 < |raw| <= MAX_PART
    requires p + HEADER + |raw| <= |data| && data[p..p + HEADER + |raw|] == RawFrame(raw)
    ensures FrameAt(data, p, RawFrame(raw), raw)
  {
    RawFrameReads(data, p, raw);
    if IsDisabled(data, p) {
      DisabledIsEmpty(data, p);
    }
  }

  lemma BlockUnframes(data: seq<byte>, p: nat, block: seq<byte>, raw: seq<byte>)
    requires raw != [] && Lz4Compressor.Encodes(block, raw) && p + HEADER + |block| <= |data|
    requires SizeCompressed(data, p) == HEADER + |block| && SizeSource(data, p) == |raw|
    requires data[p + HEADER..p + HEADER + |block|] == block
    ensures FrameReadable(data, p) && FrameSize(data, p) == HEADER + |block| && Unframe(data, p) == Raw(raw)
  {
    Lz4Compressor.EncodesDecodes(block, raw);
  }

  lemma BlockFrameAt(data: seq<byte>, p: nat, block: seq<byte>, raw: seq<byte>)
    requires |block| <= |raw| <= MAX_PART && raw != [] && Lz4Compressor.Encodes(block, raw)
    requires p + HEADER + |block| <= |data| && data[p..p + HEADER + |block|] == BlockFrame(block, raw)
    ensures FrameAt(data, p, BlockFrame(block, raw), raw)
  {
    BlockFrameReads(data, p, block, raw);
    BlockUnframes(data, p, block, raw);
    if IsDisabled(data, p) {
      DisabledIsEmpty(data, p);
    }
  }

  /** A frame reads back as the bytes it was made of, wherever it stands. */
  lemma FrameReads(data: seq<byte>, p: nat, frame: seq<byte>, raw: seq<byte>)
    requires IsFrame(frame, raw) && p + |frame| <= |data| && data[p..p + |frame|] == frame
    ensures FrameAt(data, p, frame, raw)
  {
    if frame == RawFrame(raw) {
      RawFrameAt(data, p, raw);
    } else {
      var block: seq<byte> :| IsBlockFrame(frame, block, raw);
      BlockFrameAt(data, p, block, raw);
    }
  }

  // ----- What is stored for a value -----

  /** Frames only, frames up to a switch-off, or no compression at all. */
  datatype Mode = Framed | SwitchedOff | Plain

  datatype Stored = Stored(frames: seq<seq<byte>>, raws: seq<seq<byte>>, mode: Mode, tail: seq<byte>)
  {
    /** The bytes laid down: after a switch-off, a header of zeros and the rest of the value as it is. */
    function Bytes(): seq<byte>
    {
      match mode
      case Framed => Concat(frames)
      case SwitchedOff => Concat(frames) + ZEROS + tail
      case Plain => tail
    }

    function Value(): seq<byte>
    {
      Concat(raws) + tail
    }

    ghost predicate Legal(i: nat)
    {
      i < |frames| && i < |raws| && IsFrame(frames[i], raws[i])
    }

    ghost predicate WellFormed()
    {
      && |frames| == |raws|
      && (forall i :: 0 <= i < |frames| ==> Legal(i))
      && (mode.Framed? ==> tail == [])
      && (mode.Plain? ==> frames == [])
    }
  }

  /** The k-th frame is found in the stored bytes, right after the frames before it. */
  lemma FrameFound(data: seq<byte>, st: Stored, k: nat)
    requires st.WellFormed() && !st.mode.Plain? && st.Bytes() <= data && k < |st.frames|
    ensures FrameAt(data, |Concat(st.frames[..k])|, st.frames[k], st.raws[k])
    ensures |Concat(st.frames[..k])| + |st.frames[k]| <= |st.Bytes()|
    ensures Concat(st.frames[..k + 1]) == Concat(st.frames[..k]) + st.frames[k]
  {
    PieceAt(st.frames, k);
    var p, frame := |Concat(st.frames[..k])|, st.frames[k];
    PrefixSlice(Concat(st.frames), data, p, p + |frame|);
    assert st.Legal(k);
    FrameReads(data, p, frame, st.raws[k]);
  }

  lemma PrefixSlice(a: seq<byte>, b: seq<byte>, lo: nat, hi: nat)
    requires a <= b && lo <= hi <= |a|
    ensures b[lo..hi] == a[lo..hi]
  {}

  /** After the last frame stands the header of zeros, and then the rest of the value. */
  lemma TailFound(data: seq<byte>, st: Stored)
    requires st.WellFormed() && st.mode.SwitchedOff? && st.Bytes() <= data
    ensures var p := |Concat(st.frames)|;
            && p + HEADER + |st.tail| == |st.Bytes()| <= |data| && IsDisabled(data, p)
            && data[p + HEADER..p + HEADER + |st.tail|] == st.tail
  {
    var p := |Concat(st.frames)|;
    assert data[0..|st.Bytes()|] == Concat(st.frames) + ZEROS + st.tail;
    Split3(data, 0, |st.Bytes()|, Concat(st.frames), ZEROS, st.tail);
  }

  // ----- The reader -----

  /** After k pieces comes another. */
  ghost predicate GoesOn(pieces: seq<seq<byte>>, k: nat, piece: seq<byte>)
    requires k < |pieces|
  {
    Concat(pieces[..k + 1]) == Concat(pieces[..k]) + piece
  }

  /** Uncompressing the k-th frame, after the frames before it. */
  method ReadFrame(data: seq<byte>, p: nat, total: nat, ghost st: Stored, ghost k: nat)
    returns (out: seq<byte>, n: nat, frame: seq<byte>)
    requires st.WellFormed() && !st.mode.Plain? && st.Bytes() <= data && total == |st.Bytes()|
    requires k < |st.frames| && p == |Concat(st.frames[..k])|
    ensures out == st.raws[k] != [] && frame == st.frames[k] && 0 < n == |frame| <= total - p
    ensures GoesOn(st.frames, k, frame) && GoesOn(st.raws, k, out)
  {
    FrameFound(data, st, k);
    PieceAt(st.raws, k);
    var status;
    status, out, n := Uncompress(data, p, total);
    frame := data[p..p + n];
  }

  const STEP := 1024 * 1024

  /** A checksum that is extended by one string after another, as CRC32::stream does. */
  type Sum = (u32, seq<byte>) -> u32

  lemma StreamedNext(sum: Sum, crc: u32, parts: seq<seq<byte>>, k: nat)
    requires k < |parts|
    ensures Streamed(sum, crc, parts[..k + 1]) == sum(Streamed(sum, crc, parts[..k]), parts[k])
  {
    assert parts[..k + 1][..k] == parts[..k];
  }

  /** MultipartReader. Its checksums are kept as functions of the bytes streamed into them. */
  class Reader {
    const data: seq<byte>
    const size: nat
    const sizeCompressed: nat
    const checksumStored: u32
    const checksumInitial: u32
    const verify: bool
    const sum: Sum

    var offsetOutput: nat
    var disabled: bool
    var uncompressed: nat
    var checksum: u32
    var status: Status
    var chunk: seq<byte>
    var valid: bool

    /** The frames read so far, and the parts handed out so far. */
    ghost var k: nat
    ghost var delivered: seq<byte>

    constructor (data: seq<byte>, size: nat, sizeCompressed: nat, checksumStored: u32, checksumInitial: u32,
                 verify: bool, sum: Sum)
      ensures this.data == data && this.size == size && this.sizeCompressed == sizeCompressed
      ensures this.checksumStored == checksumStored && this.checksumInitial == checksumInitial && this.verify == verify
      ensures this.sum == sum
    {
      this.data, this.size, this.sizeCompressed := data, size, sizeCompressed;
      this.checksumStored, this.checksumInitial, this.verify, this.sum := checksumStored, checksumInitial, verify, sum;
      offsetOutput, disabled, uncompressed, checksum, chunk, valid := 0, false, 0, 0, [], false;
      status := OK;
    }

    /** The data holds what is stored, and the recorded sizes tell where it ends. */
    ghost predicate Holds(st: Stored)
    {
      && st.WellFormed() && st.Bytes() <= data
      && (if st.mode.Plain? then sizeCompressed == 0 && size == |st.tail| else sizeCompressed == |st.Bytes()| > 0)
    }

    /** Where the raw part of the data starts. */
    ghost function RawStart(st: Stored): nat
    {
      if st.mode.Plain? then 0 else |Concat(st.frames)| + HEADER
    }

    /** What has been handed out is the value up to where the reader is. */
    ghost predicate InFrames(st: Stored)
      reads this
    {
      && !disabled && !st.mode.Plain? && k <= |st.frames| == |st.raws|
      && offsetOutput == uncompressed == |Concat(st.frames[..k])|
      && delivered == Concat(st.raws[..k])
      && (verify ==> checksum == Streamed(sum, checksumInitial, st.frames[..k]))
    }

    ghost predicate InRaw(st: Stored)
      reads this
    {
      && (if st.mode.Plain? then !disabled else disabled && st.mode.SwitchedOff?)
      && RawStart(st) <= offsetOutput <= RawStart(st) + |st.tail|
      && delivered == Concat(st.raws) + st.tail[..offsetOutput - RawStart(st)]
    }

    ghost predicate At(st: Stored)
      reads this
    {
      InFrames(st) || InRaw(st)
    }

    /** One frame is uncompressed. */
    method NextFrame(ghost st: Stored)
      requires Holds(st) && InFrames(st) && k < |st.frames|
      modifies this
      ensures InFrames(st) && k == old(k) + 1
      ensures status == old(status) && valid == old(valid)
      ensures delivered == old(delivered) + chunk && chunk != []
      ensures old(offsetOutput) < offsetOutput <= sizeCompressed
    {
      var out, n, frame := ReadFrame(data, uncompressed, sizeCompressed, st, k);
      HandOutFrame(out, n, frame, st);
    }

    method HandOutFrame(out: seq<byte>, n: nat, frame: seq<byte>, ghost st: Stored)
      requires InFrames(st) && k < |st.frames| && frame == st.frames[k] && n == |frame|
      requires GoesOn(st.frames, k, frame) && GoesOn(st.raws, k, out)
      modifies this
      ensures InFrames(st) && k == old(k) + 1 && chunk == out && offsetOutput == old(offsetOutput) + n
      ensures status == old(status) && valid == old(valid) && delivered == old(delivered) + chunk
    {
      StreamedNext(sum, checksumInitial, st.frames, k);
      if verify {
        checksum := sum(checksum, frame);
      }
      offsetOutput, uncompressed := offsetOutput + n, uncompressed + n;
      chunk := out;
      delivered := delivered + chunk;
      k := k + 1;
    }

    /** The raw bytes go up to the recorded size. */
    lemma RawHolds(st: Stored)
      requires Holds(st) && !st.mode.Framed?
      ensures var left := if sizeCompressed > 0 then sizeCompressed else size;
              RawStart(st) + |st.tail| == left == |st.Bytes()| <= |data|
      ensures data[RawStart(st)..RawStart(st) + |st.tail|] == st.tail
    {
      if st.mode.SwitchedOff? {
        TailFound(data, st);
      }
    }

    /** One step of the raw bytes, or the end of the stream. */
    method NextRaw(ghost st: Stored)
      requires Holds(st) && InRaw(st) && valid
      modifies this
      ensures InRaw(st)
      ensures if valid then chunk != [] && delivered == old(delivered) + chunk && old(offsetOutput) < offsetOutput
              else delivered == old(delivered) == st.Value()
      ensures status == OK
    {
      RawHolds(st);
      var sizeLeft := if sizeCompressed > 0 then sizeCompressed else size;
      status := OK;
      if offsetOutput == sizeLeft {
        assert st.tail[..|st.tail|] == st.tail;
        valid := false;
        return;
      }
      var sizeCurrent := if offsetOutput + STEP < sizeLeft then STEP else sizeLeft - offsetOutput;
      HandOutRaw(sizeCurrent, st);
    }

    /** The next raw bytes continue what has been handed out. */
    lemma RawContinues(st: Stored, n: nat)
      requires Holds(st) && InRaw(st) && offsetOutput + n <= RawStart(st) + |st.tail|
      ensures offsetOutput + n <= |data|
      ensures delivered + data[offsetOutput..offsetOutput + n]
           == Concat(st.raws) + st.tail[..offsetOutput + n - RawStart(st)]
    {
      RawHolds(st);
      TailPart(data, Concat(st.raws), RawStart(st), st.tail, offsetOutput, n);
    }

    method HandOutRaw(n: nat, ghost st: Stored)
      requires Holds(st) && InRaw(st) && 0 < n && offsetOutput + n <= RawStart(st) + |st.tail|
      modifies this
      ensures InRaw(st) && status == old(status) && valid == old(valid)
      ensures chunk != [] && delivered == old(delivered) + chunk && old(offsetOutput) < offsetOutput
    {
      RawContinues(st, n);
      chunk := data[offsetOutput..offsetOutput + n];
      if verify {
        checksum := sum(checksum, chunk);
      }
      delivered := delivered + chunk;
      offsetOutput := offsetOutput + n;
    }

    /** MultipartReader::Next. */
    method Next(ghost st: Stored)
      requires Holds(st) && At(st) && valid
      modifies this
      ensures At(st)
      ensures if valid then chunk != [] && delivered == old(delivered) + chunk
              && old(offsetOutput) < offsetOutput <= |st.Bytes()|
              else delivered == old(delivered) == st.Value()
      ensures !valid ==> status == Verdict(st)
    {
      if sizeCompressed > 0 && !disabled {
        WhereInFrames(st);
        if uncompressed == sizeCompressed {
          valid := false;
          status := if !verify || checksum == checksumStored then OK else IOError;
          return;
        }
        if IsDisabled(data, offsetOutput) {
          disabled := true;
          if verify {
            checksum := sum(checksum, data[offsetOutput..offsetOutput + HEADER]);
          }
          offsetOutput := offsetOutput + HEADER;
        }
        if !disabled {
          NextFrame(st);
        }
      }
      if sizeCompressed == 0 || disabled {
        RawHolds(st);
        assert Concat(st.raws) + st.tail[..0] == Concat(st.raws);
        NextRaw(st);
      }
    }

    /** MultipartReader::Begin. */
    method Begin(ghost st: Stored)
      requires Holds(st)
      modifies this
      ensures At(st) && (valid ==> offsetOutput <= |st.Bytes()|)
      ensures if valid then chunk != [] && delivered == chunk else delivered == st.Value() == []
      ensures !valid ==> status == Verdict(st)
    {
      checksum := checksumInitial;
      valid, disabled, offsetOutput, uncompressed := true, false, 0, 0;
      status := IOError;
      k, delivered := 0, [];
      StartsAt(st);
      Next(st);
    }

    lemma StartsAt(st: Stored)
      requires Holds(st) && !disabled && offsetOutput == uncompressed == k == 0 && delivered == []
      requires checksum == checksumInitial
      ensures At(st)
    {
      assert st.frames[..0] == [] && st.raws[..0] == [] && st.tail[..0] == [];
      if st.mode.Plain? {
        assert Concat(st.raws) + [] == [];
      }
    }

    /** The status the stream ends in: only a value that is all frames has its checksum compared. */
    ghost function Verdict(st: Stored): Status
    {
      if st.mode.Framed? && verify && Streamed(sum, checksumInitial, st.frames) != checksumStored then IOError else OK
    }

    /** The loop over Begin, IsValid, GetPart and Next that collects a value. */
    method ReadAll(ghost st: Stored) returns (value: seq<byte>)
      requires Holds(st)
      modifies this
      ensures value == st.Value() && !valid && status == Verdict(st)
    {
      value := [];
      Begin(st);
      while valid
        invariant At(st) && (valid ==> offsetOutput <= |st.Bytes()|)
        invariant delivered == if valid then value + chunk else value
        invariant !valid ==> value == st.Value() && status == Verdict(st)
        decreases valid, if valid then |st.Bytes()| - offsetOutput else 0
      {
        value := value + chunk;
        Next(st);
      }
    }

    /** Among the frames, a reader is at a frame, at the header of zeros, or at the end. */
    lemma WhereInFrames(st: Stored)
      requires Holds(st) && InFrames(st)
      ensures if k < |st.frames| then uncompressed < sizeCompressed && offsetOutput + HEADER <= |data|
              && !IsDisabled(data, offsetOutput)
              else if st.mode.SwitchedOff? then
                && uncompressed < sizeCompressed && offsetOutput + HEADER == RawStart(st) <= |data|
                && IsDisabled(data, offsetOutput) && delivered == Concat(st.raws)
              else uncompressed == sizeCompressed && delivered == st.Value() && st.frames[..k] == st.frames
    {
      if k < |st.frames| {
        FrameFound(data, st, k);
      } else {
        assert st.frames[..k] == st.frames && st.raws[..k] == st.raws;
        if st.mode.SwitchedOff? {
          TailFound(data, st);
        } else {
          assert Concat(st.raws) + [] == Concat(st.raws);
        }
      }
    }
  }

  /** A slice of the raw part of the data is the next part of the rest of the value. */
  lemma TailPart(data: seq<byte>, pre: seq<byte>, start: nat, tail: seq<byte>, p: nat, n: nat)
    requires start <= p && p + n <= start + |tail| <= |data| && data[start..start + |tail|] == tail
    ensures (pre + tail[..p - start]) + data[p..p + n] == pre + tail[..p + n - start]
  {
    SliceOfSlice(data, start, start + |tail|, p - start, p + n - start);
    Glue(tail, p - start, p + n - start);
  }

  // ----- A value in one piece -----

  /** What UncompressByteArray fills in: all frames, but at most one step of the raw bytes. */
  function OneStep(st: Stored): seq<byte>
  {
    Concat(st.raws) + if |st.tail| <= STEP then st.tail else st.tail[..STEP]
  }

  /** It gives the whole value exactly when no more than one step of the value is raw. */
  lemma OneStepIsWhole(st: Stored)
    ensures OneStep(st) == st.Value() <==> |st.tail| <= STEP
  {
    if |st.tail| > STEP {
      assert |OneStep(st)| < |st.Value()|;
    }
  }

  /** Each piece, and each again. */
  function Twice(parts: seq<seq<byte>>): seq<seq<byte>>
    decreases |parts|
  {
    if parts == [] then []
    else
      var last := parts[|parts| - 1];
      Twice(parts[..|parts| - 1]) + [last, last]
  }

  lemma TwiceNext(sum: Sum, crc: u32, parts: seq<seq<byte>>, k: nat)
    requires k < |parts|
    ensures Streamed(sum, crc, Twice(parts[..k + 1]))
         == sum(sum(Streamed(sum, crc, Twice(parts[..k])), parts[k]), parts[k])
  {
    var before := Twice(parts[..k]);
    assert parts[..k + 1][..k] == parts[..k];
    assert (before + [parts[k], parts[k]])[..|before| + 1] == before + [parts[k]];
    assert (before + [parts[k]])[..|before|] == before;
  }

  /**
   * The frames of a value, uncompressed one after another; Uncompress streams each into the checksum, and so
   * does its caller.
   */
  method UncompressFrames(sum: Sum, data: seq<byte>, sizeCompressed: nat, initial: u32, ghost st: Stored)
    returns (value: seq<byte>, offset: nat, crc: u32)
    requires st.WellFormed() && !st.mode.Plain? && st.Bytes() <= data && sizeCompressed == |st.Bytes()|
    ensures value == Concat(st.raws) && offset == |Concat(st.frames)| && crc == Streamed(sum, initial, Twice(st.frames))
  {
    value, offset, crc := [], 0, initial;
    ghost var k := 0;
    assert st.frames[..0] == [] && st.raws[..0] == [];
    FramesGo(data, st, k);
    while offset != sizeCompressed && !IsDisabled(data, offset)
      invariant 0 <= k <= |st.frames| && offset == |Concat(st.frames[..k])| && value == Concat(st.raws[..k])
      invariant crc == Streamed(sum, initial, Twice(st.frames[..k]))
      invariant offset != sizeCompressed ==> offset + HEADER <= |data|
      invariant k < |st.frames| ==> offset != sizeCompressed && !IsDisabled(data, offset)
      invariant k == |st.frames| ==> offset == sizeCompressed || IsDisabled(data, offset)
      decreases |st.frames| - k
    {
      var out, n, frame := ReadFrame(data, offset, sizeCompressed, st, k);
      TwiceNext(sum, initial, st.frames, k);
      crc := sum(sum(crc, frame), frame);
      value, offset, k := value + out, offset + n, k + 1;
      FramesGo(data, st, k);
    }
    assert st.frames[..k] == st.frames && st.raws[..k] == st.raws;
  }

  /** Where the k-th frame would be, there is a frame, the header of zeros, or the end. */
  lemma FramesGo(data: seq<byte>, st: Stored, k: nat)
    requires st.WellFormed() && !st.mode.Plain? && st.Bytes() <= data && k <= |st.frames|
    ensures var p := |Concat(st.frames[..k])|;
            && (p != |st.Bytes()| ==> p + HEADER <= |data|)
            && (k < |st.frames| ==> p != |st.Bytes()| && !IsDisabled(data, p))
            && (k == |st.frames| ==> p == |st.Bytes()| || IsDisabled(data, p))
  {
    if k < |st.frames| {
      FrameFound(data, st, k);
    } else {
      assert st.frames[..k] == st.frames;
      if st.mode.SwitchedOff? {
        TailFound(data, st);
      }
    }
  }

  /**
   * The status of a value read in one piece: only one that is all frames has its checksum compared, and with
   * every frame in it twice.
   */
  function OnePieceStatus(sum: Sum, st: Stored, initial: u32, stored: u32, verify: bool): Status
  {
    if verify && st.mode.Framed? && Streamed(sum, initial, Twice(st.frames)) != stored then IOError else OK
  }

  /** UncompressByteArray of a compressed value. */
  method UncompressByteArray(sum: Sum, data: seq<byte>, sizeCompressed: nat, initial: u32, stored: u32, verify: bool,
                             ghost st: Stored)
    returns (value: seq<byte>, status: Status)
    requires st.WellFormed() && !st.mode.Plain? && st.Bytes() <= data && sizeCompressed == |st.Bytes()|
    ensures value == OneStep(st) && status == OnePieceStatus(sum, st, initial, stored, verify)
  {
    var offset, crc;
    value, offset, crc := UncompressFrames(sum, data, sizeCompressed, initial, st);
    if offset == sizeCompressed {
      assert st.tail == [];
      assert value + [] == value;
      status := if !verify || crc == stored then OK else IOError;
      return;
    }
    TailFound(data, st);
    status := OK;
    offset := offset + HEADER;
    if offset == sizeCompressed {
      assert st.tail == [];
      assert value + [] == value;
      return;
    }
    var current := if offset + STEP < sizeCompressed then STEP else sizeCompressed - offset;
    assert data[offset..offset + current] == data[offset..offset + |st.tail|][..current];
    value := value + data[offset..offset + current];
  }

  /** Different checksums stay different, whatever they are extended by. */
  ghost predicate Injective(sum: Sum)
  {
    forall c: u32, d: u32, s: seq<byte> :: sum(c, s) == sum(d, s) ==> c == d
  }

  /**
   * So a value of one frame, with the right checksum stored, is verified exactly when the frame does not
   * change the checksum.
   */
  lemma OneFrameVerifies(sum: Sum, st: Stored, initial: u32)
    requires Injective(sum) && st.mode.Framed? && |st.frames| == 1
    ensures OnePieceStatus(sum, st, initial, Streamed(sum, initial, st.frames), true) == OK
       <==> sum(initial, st.frames[0]) == initial
  {
    var frames := st.frames;
    assert frames[..0] == [] && frames[..1] == frames;
    StreamedNext(sum, initial, frames, 0);
    TwiceNext(sum, initial, frames, 0);
  }
}
