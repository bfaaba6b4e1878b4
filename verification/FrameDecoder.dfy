/**
 * The length-field frame decoder: one `decode` call as a function of the buffered
 * bytes, the read loop that repeats it, a whole connection fed chunk by chunk, and
 * the buffer-mutating methods proved equal to those functions.
 */
module FrameDecoder {
  import opened MachineInts
  import opened Segments

  /** Constructor arguments; ranges are those of the C++ parameter types. */
  datatype Config = Config(
    width: nat,      // lengthFieldLength_
    max: nat,        // maxFrameLength_
    offset: nat,     // lengthFieldOffset_
    adjust: int,     // lengthAdjustment_
    strip: nat,      // initialBytesToStrip_
    network: bool)   // networkByteOrder_

  /**
   * The configurations `decode` has defined behaviour for: the constructor's two
   * CHECKs (the subtraction is unsigned 32-bit), a width that the switch covers, and
   * an offset that survives the conversion to `int` in `getUnadjustedFrameLength`.
   */
  predicate Supported(c: Config) {
    && c.width in {1, 2, 4, 8}
    && 0 < c.max < TWO_32
    && c.offset < TWO_31
    && -TWO_31 <= c.adjust < TWO_31
    && c.strip < TWO_32
    && c.offset <= U32(c.max - c.width)
  }

  /** lengthFieldEndOffset_. */
  function End(c: Config): nat {
    c.offset + c.width
  }

  function FieldValue(c: Config, buf: seq<byte>): nat
    requires End(c) <= |buf|
  {
    ReadUint(buf[c.offset..End(c)], c.network)
  }

  /** `frameLength` after the adjustment: a 32-bit unsigned sum added to a 64-bit one. */
  function FrameLength(c: Config, field: nat): nat {
    U64(field + U32(c.adjust + End(c)))
  }

  datatype Verdict = Incomplete | Frame | TooSmall | Oversize | StripTooLong | SplitUnderflow

  /** What became of consumed bytes. */
  datatype Piece = Stripped(bytes: seq<byte>) | Emitted(bytes: seq<byte>) | Discarded(bytes: seq<byte>)

  datatype Decoded = Decoded(verdict: Verdict, taken: seq<Piece>, rest: seq<byte>)

  /**
   * `decode` once the frame length is known.  A frame whose stripped length does not fit
   * `int` makes the split request a negative count, which the queue reports by draining
   * and throwing.
   */
  function DecodeAt(c: Config, buf: seq<byte>, n: nat): (d: Decoded)
    requires Supported(c) && End(c) <= |buf|
    ensures |d.rest| <= |buf|
    ensures d.verdict.Frame? ==> |d.rest| < |buf| && c.strip + |d.rest| <= |buf|
  {
    if n < End(c) then
      Decoded(TooSmall, [Discarded(buf[..End(c)])], buf[End(c)..])
    else if n > c.max then
      var k := if n < |buf| then n else |buf|;
      Decoded(Oversize, [Discarded(buf[..k])], buf[k..])
    else if |buf| < n then
      Decoded(Incomplete, [], buf)
    else if c.strip > n then
      Decoded(StripTooLong, [Discarded(buf[..n])], buf[n..])
    else if I32(n - c.strip) < 0 then
      Decoded(SplitUnderflow, [Stripped(buf[..c.strip]), Discarded(buf[c.strip..])], [])
    else
      Decoded(Frame, [Stripped(buf[..c.strip]), Emitted(buf[c.strip..n])], buf[n..])
  }

  /** One call of `decode`. */
  function Decode(c: Config, buf: seq<byte>): (d: Decoded)
    requires Supported(c)
    ensures |d.rest| <= |buf|
    ensures d.verdict.Frame? ==> |d.rest| < |buf| && c.strip + |d.rest| <= |buf|
  {
    if |buf| < End(c) then Decoded(Incomplete, [], buf)
    else DecodeAt(c, buf, FrameLength(c, FieldValue(c, buf)))
  }

  /** What is left is the end of the buffer. */
  lemma RestIsSuffix(c: Config, buf: seq<byte>)
    requires Supported(c)
    ensures Decode(c, buf).rest == buf[|buf| - |Decode(c, buf).rest|..]
  {
    if End(c) <= |buf| {
      SuffixAt(c, buf, FrameLength(c, FieldValue(c, buf)));
    }
  }

  lemma SuffixAt(c: Config, buf: seq<byte>, n: nat)
    requires Supported(c) && End(c) <= |buf|
    ensures DecodeAt(c, buf, n).rest == buf[|buf| - |DecodeAt(c, buf, n).rest|..]
  {
  }

  /** One read event: `decode` is repeated until it reports no frame. */
  function ReadAll(c: Config, buf: seq<byte>): (d: Decoded)
    requires Supported(c)
    ensures !d.verdict.Frame?
    decreases |buf|
  {
    var d := Decode(c, buf);
    if d.verdict.Frame? then
      var more := ReadAll(c, d.rest);
      Decoded(more.verdict, d.taken + more.taken, more.rest)
    else d
  }

  /** A connection: what it has consumed so far, what it still buffers, how reads ended. */
  datatype Connection = Connection(taken: seq<Piece>, buffer: seq<byte>, verdicts: seq<Verdict>)

  function OnChunk(c: Config, conn: Connection, chunk: seq<byte>): Connection
    requires Supported(c)
  {
    var d := ReadAll(c, conn.buffer + chunk);
    Connection(conn.taken + d.taken, d.rest, conn.verdicts + [d.verdict])
  }

  /** All chunks delivered so far, each one followed by a read event. */
  function Feed(c: Config, chunks: seq<seq<byte>>): Connection
    requires Supported(c)
  {
    if chunks == [] then Connection([], [], [])
    else OnChunk(c, Feed(c, chunks[..|chunks| - 1]), chunks[|chunks| - 1])
  }

  /** The frames passed on to the next handler, in order. */
  function Frames(taken: seq<Piece>): seq<seq<byte>> {
    if taken == [] then []
    else
      var last := taken[|taken| - 1];
      Frames(taken[..|taken| - 1]) + if last.Emitted? then [last.bytes] else []
  }

  /** Every consumed byte, whatever its fate, in order. */
  function Consumed(taken: seq<Piece>): seq<byte> {
    if taken == [] then [] else Consumed(taken[..|taken| - 1]) + taken[|taken| - 1].bytes
  }

  lemma {:induction false} FramesAppend(a: seq<Piece>, b: seq<Piece>)
    ensures Frames(a + b) == Frames(a) + Frames(b)
  {
    if b == [] {
      assert a + b == a;
    } else {
      FramesAppend(a, b[..|b| - 1]);
      InitOfAppend(a, b);
    }
  }

  lemma {:induction false} ConsumedAppend(a: seq<Piece>, b: seq<Piece>)
    ensures Consumed(a + b) == Consumed(a) + Consumed(b)
  {
    if b == [] {
      assert a + b == a;
    } else {
      ConsumedAppend(a, b[..|b| - 1]);
      InitOfAppend(a, b);
      Assoc(Consumed(a), Consumed(b[..|b| - 1]), b[|b| - 1].bytes);
    }
  }

  lemma TwoPieces(s: Piece, e: Piece)
    ensures Consumed([s, e]) == s.bytes + e.bytes
    ensures Consumed([s]) == s.bytes
    ensures s.Stripped? && e.Emitted? ==> Frames([s, e]) == [e.bytes]
  {
    assert [s, e][..1] == [s];
    assert [s][..0] == [];
    assert Consumed([s]) == Consumed([]) + s.bytes;
    assert Frames([s]) == Frames([]) + if s.Emitted? then [s.bytes] else [];
  }

  lemma FailureEmitsNothing(c: Config, buf: seq<byte>)
    requires Supported(c) && !Decode(c, buf).verdict.Frame?
    ensures Frames(Decode(c, buf).taken) == []
  {
    var taken := Decode(c, buf).taken;
    if |taken| == 2 {
      assert taken[..1] == [taken[0]];
      assert taken[..1][..0] == [];
      assert Frames(taken[..1]) == [];
    }
  }

  /** `ReadAll` unfolded once, in terms of the frames alone. */
  lemma ReadAllFrames(c: Config, buf: seq<byte>)
    requires Supported(c)
    ensures var d, all := Decode(c, buf), ReadAll(c, buf);
            if d.verdict.Frame? then
              && |d.rest| < |buf|
              && all.verdict == ReadAll(c, d.rest).verdict && all.rest == ReadAll(c, d.rest).rest
              && Frames(all.taken) == Frames(d.taken) + Frames(ReadAll(c, d.rest).taken)
            else
              all == d && Frames(all.taken) == [] && |d.rest| <= |buf|
  {
    var d := Decode(c, buf);
    if d.verdict.Frame? {
      FramesAppend(d.taken, ReadAll(c, d.rest).taken);
    } else {
      FailureEmitsNothing(c, buf);
    }
  }

  // ----- the same on chains -----

  /** What one or more `decode` calls make of a chain: the frames passed on, as chains, and what is left. */
  datatype Cut = Cut(verdict: Verdict, frames: seq<seq<Cell>>, rest: seq<Cell>)

  /** A decoded stretch of a chain: trimming and splitting keep the segment boundaries. */
  function CutOff(c: Config, cells: seq<Cell>, d: Decoded): Cut
    requires |d.rest| <= |cells| && (d.verdict.Frame? ==> c.strip + |d.rest| <= |cells|)
  {
    var n := |cells| - |d.rest|;
    Cut(d.verdict, if d.verdict.Frame? then [cells[c.strip..n]] else [], cells[n..])
  }

  /** `decode` on a chain; its decisions depend on the bytes only. */
  function DecodeCells(c: Config, cells: seq<Cell>): (cut: Cut)
    requires Supported(c)
    ensures cut.verdict.Frame? ==> |cut.rest| < |cells|
    ensures Bytes(cut.rest) == Decode(c, Bytes(cells)).rest
  {
    var d := Decode(c, Bytes(cells));
    BytesSlice(cells, 0, |cells| - |d.rest|);
    RestIsSuffix(c, Bytes(cells));
    CutOff(c, cells, d)
  }

  function ReadCells(c: Config, cells: seq<Cell>): Cut
    requires Supported(c)
    decreases |cells|
  {
    var cut := DecodeCells(c, cells);
    if cut.verdict.Frame? then
      var more := ReadCells(c, cut.rest);
      Cut(more.verdict, cut.frames + more.frames, more.rest)
    else cut
  }

  function AllBytes(frames: seq<seq<Cell>>): (r: seq<seq<byte>>)
    ensures |r| == |frames| && forall i :: 0 <= i < |r| ==> r[i] == Bytes(frames[i])
  {
    seq(|frames|, i requires 0 <= i < |frames| => Bytes(frames[i]))
  }

  lemma AllBytesAppend(a: seq<seq<Cell>>, b: seq<seq<Cell>>)
    ensures AllBytes(a + b) == AllBytes(a) + AllBytes(b)
  {
  }

  lemma DecodeCellsFlat(c: Config, cells: seq<Cell>)
    requires Supported(c)
    ensures AllBytes(DecodeCells(c, cells).frames) == Frames(Decode(c, Bytes(cells)).taken)
  {
    var d := Decode(c, Bytes(cells));
    if d.verdict.Frame? {
      var n := |cells| - |d.rest|;
      BytesSlice(cells, c.strip, n);
      TwoPieces(d.taken[0], d.taken[1]);
    } else {
      FailureEmitsNothing(c, Bytes(cells));
    }
  }

  /** Forgetting the boundaries, reading a chain is reading its bytes. */
  lemma {:induction false} ReadCellsFlat(c: Config, cells: seq<Cell>)
    requires Supported(c)
    ensures var cut, all := ReadCells(c, cells), ReadAll(c, Bytes(cells));
            && cut.verdict == all.verdict && Bytes(cut.rest) == all.rest
            && AllBytes(cut.frames) == Frames(all.taken)
    decreases |cells|
  {
    var cut := DecodeCells(c, cells);
    DecodeCellsFlat(c, cells);
    ReadAllFrames(c, Bytes(cells));
    if cut.verdict.Frame? {
      ReadCellsFlat(c, cut.rest);
      AllBytesAppend(cut.frames, ReadCells(c, cut.rest).frames);
    }
  }

  // ----- the methods -----

  /** The shared `IOBufQueue`: a chain of segments. */
  class IOBufQueue {
    var cells: seq<Cell>

    constructor ()
      ensures cells == []
    {
      cells := [];
    }

    method Append(arrival: Arrival)
      modifies this
      ensures cells == old(cells) + Stamp(arrival)
    {
      cells := cells + Stamp(arrival);
    }

    /** Throws when `n` exceeds the contents; every call in `decode` is proved not to. */
    method TrimStart(n: nat)
      requires n <= |cells|
      modifies this
      ensures cells == old(cells)[n..]
    {
      cells := cells[n..];
    }

    method TrimStartAtMost(n: nat)
      modifies this
      ensures n <= |old(cells)| ==> cells == old(cells)[n..]
      ensures n > |old(cells)| ==> cells == []
    {
      cells := if n <= |cells| then cells[n..] else [];
    }

    /** The argument is a `size_t`; asking for too much drains the queue and throws. */
    method Split(n: nat) returns (front: Option<seq<Cell>>)
      modifies this
      ensures n <= |old(cells)| ==> front == Some(old(cells)[..n]) && cells == old(cells)[n..]
      ensures n > |old(cells)| ==> front == None && cells == []
    {
      if n <= |cells| {
        front := Some(cells[..n]);
        cells := cells[n..];
      } else {
        front := None;
        cells := [];
      }
    }
  }

  class LengthFieldBasedFrameDecoder {
    const config: Config

    constructor (config: Config)
      requires Supported(config)
      ensures this.config == config
    {
      this.config := config;
    }

    /** The cursor reads across segment boundaries. */
    method GetUnadjustedFrameLength(buf: IOBufQueue) returns (frameLength: nat)
      requires Supported(config) && End(config) <= |buf.cells|
      ensures frameLength == FieldValue(config, Bytes(buf.cells))
      ensures frameLength < Pow256(config.width)
    {
      var cursor := buf.cells[config.offset..];
      var field := Bytes(cursor[..config.width]);
      assert field == Bytes(buf.cells)[config.offset..End(config)];
      UintBound(field, config.network);
      if config.network {
        frameLength := FromBE(field);
      } else {
        frameLength := FromLE(field);
      }
    }

    /** `result` is meaningful on success; on failure `verdict` says which branch was taken. */
    method DecodeOnce(buf: IOBufQueue) returns (success: bool, result: seq<Cell>, verdict: Verdict)
      requires Supported(config) && |buf.cells| < TWO_63
      modifies buf
      ensures success <==> verdict.Frame?
      ensures Cut(verdict, if success then [result] else [], buf.cells) == DecodeCells(config, old(buf.cells))
    {
      result := [];
      if |buf.cells| < End(config) {
        return false, result, Incomplete;
      }
      var frameLength := GetUnadjustedFrameLength(buf);
      frameLength := FrameLength(config, frameLength);
      success, result, verdict := DecodeKnown(buf, frameLength);
    }

    /** The rest of `decode`, once the frame length has been computed. */
    method DecodeKnown(buf: IOBufQueue, frameLength: nat) returns (success: bool, result: seq<Cell>, verdict: Verdict)
      requires Supported(config) && End(config) <= |buf.cells| < TWO_63
      modifies buf
      ensures success <==> verdict.Frame?
      ensures Cut(verdict, if success then [result] else [], buf.cells) ==
              CutOff(config, old(buf.cells), DecodeAt(config, Bytes(old(buf.cells)), frameLength))
    {
      result := [];
      if frameLength < End(config) {
        buf.TrimStart(End(config));
        return false, result, TooSmall;
      }
      if frameLength > config.max {
        buf.TrimStartAtMost(frameLength);
        return false, result, Oversize;
      }
      if |buf.cells| < frameLength {
        return false, result, Incomplete;
      }
      if config.strip > frameLength {
        buf.TrimStart(frameLength);
        return false, result, StripTooLong;
      }
      var front := TakeFrame(buf, frameLength);
      if front.None? {
        return false, result, SplitUnderflow;
      }
      return true, front.value, Frame;
    }

    /** The end of `decode`: strip the header and split the frame off, its length narrowed to `int`. */
    method TakeFrame(buf: IOBufQueue, frameLength: nat) returns (front: Option<seq<Cell>>)
      requires config.strip <= frameLength <= |buf.cells| < TWO_63 && frameLength < TWO_32
      modifies buf
      ensures front.Some? <==> frameLength - config.strip < TWO_31
      ensures front.Some? ==>
                front.value == old(buf.cells)[config.strip..frameLength] && buf.cells == old(buf.cells)[frameLength..]
      ensures front.None? ==> buf.cells == []
    {
      ghost var before := buf.cells;
      buf.TrimStart(config.strip);
      var actualFrameLength := I32(frameLength - config.strip);
      front := buf.Split(U64(actualFrameLength));
      if front.Some? {
        assert front.value == before[config.strip..frameLength];
        assert buf.cells == before[frameLength..];
      }
    }

    /** The base class's read: decode until no frame comes out, passing each one on. */
    method Read(buf: IOBufQueue) returns (frames: seq<seq<Cell>>, verdict: Verdict)
      requires Supported(config) && |buf.cells| < TWO_63
      modifies buf
      ensures Cut(verdict, frames, buf.cells) == ReadCells(config, old(buf.cells))
      ensures verdict == ReadAll(config, Bytes(old(buf.cells))).verdict
      ensures Bytes(buf.cells) == ReadAll(config, Bytes(old(buf.cells))).rest
      ensures AllBytes(frames) == Frames(ReadAll(config, Bytes(old(buf.cells))).taken)
    {
      ReadCellsFlat(config, buf.cells);
      frames, verdict := [], Incomplete;
      ghost var all := ReadCells(config, buf.cells);
      var success := true;
      while success
        invariant |buf.cells| < TWO_63
        invariant success ==> all.frames == frames + ReadCells(config, buf.cells).frames
        invariant success ==> all.rest == ReadCells(config, buf.cells).rest
        invariant success ==> all.verdict == ReadCells(config, buf.cells).verdict
        invariant !success ==> all == Cut(verdict, frames, buf.cells)
        decreases success, |buf.cells|
      {
        ghost var cut := DecodeCells(config, buf.cells);
        ghost var here := ReadCells(config, buf.cells);
        var frame;
        success, frame, verdict := DecodeOnce(buf);
        if success {
          ghost var more := ReadCells(config, buf.cells);
          assert here.frames == [frame] + more.frames;
          Assoc(frames, [frame], more.frames);
          frames := frames + [frame];
        }
      }
    }
  }
}
