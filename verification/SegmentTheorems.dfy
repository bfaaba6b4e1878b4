/**
 * What the decoder hands on when the received bytes lie in several segments: each frame
 * keeps the boundaries that fall inside it, for every chunking, and lies in one segment
 * exactly when no socket read opened a new segment inside its payload.
 */
module SegmentTheorems {
  import opened MachineInts
  import opened Segments
  import opened FrameDecoder
  import opened FrameTheorems
  import opened FrameEncoder

  // ----- a connection, boundaries kept -----

  datatype Tail = Tail(frames: seq<seq<Cell>>, buffer: seq<Cell>)

  function OnArrival(c: Config, t: Tail, a: Arrival): Tail
    requires Supported(c)
  {
    var cut := ReadCells(c, t.buffer + Stamp(a));
    Tail(t.frames + cut.frames, cut.rest)
  }

  /** All arrivals so far, each one followed by a read event. */
  function FeedCells(c: Config, arrivals: seq<Arrival>): Tail
    requires Supported(c)
  {
    if arrivals == [] then Tail([], [])
    else OnArrival(c, FeedCells(c, arrivals[..|arrivals| - 1]), arrivals[|arrivals| - 1])
  }

  /** Everything received, as one chain. */
  function Received(arrivals: seq<Arrival>): seq<Cell> {
    if arrivals == [] then [] else Received(arrivals[..|arrivals| - 1]) + Stamp(arrivals[|arrivals| - 1])
  }

  /** Whatever arrives, errors included: forgetting the boundaries, the connection is the one on bytes. */
  lemma {:induction false} FeedCellsFlat(c: Config, arrivals: seq<Arrival>)
    requires Supported(c)
    ensures var t, conn := FeedCells(c, arrivals), Feed(c, Chunks(arrivals));
            Bytes(t.buffer) == conn.buffer && AllBytes(t.frames) == Frames(conn.taken)
  {
    if arrivals != [] {
      var n := |arrivals| - 1;
      FeedCellsFlat(c, arrivals[..n]);
      assert Chunks(arrivals)[..n] == Chunks(arrivals[..n]);
      OnArrivalFlat(c, FeedCells(c, arrivals[..n]), Feed(c, Chunks(arrivals[..n])), arrivals[n]);
    }
  }

  lemma OnArrivalFlat(c: Config, t: Tail, conn: Connection, a: Arrival)
    requires Supported(c) && Bytes(t.buffer) == conn.buffer && AllBytes(t.frames) == Frames(conn.taken)
    ensures var t', conn' := OnArrival(c, t, a), OnChunk(c, conn, a.bytes);
            Bytes(t'.buffer) == conn'.buffer && AllBytes(t'.frames) == Frames(conn'.taken)
  {
    var cells := t.buffer + Stamp(a);
    BytesAppend(t.buffer, Stamp(a));
    ReadCellsFlat(c, cells);
    AllBytesAppend(t.frames, ReadCells(c, cells).frames);
    FramesAppend(conn.taken, ReadAll(c, Bytes(cells)).taken);
  }

  lemma DecodeCellsStable(c: Config, cells: seq<Cell>, more: seq<Cell>)
    requires Supported(c) && DecodeCells(c, cells).verdict.Frame?
    ensures DecodeCells(c, cells + more) ==
            Cut(Frame, DecodeCells(c, cells).frames, DecodeCells(c, cells).rest + more)
  {
    BytesAppend(cells, more);
    DecodeStable(c, Bytes(cells), Bytes(more));
    CutOffAppend(c, cells, more, Decode(c, Bytes(cells)), Decode(c, Bytes(cells + more)));
  }

  lemma CutOffAppend(c: Config, cells: seq<Cell>, more: seq<Cell>, d: Decoded, d': Decoded)
    requires d.verdict.Frame? && d'.verdict.Frame?
    requires c.strip + |d.rest| <= |cells| && |d'.rest| == |d.rest| + |more|
    ensures CutOff(c, cells + more, d') == Cut(Frame, CutOff(c, cells, d).frames, CutOff(c, cells, d).rest + more)
  {
    var n := |cells| - |d.rest|;
    assert (cells + more)[c.strip..n] == cells[c.strip..n];
    assert (cells + more)[n..] == cells[n..] + more;
  }

  /** A wait consumes nothing. */
  lemma WaitKeeps(c: Config, cells: seq<Cell>)
    requires Supported(c) && DecodeCells(c, cells).verdict.Incomplete?
    ensures DecodeCells(c, cells) == Cut(Incomplete, [], cells)
  {
  }

  lemma {:induction false} CellsSplit(c: Config, cells: seq<Cell>, more: seq<Cell>)
    requires Supported(c) && ReadCells(c, cells + more).verdict.Incomplete?
    ensures ReadCells(c, cells).verdict.Incomplete?
    ensures var first := ReadCells(c, cells);
            var second := ReadCells(c, first.rest + more);
            ReadCells(c, cells + more) == Cut(second.verdict, first.frames + second.frames, second.rest)
    decreases |cells|
  {
    var cut := DecodeCells(c, cells);
    if cut.verdict.Incomplete? {
      WaitKeeps(c, cells);
      assert [] + ReadCells(c, cells + more).frames == ReadCells(c, cells + more).frames;
    } else {
      VerdictStable(c, cells, more);
      DecodeCellsStable(c, cells, more);
      CellsSplit(c, cut.rest, more);
      var first := ReadCells(c, cut.rest);
      Assoc(cut.frames, first.frames, ReadCells(c, first.rest + more).frames);
    }
  }

  lemma VerdictStable(c: Config, cells: seq<Cell>, more: seq<Cell>)
    requires Supported(c) && !DecodeCells(c, cells).verdict.Incomplete?
    ensures DecodeCells(c, cells + more).verdict == DecodeCells(c, cells).verdict
  {
    BytesAppend(cells, more);
    DecodeStable(c, Bytes(cells), Bytes(more));
  }

  /** Chunk independence with boundaries: the frames, as chains, are cut out of everything received at once. */
  lemma {:induction false} ArrivalIndependence(c: Config, arrivals: seq<Arrival>)
    requires Supported(c) && ReadCells(c, Received(arrivals)).verdict.Incomplete?
    ensures FeedCells(c, arrivals).frames == ReadCells(c, Received(arrivals)).frames
    ensures FeedCells(c, arrivals).buffer == ReadCells(c, Received(arrivals)).rest
  {
    if arrivals != [] {
      var before, last := arrivals[..|arrivals| - 1], arrivals[|arrivals| - 1];
      CellsSplit(c, Received(before), Stamp(last));
      ArrivalIndependence(c, before);
    }
  }

  // ----- where each frame lies -----

  /** The offset, in the byte stream, at which the encoding of payload `i` begins. */
  function Offset(width: nat, payloads: seq<seq<byte>>, i: nat): nat
    requires i <= |payloads|
  {
    if i == 0 then 0 else width + |payloads[0]| + Offset(width, payloads[1..], i - 1)
  }

  /** Payload `i` occupies `Low(..) .. High(..) - 1` of the stream. */
  function Low(width: nat, payloads: seq<seq<byte>>, i: nat): nat
    requires i < |payloads|
  {
    Offset(width, payloads, i) + width
  }

  function High(width: nat, payloads: seq<seq<byte>>, i: nat): nat
    requires i < |payloads|
  {
    Low(width, payloads, i) + |payloads[i]|
  }

  /** One encoded payload at the front of a chain. */
  lemma FirstFrame(c: Config, p: Prepender, payload: seq<byte>, cells: seq<Cell>, more: seq<byte>)
    requires Matching(c, p) && Encode(p, payload).Written? && Recoverable(c, |payload|)
    requires Bytes(cells) == Encode(p, payload).bytes + more
    ensures var n := c.width + |payload|;
            && n <= |cells| && Bytes(cells[n..]) == more
            && DecodeCells(c, cells) == Cut(Frame, [cells[c.width..n]], cells[n..])
  {
    WrittenRoundTrip(c, p, payload, more);
    FieldOfEncoded(c, p, payload, more);
    BytesSlice(cells, 0, c.width + |payload|);
  }

  lemma ReadOneFrame(c: Config, cells: seq<Cell>, n: nat)
    requires Supported(c) && c.width <= n <= |cells|
    requires DecodeCells(c, cells) == Cut(Frame, [cells[c.width..n]], cells[n..])
    ensures var more := ReadCells(c, cells[n..]);
            ReadCells(c, cells) == Cut(more.verdict, [cells[c.width..n]] + more.frames, more.rest)
  {
  }

  /** Every frame of a stream is the stretch of the received chain that its payload occupies. */
  lemma {:induction false} FramesAreStretches(c: Config, p: Prepender, payloads: seq<seq<byte>>, cells: seq<Cell>)
    requires Matching(c, p) && Sendable(c, p, payloads) && Bytes(cells) == Stream(c, p, payloads)
    ensures var cut := ReadCells(c, cells);
            cut.verdict.Incomplete? && cut.rest == [] && Stretches(c.width, payloads, cells, cut.frames)
  {
    if payloads == [] {
      assert Bytes(cells) == [];
    } else {
      var n := c.width + |payloads[0]|;
      var rest := payloads[1..];
      FirstFrame(c, p, payloads[0], cells, Stream(c, p, rest));
      FramesAreStretches(c, p, rest, cells[n..]);
      ReadOneFrame(c, cells, n);
      AddStretch(c.width, payloads, cells, n, ReadCells(c, cells[n..]).frames);
    }
  }

  /** The frames are the stretches of the chain that the payloads occupy. */
  ghost predicate Stretches(width: nat, payloads: seq<seq<byte>>, cells: seq<Cell>, frames: seq<seq<Cell>>) {
    && |frames| == |payloads|
    && forall i :: 0 <= i < |payloads| ==>
         && High(width, payloads, i) <= |cells|
         && frames[i] == cells[Low(width, payloads, i)..High(width, payloads, i)]
  }

  lemma AddStretch(width: nat, payloads: seq<seq<byte>>, cells: seq<Cell>, n: nat, more: seq<seq<Cell>>)
    requires payloads != [] && n == width + |payloads[0]| <= |cells|
    requires Stretches(width, payloads[1..], cells[n..], more)
    ensures Stretches(width, payloads, cells, [cells[width..n]] + more)
  {
    forall i | 0 < i < |payloads|
      ensures High(width, payloads, i) <= |cells|
      ensures more[i - 1] == cells[Low(width, payloads, i)..High(width, payloads, i)]
    {
      assert more[i - 1] == cells[n..][Low(width, payloads[1..], i - 1)..High(width, payloads[1..], i - 1)];
      ShiftStretch(width, payloads, cells, n, i);
    }
  }

  lemma ShiftStretch(width: nat, payloads: seq<seq<byte>>, cells: seq<Cell>, n: nat, i: nat)
    requires 0 < i < |payloads| && n == width + |payloads[0]| <= |cells|
    requires High(width, payloads[1..], i - 1) <= |cells[n..]|
    ensures High(width, payloads, i) <= |cells|
    ensures cells[Low(width, payloads, i)..High(width, payloads, i)] ==
            cells[n..][Low(width, payloads[1..], i - 1)..High(width, payloads[1..], i - 1)]
  {
  }

  // ----- where segments begin -----

  function Lengths(arrivals: seq<Arrival>): nat {
    if arrivals == [] then 0 else Lengths(arrivals[..|arrivals| - 1]) + |arrivals[|arrivals| - 1].bytes|
  }

  /** Some read put its bytes into a new segment, the first of them at this offset of the stream. */
  ghost predicate OpensAt(arrivals: seq<Arrival>, q: nat) {
    exists k :: 0 <= k < |arrivals| && !arrivals[k].joined && arrivals[k].bytes != [] && Lengths(arrivals[..k]) == q
  }

  lemma {:induction false} ReceivedLength(arrivals: seq<Arrival>)
    ensures |Received(arrivals)| == Lengths(arrivals)
  {
    if arrivals != [] {
      ReceivedLength(arrivals[..|arrivals| - 1]);
    }
  }

  lemma OpensEarlier(arrivals: seq<Arrival>, n: nat, q: nat)
    requires n + 1 == |arrivals|
    ensures OpensAt(arrivals, q) <==>
            OpensAt(arrivals[..n], q) || (!arrivals[n].joined && arrivals[n].bytes != [] && Lengths(arrivals[..n]) == q)
  {
    forall k | 0 <= k <= n ensures arrivals[..n][..k] == arrivals[..k] {
    }
    if k :| 0 <= k < n && !arrivals[..n][k].joined && arrivals[..n][k].bytes != [] && Lengths(arrivals[..n][..k]) == q {
      assert arrivals[k] == arrivals[..n][k];
    }
    if k :| 0 <= k <= n && !arrivals[k].joined && arrivals[k].bytes != [] && Lengths(arrivals[..k]) == q {
      assert k < n ==> arrivals[..n][k] == arrivals[k];
    }
  }

  lemma {:induction false} OpensBelow(arrivals: seq<Arrival>, q: nat)
    requires OpensAt(arrivals, q)
    ensures q < Lengths(arrivals)
  {
    if arrivals != [] {
      var n := |arrivals| - 1;
      OpensEarlier(arrivals, n, q);
      if OpensAt(arrivals[..n], q) {
        OpensBelow(arrivals[..n], q);
      }
    }
  }

  /** The marks of the received chain are the reads that opened a segment. */
  lemma {:induction false} StartsIff(arrivals: seq<Arrival>, q: nat)
    requires q < |Received(arrivals)|
    ensures Received(arrivals)[q].starts <==> OpensAt(arrivals, q)
  {
    var n := |arrivals| - 1;
    var before := Received(arrivals[..n]);
    ReceivedLength(arrivals[..n]);
    OpensEarlier(arrivals, n, q);
    if q < |before| {
      StartsIff(arrivals[..n], q);
    } else if OpensAt(arrivals[..n], q) {
      OpensBelow(arrivals[..n], q);
    }
  }

  /** No read opened a segment strictly inside this stretch of the stream. */
  ghost predicate Uncut(arrivals: seq<Arrival>, lo: nat, hi: nat) {
    forall q :: lo < q < hi ==> !OpensAt(arrivals, q)
  }

  lemma UncutIffSolid(arrivals: seq<Arrival>, lo: nat, hi: nat)
    requires lo <= hi <= |Received(arrivals)|
    ensures Uncut(arrivals, lo, hi) <==>
            Solid(Received(arrivals)[lo..hi], 0, hi - lo)
  {
    var cells := Received(arrivals);
    forall q | lo < q < hi ensures OpensAt(arrivals, q) <==> cells[lo..hi][q - lo].starts {
      StartsIff(arrivals, q);
    }
    if Uncut(arrivals, lo, hi) {
      forall j | 0 < j < hi - lo ensures !cells[lo..hi][j].starts {
        assert !OpensAt(arrivals, lo + j);
      }
    }
  }

  function Chunks(arrivals: seq<Arrival>): (r: seq<seq<byte>>)
    ensures |r| == |arrivals| && forall i :: 0 <= i < |r| ==> r[i] == arrivals[i].bytes
  {
    seq(|arrivals|, i requires 0 <= i < |arrivals| => arrivals[i].bytes)
  }

  lemma {:induction false} ReceivedBytes(arrivals: seq<Arrival>)
    ensures Bytes(Received(arrivals)) == Concat(Chunks(arrivals))
  {
    if arrivals != [] {
      var n := |arrivals| - 1;
      ReceivedBytes(arrivals[..n]);
      assert Chunks(arrivals)[..n] == Chunks(arrivals[..n]);
      BytesAppend(Received(arrivals[..n]), Stamp(arrivals[n]));
    }
  }

  /**
   * For every list of sendable payloads and every way their encodings are cut into reads
   * and placed into segments: the frames handed on are the payloads, in order, nothing is
   * left over, and a frame lies in one segment if and only if no read opened a segment
   * strictly inside its payload.
   */
  lemma WholeStreamInSegments(c: Config, p: Prepender, payloads: seq<seq<byte>>, arrivals: seq<Arrival>)
    requires Matching(c, p) && Sendable(c, p, payloads)
    requires Concat(Chunks(arrivals)) == Stream(c, p, payloads)
    ensures var t := FeedCells(c, arrivals);
            && t.buffer == [] && AllBytes(t.frames) == payloads
            && forall i :: 0 <= i < |payloads| && payloads[i] != [] ==>
                 (|Chain(t.frames[i])| == 1 <==>
                  Uncut(arrivals, Low(c.width, payloads, i), High(c.width, payloads, i)))
  {
    var cells := Received(arrivals);
    ReceivedBytes(arrivals);
    FramesAreStretches(c, p, payloads, cells);
    ArrivalIndependence(c, arrivals);
    var t := FeedCells(c, arrivals);
    FramesAreThePayloads(c, p, payloads, cells);
    forall i | 0 <= i < |payloads| && payloads[i] != []
      ensures |Chain(t.frames[i])| == 1 <==> Uncut(arrivals, Low(c.width, payloads, i), High(c.width, payloads, i))
    {
      OneSegmentIff(t.frames[i]);
      UncutIffSolid(arrivals, Low(c.width, payloads, i), High(c.width, payloads, i));
    }
  }

  /** The marks inside frame `i` are the reads that opened a segment inside its payload. */
  lemma MarksOfFrames(c: Config, p: Prepender, payloads: seq<seq<byte>>, arrivals: seq<Arrival>, i: nat)
    requires Matching(c, p) && Sendable(c, p, payloads) && i < |payloads|
    requires Concat(Chunks(arrivals)) == Stream(c, p, payloads)
    ensures var frames := FeedCells(c, arrivals).frames;
            && i < |frames| && |frames[i]| == |payloads[i]|
            && forall q :: 0 <= q < |frames[i]| ==>
                 (frames[i][q].starts <==> OpensAt(arrivals, Low(c.width, payloads, i) + q))
  {
    FrameIsStretch(c, p, payloads, arrivals, i);
    MarksOfStretch(arrivals, Low(c.width, payloads, i), High(c.width, payloads, i), FeedCells(c, arrivals).frames[i]);
  }

  lemma FrameIsStretch(c: Config, p: Prepender, payloads: seq<seq<byte>>, arrivals: seq<Arrival>, i: nat)
    requires Matching(c, p) && Sendable(c, p, payloads) && i < |payloads|
    requires Concat(Chunks(arrivals)) == Stream(c, p, payloads)
    ensures High(c.width, payloads, i) <= |Received(arrivals)| && i < |FeedCells(c, arrivals).frames|
    ensures FeedCells(c, arrivals).frames[i] ==
            Received(arrivals)[Low(c.width, payloads, i)..High(c.width, payloads, i)]
  {
    ReceivedBytes(arrivals);
    FramesAreStretches(c, p, payloads, Received(arrivals));
    ArrivalIndependence(c, arrivals);
  }

  lemma MarksOfStretch(arrivals: seq<Arrival>, lo: nat, hi: nat, frame: seq<Cell>)
    requires lo <= hi <= |Received(arrivals)| && frame == Received(arrivals)[lo..hi]
    ensures forall q :: 0 <= q < |frame| ==> (frame[q].starts <==> OpensAt(arrivals, lo + q))
  {
    forall q | 0 <= q < |frame| ensures frame[q].starts <==> OpensAt(arrivals, lo + q) {
      StartsIff(arrivals, lo + q);
    }
  }

  lemma FramesAreThePayloads(c: Config, p: Prepender, payloads: seq<seq<byte>>, cells: seq<Cell>)
    requires Matching(c, p) && Sendable(c, p, payloads) && Bytes(cells) == Stream(c, p, payloads)
    ensures AllBytes(ReadCells(c, cells).frames) == payloads
  {
    ReadCellsFlat(c, cells);
    ReadWholeStream(c, p, payloads);
  }
}
