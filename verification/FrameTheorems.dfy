/**
 * What the frame decoder guarantees over whole connections: no byte is lost,
 * chunking does not matter for clean streams, and exactly when the mixed-width
 * arithmetic agrees with integer arithmetic.
 */
module FrameTheorems {
  import opened MachineInts
  import opened Segments
  import opened FrameDecoder

  // ----- conservation -----

  lemma Slices(buf: seq<byte>, i: nat, j: nat)
    requires i <= j <= |buf|
    ensures (buf[..i] + buf[i..j]) + buf[j..] == buf
    ensures buf[..i] + buf[i..] == buf
  {
  }

  lemma DecodeConserves(c: Config, buf: seq<byte>)
    requires Supported(c)
    ensures Consumed(Decode(c, buf).taken) + Decode(c, buf).rest == buf
  {
    var d := Decode(c, buf);
    var k := |buf| - |d.rest|;
    Slices(buf, if c.strip <= k then c.strip else k, k);
    if |d.taken| == 1 {
      TwoPieces(d.taken[0], d.taken[0]);
    } else if |d.taken| == 2 {
      TwoPieces(d.taken[0], d.taken[1]);
    }
  }

  /** Two stretches of consumption, the second starting where the first stopped. */
  lemma JoinConserved(first: seq<Piece>, second: seq<Piece>, all: seq<byte>, mid: seq<byte>, rest: seq<byte>)
    requires Consumed(first) + mid == all && Consumed(second) + rest == mid
    ensures Consumed(first + second) + rest == all
  {
    ConsumedAppend(first, second);
    Assoc(Consumed(first), Consumed(second), rest);
  }

  lemma {:induction false} ReadConserves(c: Config, buf: seq<byte>)
    requires Supported(c)
    ensures Consumed(ReadAll(c, buf).taken) + ReadAll(c, buf).rest == buf
    decreases |buf|
  {
    var d := Decode(c, buf);
    DecodeConserves(c, buf);
    if d.verdict.Frame? {
      ReadConserves(c, d.rest);
      JoinConserved(d.taken, ReadAll(c, d.rest).taken, buf, d.rest, ReadAll(c, d.rest).rest);
    }
  }

  /**
   * Over any run of reads, error branches included: the bytes received are the bytes
   * emitted, stripped and discarded, in order, followed by the bytes still buffered.
   */
  lemma {:induction false} Conservation(c: Config, chunks: seq<seq<byte>>)
    requires Supported(c)
    ensures Consumed(Feed(c, chunks).taken) + Feed(c, chunks).buffer == Concat(chunks)
  {
    if chunks != [] {
      var before, last := chunks[..|chunks| - 1], chunks[|chunks| - 1];
      var conn := Feed(c, before);
      Conservation(c, before);
      var d := ReadAll(c, conn.buffer + last);
      ReadConserves(c, conn.buffer + last);
      Assoc(Consumed(conn.taken), conn.buffer, last);
      JoinConserved(conn.taken, d.taken, Concat(chunks), conn.buffer + last, d.rest);
    }
  }

  // ----- independence from chunking -----

  lemma SlicesOfAppend(buf: seq<byte>, more: seq<byte>, i: nat, j: nat)
    requires i <= j <= |buf|
    ensures (buf + more)[..i] == buf[..i]
    ensures (buf + more)[i..j] == buf[i..j]
    ensures (buf + more)[j..] == buf[j..] + more
  {
  }

  /** Once `decode` has reached a verdict other than "wait", more bytes do not change it. */
  lemma DecodeStable(c: Config, buf: seq<byte>, more: seq<byte>)
    requires Supported(c) && !Decode(c, buf).verdict.Incomplete?
    ensures Decode(c, buf + more).verdict == Decode(c, buf).verdict
    ensures Decode(c, buf).verdict.Frame? ==>
              && Decode(c, buf + more).taken == Decode(c, buf).taken
              && Decode(c, buf + more).rest == Decode(c, buf).rest + more
  {
    SlicesOfAppend(buf, more, c.offset, End(c));
    var n := FrameLength(c, FieldValue(c, buf));
    if Decode(c, buf).verdict.Frame? {
      SlicesOfAppend(buf, more, c.strip, n);
    }
  }

  lemma {:induction false} ReadSplit(c: Config, buf: seq<byte>, more: seq<byte>)
    requires Supported(c) && ReadAll(c, buf + more).verdict.Incomplete?
    ensures ReadAll(c, buf).verdict.Incomplete?
    ensures var first := ReadAll(c, buf);
            var second := ReadAll(c, first.rest + more);
            ReadAll(c, buf + more) == Decoded(second.verdict, first.taken + second.taken, second.rest)
    decreases |buf|
  {
    var d := Decode(c, buf);
    if d.verdict.Incomplete? {
      assert [] + ReadAll(c, buf + more).taken == ReadAll(c, buf + more).taken;
    } else {
      DecodeStable(c, buf, more);
      ReadSplit(c, d.rest, more);
      var first := ReadAll(c, d.rest);
      var second := ReadAll(c, first.rest + more);
      Assoc(d.taken, first.taken, second.taken);
    }
  }

  /**
   * For every supported configuration and every stream that decodes without hitting an
   * error branch when read at once, every chunking consumes the same pieces in the same
   * order, leaves the same bytes buffered, and no read along the way reports an error.
   */
  lemma {:induction false} ChunkIndependence(c: Config, chunks: seq<seq<byte>>)
    requires Supported(c) && ReadAll(c, Concat(chunks)).verdict.Incomplete?
    ensures Feed(c, chunks).taken == ReadAll(c, Concat(chunks)).taken
    ensures Feed(c, chunks).buffer == ReadAll(c, Concat(chunks)).rest
    ensures forall v :: v in Feed(c, chunks).verdicts ==> v.Incomplete?
  {
    if chunks != [] {
      var before, last := chunks[..|chunks| - 1], chunks[|chunks| - 1];
      ReadSplit(c, Concat(before), last);
      ChunkIndependence(c, before);
    }
  }

  /** The header of an oversize frame, alone in the buffer, is all that gets discarded. */
  lemma OversizeHeader(c: Config, buf: seq<byte>)
    requires Supported(c) && Decode(c, buf).verdict.Oversize?
    requires End(c) < FrameLength(c, FieldValue(c, buf))
    ensures var header := buf[..End(c)];
            Decode(c, header) == Decoded(Oversize, [Discarded(header)], [])
  {
    var header := buf[..End(c)];
    assert header[c.offset..End(c)] == buf[c.offset..End(c)];
    assert header[..End(c)] == header;
  }

  lemma FeedOne(c: Config, chunks: seq<seq<byte>>)
    requires Supported(c) && |chunks| == 1
    ensures Feed(c, chunks).buffer == ReadAll(c, chunks[0]).rest
    ensures Feed(c, chunks).taken == ReadAll(c, chunks[0]).taken
  {
    assert chunks[..0] == [];
    assert [] + chunks[0] == chunks[0];
  }

  lemma FeedTwo(c: Config, chunks: seq<seq<byte>>)
    requires Supported(c) && |chunks| == 2 && ReadAll(c, chunks[0]).rest == []
    ensures Feed(c, chunks).taken == ReadAll(c, chunks[0]).taken + ReadAll(c, chunks[1]).taken
  {
    FeedOne(c, chunks[..1]);
    assert [] + chunks[1] == chunks[1];
  }

  /**
   * The clean-stream hypothesis is needed: for every configuration, an oversize frame
   * swallows only what happens to be buffered.  Read at once, it discards more than its
   * header; cut right after the header, it discards the header alone and everything
   * behind it is decoded as if it were a stream of its own.
   */
  lemma OversizeDependsOnChunking(c: Config, buf: seq<byte>, atOnce: seq<seq<byte>>, inTwo: seq<seq<byte>>)
    requires Supported(c) && Decode(c, buf).verdict.Oversize?
    requires End(c) < |buf| && End(c) < FrameLength(c, FieldValue(c, buf))
    requires atOnce == [buf] && inTwo == [buf[..End(c)], buf[End(c)..]]
    ensures Concat(atOnce) == Concat(inTwo) == buf
    ensures Feed(c, inTwo).taken == [Discarded(buf[..End(c)])] + ReadAll(c, buf[End(c)..]).taken
    ensures Feed(c, inTwo).taken != Feed(c, atOnce).taken
    ensures Frames(Feed(c, atOnce).taken) == []
    ensures Frames(Feed(c, inTwo).taken) == Frames(ReadAll(c, buf[End(c)..]).taken)
  {
    ConcatOneTwo(buf, End(c), atOnce, inTwo);
    OversizeAtOnce(c, buf, atOnce);
    OversizeInTwo(c, buf, inTwo);
    assert Feed(c, atOnce).taken[0] != Discarded(inTwo[0]);
  }

  lemma OversizeAtOnce(c: Config, buf: seq<byte>, atOnce: seq<seq<byte>>)
    requires Supported(c) && Decode(c, buf).verdict.Oversize? && atOnce == [buf]
    requires End(c) < |buf| && End(c) < FrameLength(c, FieldValue(c, buf))
    ensures Frames(Feed(c, atOnce).taken) == []
    ensures |Feed(c, atOnce).taken| == 1 && End(c) < |Feed(c, atOnce).taken[0].bytes|
  {
    FeedOne(c, atOnce);
    FailureEmitsNothing(c, buf);
  }

  lemma OversizeInTwo(c: Config, buf: seq<byte>, inTwo: seq<seq<byte>>)
    requires Supported(c) && Decode(c, buf).verdict.Oversize? && End(c) < FrameLength(c, FieldValue(c, buf))
    requires inTwo == [buf[..End(c)], buf[End(c)..]]
    ensures Feed(c, inTwo).taken == [Discarded(inTwo[0])] + ReadAll(c, inTwo[1]).taken
    ensures Frames(Feed(c, inTwo).taken) == Frames(ReadAll(c, inTwo[1]).taken)
  {
    OversizeHeader(c, buf);
    FeedTwo(c, inTwo);
    FailureEmitsNothing(c, inTwo[0]);
    FramesAppend([Discarded(inTwo[0])], ReadAll(c, inTwo[1]).taken);
  }

  lemma ConcatOneTwo(buf: seq<byte>, n: nat, one: seq<seq<byte>>, two: seq<seq<byte>>)
    requires n <= |buf| && one == [buf] && two == [buf[..n], buf[n..]]
    ensures Concat(one) == Concat(two) == buf
  {
    assert one[..0] == [];
    assert two[..1][..0] == [];
    assert buf[..n] + buf[n..] == buf;
  }

  predicate Tiny(c: Config) {
    c.width == 1 && c.max == 2 && c.offset == 0 && c.adjust == 0 && c.strip == 1 && !c.network
  }

  lemma TinyField(c: Config, b: byte, buf: seq<byte>)
    requires Tiny(c) && |buf| >= 1 && buf[0] == b
    ensures Supported(c) && FieldValue(c, buf) == b
    ensures FrameLength(c, b) == b + 1
  {
    assert U32(c.max - c.width) == 1;
    assert U32(c.adjust + End(c)) == 1;
    assert buf[c.offset..End(c)] == [b];
    LEOne(b);
  }

  lemma TinyEmpty(c: Config, buf: seq<byte>)
    requires Tiny(c) && buf == [0]
    ensures Supported(c) && Frames(ReadAll(c, buf).taken) == [[]]
  {
    TinyField(c, 0, buf);
    var d := Decode(c, buf);
    assert d == DecodeAt(c, buf, 1);
    assert d.verdict.Frame? && d.taken == [Stripped(buf[..1]), Emitted(buf[1..1])] && d.rest == [];
    TwoPieces(d.taken[0], d.taken[1]);
    ReadAllFrames(c, buf);
    FailureEmitsNothing(c, []);
  }

  /** So even the frames handed on can differ: two bytes are dropped at once, or give an empty frame in two reads. */
  lemma OversizeChangesFrames(c: Config, buf: seq<byte>, atOnce: seq<seq<byte>>, inTwo: seq<seq<byte>>)
    requires Tiny(c) && buf == [5, 0] && atOnce == [buf] && inTwo == [buf[..1], buf[1..]]
    ensures Supported(c) && Concat(atOnce) == Concat(inTwo)
    ensures Frames(Feed(c, atOnce).taken) == []
    ensures Frames(Feed(c, inTwo).taken) == [[]]
  {
    TinyField(c, 5, buf);
    OversizeDependsOnChunking(c, buf, atOnce, inTwo);
    TinyEmpty(c, buf[1..]);
  }

  lemma LEOne(b: byte)
    ensures FromLE([b]) == b
  {
    assert [b][1..] == [];
  }

  // ----- machine arithmetic -----

  /** The machine sum is the integer sum exactly when neither the 32-bit nor the 64-bit step wraps. */
  lemma FrameLengthExact(c: Config, field: nat)
    requires Supported(c) && field < TWO_64
    ensures FrameLength(c, field) == field + c.adjust + End(c) <==>
            0 <= c.adjust + End(c) < TWO_32 && field + c.adjust + End(c) < TWO_64
  {
    var sum := c.adjust + End(c);
    assert -TWO_31 <= sum <= TWO_32 + 8;
    if sum < 0 {
      assert U32(sum) == sum + TWO_32;
      WrapOnce(field + sum + TWO_32);
    } else if sum >= TWO_32 {
      assert U32(sum) == sum - TWO_32;
      WrapOnce(field + sum - TWO_32);
    } else {
      WrapOnce(field + sum);
    }
  }

  lemma WrapOnce(x: int)
    requires 0 <= x < 2 * TWO_64
    ensures U64(x) == if x < TWO_64 then x else x - TWO_64
  {
  }

  /** Where the field lies and how it is read, for every configuration: digit by digit, from its last byte in network order. */
  lemma FieldIsRead(c: Config, buf: seq<byte>, i: nat)
    requires Supported(c) && End(c) <= |buf| && i < c.width
    ensures FieldValue(c, buf) < Pow256(c.width)
    ensures FieldValue(c, buf) / Pow256(i) % 256 ==
            if c.network then buf[c.offset + c.width - 1 - i] else buf[c.offset + i]
  {
    UintBound(buf[c.offset..End(c)], c.network);
    FieldDigits(buf[c.offset..End(c)], c.network, i);
  }

  /** The frame length without machine words: off by 2^32 where the 32-bit sum wraps, by 2^64 where the total does. */
  function WrappedLength(c: Config, field: nat): int {
    var sum := c.adjust + End(c);
    var n := field + sum + if sum < 0 then TWO_32 else if sum >= TWO_32 then -TWO_32 else 0;
    if n < TWO_64 then n else n - TWO_64
  }

  lemma FrameLengthIs(c: Config, field: nat)
    requires Supported(c) && field < TWO_64
    ensures FrameLength(c, field) == WrappedLength(c, field)
  {
    var sum := c.adjust + End(c);
    assert -TWO_31 <= sum <= TWO_32 + 8;
    if sum < 0 {
      assert U32(sum) == sum + TWO_32;
    } else if sum >= TWO_32 {
      assert U32(sum) == sum - TWO_32;
    }
    WrapOnce(field + U32(sum));
  }

  /** The classification of a frame of length `n`, of which `size` bytes are buffered, in unbounded arithmetic. */
  function VerdictFor(c: Config, size: nat, n: int): Verdict {
    if n < End(c) then TooSmall
    else if n > c.max then Oversize
    else if size < n then Incomplete
    else if n < c.strip then StripTooLong
    else if n - c.strip >= TWO_31 then SplitUnderflow
    else Frame
  }

  /** How many bytes a call consumes: a frame, a header, or what is buffered of an oversize frame. */
  function Amount(c: Config, size: nat, n: int): int {
    match VerdictFor(c, size, n)
    case Incomplete => 0
    case TooSmall => End(c)
    case Oversize => if n < size then n else size
    case StripTooLong => n
    case SplitUnderflow => size
    case Frame => n
  }

  /**
   * One call of `decode` on every input, wrapped sums included: which branch is taken, how
   * many bytes are gone, and which of them are handed on.
   */
  lemma DecodesExactly(c: Config, buf: seq<byte>)
    requires Supported(c)
    ensures |buf| < End(c) ==> Decode(c, buf) == Decoded(Incomplete, [], buf)
    ensures End(c) <= |buf| ==>
              var d, n := Decode(c, buf), WrappedLength(c, FieldValue(c, buf));
              && d.verdict == VerdictFor(c, |buf|, n)
              && 0 <= Amount(c, |buf|, n) <= |buf| && d.rest == buf[Amount(c, |buf|, n)..]
              && (d.verdict.Incomplete? ==> d.taken == [])
              && (d.verdict.Frame? ==> d.taken == [Stripped(buf[..c.strip]), Emitted(buf[c.strip..n])])
              && (d.verdict.SplitUnderflow? ==> d.taken == [Stripped(buf[..c.strip]), Discarded(buf[c.strip..])])
              && (d.verdict.TooSmall? || d.verdict.Oversize? || d.verdict.StripTooLong? ==>
                    d.taken == [Discarded(buf[..Amount(c, |buf|, n)])])
  {
    if End(c) <= |buf| {
      var field := FieldValue(c, buf);
      UintBound(buf[c.offset..End(c)], c.network);
      Pow256Values();
      FrameLengthIs(c, field);
      BranchesExactly(c, buf, FrameLength(c, field));
    }
  }

  /** The same call on a chain: it cuts the chain at these places and moves no boundary. */
  lemma CutsExactly(c: Config, cells: seq<Cell>)
    requires Supported(c)
    ensures |cells| < End(c) ==> DecodeCells(c, cells) == Cut(Incomplete, [], cells)
    ensures End(c) <= |cells| ==>
              var n := WrappedLength(c, FieldValue(c, Bytes(cells)));
              var verdict, k := VerdictFor(c, |cells|, n), Amount(c, |cells|, n);
              && 0 <= k <= |cells| && (verdict.Frame? ==> c.strip <= n <= |cells|)
              && DecodeCells(c, cells) == Cut(verdict, if verdict.Frame? then [cells[c.strip..n]] else [], cells[k..])
  {
    DecodesExactly(c, Bytes(cells));
  }

  lemma BranchesExactly(c: Config, buf: seq<byte>, n: nat)
    requires Supported(c) && End(c) <= |buf|
    ensures var d := DecodeAt(c, buf, n);
            && d.verdict == VerdictFor(c, |buf|, n)
            && 0 <= Amount(c, |buf|, n) <= |buf| && d.rest == buf[Amount(c, |buf|, n)..]
            && (d.verdict.Incomplete? ==> d.taken == [])
            && (d.verdict.Frame? ==> d.taken == [Stripped(buf[..c.strip]), Emitted(buf[c.strip..n])])
            && (d.verdict.SplitUnderflow? ==> d.taken == [Stripped(buf[..c.strip]), Discarded(buf[c.strip..])])
            && (d.verdict.TooSmall? || d.verdict.Oversize? || d.verdict.StripTooLong? ==>
                  d.taken == [Discarded(buf[..Amount(c, |buf|, n)])])
  {
  }

  /** The classification the header comment describes: the signed sum, as if it could not wrap. */
  function SignedVerdict(c: Config, buf: seq<byte>): Verdict
    requires Supported(c)
  {
    if |buf| < End(c) then Incomplete
    else VerdictFor(c, |buf|, FieldValue(c, buf) + c.adjust + End(c))
  }

  /** Where the sum does not wrap, every branch is taken as signed arithmetic would take it. */
  lemma ClassifiesAsSigned(c: Config, buf: seq<byte>)
    requires Supported(c) && 0 <= c.adjust + End(c) < TWO_32
    requires End(c) <= |buf| ==> FieldValue(c, buf) + c.adjust + End(c) < TWO_64
    ensures Decode(c, buf).verdict == SignedVerdict(c, buf)
  {
    if End(c) <= |buf| {
      var field := FieldValue(c, buf);
      UintBound(buf[c.offset..End(c)], c.network);
      Pow256Values();
      FrameLengthExact(c, field);
    }
  }

  /**
   * Where it wraps below zero, the frame length is off by 2^32: with a field of at most
   * four bytes, a header is reported oversize exactly when the wrapped length is beyond
   * the maximum, and otherwise the decoder waits for gigabytes.
   */
  lemma NegativeSumIsOff(c: Config, buf: seq<byte>)
    requires Supported(c) && c.width <= 4 && c.adjust + End(c) < 0
    requires End(c) <= |buf|
    ensures FrameLength(c, FieldValue(c, buf)) == FieldValue(c, buf) + c.adjust + End(c) + TWO_32
    ensures Decode(c, buf).verdict.Oversize? <==> FieldValue(c, buf) + c.adjust + End(c) + TWO_32 > c.max
  {
    var field := FieldValue(c, buf);
    UintBound(buf[c.offset..End(c)], c.network);
    Pow256Values();
    assert field < TWO_32;
    WrapOnce(field + c.adjust + End(c) + TWO_32);
  }

  /** Every header, of well-formed messages too, is rejected exactly when the maximum is below the wrapped sum. */
  lemma NegativeSumRejectsAll(c: Config)
    requires Supported(c) && c.width <= 4 && c.adjust + End(c) < 0
    ensures (forall buf: seq<byte> :: End(c) <= |buf| ==> Decode(c, buf).verdict.Oversize?) <==>
            c.max < TWO_32 + c.adjust + End(c)
  {
    forall buf: seq<byte> | End(c) <= |buf|
      ensures Decode(c, buf).verdict.Oversize? <==> FieldValue(c, buf) + c.adjust + End(c) + TWO_32 > c.max
    {
      NegativeSumIsOff(c, buf);
    }
    var zeros: seq<byte> := seq(End(c), _ => 0);
    ZeroField(zeros[c.offset..End(c)], c.network);
    assert FieldValue(c, zeros) == 0;
  }

  lemma {:induction false} ZeroField(bs: seq<byte>, network: bool)
    requires forall i :: 0 <= i < |bs| ==> bs[i] == 0
    ensures ReadUint(bs, network) == 0
  {
    if bs != [] {
      ZeroField(bs[1..], false);
      ZeroField(bs[..|bs| - 1], true);
    }
  }

  /** The documented whole-message configurations: the field already counts header and field. */
  lemma WholeMessageIsExact(c: Config, field: nat)
    requires Supported(c) && c.adjust == -(End(c) as int) && field < TWO_64
    ensures FrameLength(c, field) == field
  {
    FrameLengthExact(c, field);
  }
}
