/**
 * The length-field prepender, its round trip with the decoder for every pair of
 * matching configurations, and the byte streams the server's own configuration carries.
 */
module FrameEncoder {
  import opened MachineInts
  import opened FrameDecoder
  import opened FrameTheorems

  datatype Prepender = Prepender(width: nat, adjust: int, includes: bool, network: bool)

  /** The constructor's CHECK, and the ranges of its parameter types. */
  predicate Accepted(p: Prepender) {
    p.width in {1, 2, 4, 8} && -TWO_31 <= p.adjust < TWO_31
  }

  datatype Encoded = Written(bytes: seq<byte>) | NegativeLength | DoesNotFit

  /** The length field's contribution to its own value. */
  function Own(p: Prepender): nat {
    if p.includes then p.width else 0
  }

  /** `length`: an `int` at every step, whatever the size of the payload. */
  function LengthValue(p: Prepender, size: nat): int {
    I32(I32(p.adjust + size) + Own(p))
  }

  function Encode(p: Prepender, payload: seq<byte>): Encoded
    requires Accepted(p)
  {
    var length := LengthValue(p, |payload|);
    if length < 0 then NegativeLength
    else if (p.width == 1 && length >= 256) || (p.width == 2 && length >= 65536) then DoesNotFit
    else Written(WriteUint(length, p.width, p.network) + payload)
  }

  class LengthFieldPrepender {
    const p: Prepender

    constructor (p: Prepender)
      requires Accepted(p)
      ensures this.p == p
    {
      this.p := p;
    }

    method Write(payload: seq<byte>) returns (r: Encoded)
      requires Accepted(p)
      ensures r == Encode(p, payload)
    {
      var length := I32(p.adjust + |payload|);
      if p.includes {
        length := I32(length + p.width);
      }
      if length < 0 {
        return NegativeLength;
      }
      if p.width == 1 {
        if length >= 256 {
          return DoesNotFit;
        }
      } else if p.width == 2 {
        if length >= 65536 {
          return DoesNotFit;
        }
      }
      var len: seq<byte>;
      if p.network {
        len := ToBE(length, p.width);
      } else {
        len := ToLE(length, p.width);
      }
      r := Written(len + payload);
    }
  }

  // ----- what is written -----

  /** The value of the length field before it is narrowed to `int`. */
  function FullLength(p: Prepender, size: nat): int {
    if p.includes then p.adjust + p.width + size else p.adjust + size
  }

  /** Narrowing at every step is narrowing once. */
  lemma NarrowedOnce(p: Prepender, size: nat)
    ensures LengthValue(p, size) == I32(FullLength(p, size))
  {
    var sum := p.adjust + size;
    NarrowedSum(sum, Own(p));
  }

  lemma NarrowedSum(x: int, y: int)
    ensures I32(I32(x) + y) == I32(x + y)
  {
    I32Collision(I32(x), x);
    SameRest(I32(x), x, y);
    I32Collision(I32(x) + y, x + y);
  }

  lemma SameRest(a: int, b: int, y: int)
    requires a % TWO_32 == b % TWO_32
    ensures (a + y) % TWO_32 == (b + y) % TWO_32
  {
  }

  /**
   * Which payloads are written, for every prepender and every size: with `v` the full
   * length narrowed to `int`, the write is refused as negative exactly when `v < 0`, as too
   * long exactly when `v` needs more bytes than the field has, and otherwise puts out a
   * field that reads as `v`, followed by the payload.  Full lengths of the `int` range are
   * not changed by the narrowing.
   */
  lemma WrittenIff(p: Prepender, payload: seq<byte>)
    requires Accepted(p)
    ensures var r, n := Encode(p, payload), FullLength(p, |payload|);
            var v := I32(n);
            && (-TWO_31 <= n < TWO_31 ==> v == n)
            && (r.NegativeLength? <==> v < 0)
            && (r.DoesNotFit? <==> Pow256(p.width) <= v)
            && (r.Written? <==> 0 <= v < Pow256(p.width))
            && (r.Written? ==> |r.bytes| == p.width + |payload|
                               && ReadUint(r.bytes[..p.width], p.network) == v && r.bytes[p.width..] == payload)
  {
    NarrowedOnce(p, |payload|);
    Pow256Values();
    var v := LengthValue(p, |payload|);
    if 0 <= v < Pow256(p.width) {
      UintRoundTrip(v, p.width, p.network);
      assert Encode(p, payload).bytes[..p.width] == WriteUint(v, p.width, p.network);
    }
  }

  // ----- round trip -----

  /** The decoder configuration that undoes a prepender: offset 0, strip the field, negate the adjustment. */
  predicate Matching(c: Config, p: Prepender) {
    && Supported(c) && Accepted(p)
    && c.width == p.width == c.strip && c.network == p.network && c.offset == 0
    && c.adjust == -(p.adjust + Own(p))
  }

  /** When the decoder recovers what the prepender wrote. */
  predicate Recoverable(c: Config, size: nat) {
    0 <= c.adjust + c.width && size < TWO_31 && c.width + size <= c.max
  }

  /** A successful write of a payload that fits `int` did not wrap on the way. */
  lemma LengthValueExact(c: Config, p: Prepender, size: nat)
    requires Matching(c, p) && size < TWO_31 && LengthValue(p, size) >= 0
    ensures LengthValue(p, size) == p.adjust + size + Own(p)
  {
    var sum := p.adjust + size;
    assert sum + Own(p) < TWO_32;
    assert sum >= TWO_31 ==> I32(sum) == sum - TWO_32;
  }

  lemma FieldOfEncoded(c: Config, p: Prepender, payload: seq<byte>, rest: seq<byte>)
    requires Matching(c, p) && Encode(p, payload).Written?
    ensures FieldValue(c, Encode(p, payload).bytes + rest) == LengthValue(p, |payload|)
    ensures LengthValue(p, |payload|) < Pow256(p.width)
    ensures |Encode(p, payload).bytes| == c.width + |payload|
  {
    var v := LengthValue(p, |payload|);
    Pow256Values();
    assert v < Pow256(p.width);
    UintRoundTrip(v, p.width, p.network);
    var header := WriteUint(v, p.width, p.network);
    var buf := Encode(p, payload).bytes + rest;
    assert buf[c.offset..End(c)] == header;
  }

  /** What a matched decoder computes as the frame length of an encoded payload. */
  lemma EncodedFrameLength(c: Config, p: Prepender, payload: seq<byte>)
    requires Matching(c, p) && Encode(p, payload).Written? && |payload| < TWO_31
    ensures FrameLength(c, LengthValue(p, |payload|)) ==
            c.width + |payload| + if 0 <= c.adjust + c.width then 0 else TWO_32
  {
    var v := LengthValue(p, |payload|);
    LengthValueExact(c, p, |payload|);
    var sum := c.adjust + c.width;
    if 0 <= sum {
      assert U32(sum) == sum;
    } else {
      assert U32(sum) == sum + TWO_32;
    }
    WrapOnce(v + U32(sum));
  }

  /** The full length is a non-negative `int` that the field can hold. */
  predicate Fits(p: Prepender, size: nat) {
    0 <= FullLength(p, size) < Pow256(p.width) && FullLength(p, size) < TWO_31
  }

  /** The decoder finds exactly this payload at the front and leaves `rest`. */
  predicate Recovers(c: Config, p: Prepender, payload: seq<byte>, rest: seq<byte>)
    requires Supported(c) && Accepted(p)
  {
    && Encode(p, payload).Written?
    && var d := Decode(c, Encode(p, payload).bytes + rest);
       d.verdict.Frame? && Frames(d.taken) == [payload] && d.rest == rest
  }

  /**
   * The parameterised round trip, with its exact condition: for every width, byte order,
   * adjustment, include flag and payload, the payload is written and recovered by the
   * matching decoder, with the following bytes untouched, if and only if its length fits
   * the field and `int`, the decoder's adjustment does not reach below the field, the
   * payload size fits `int` and the frame is within the maximum.
   */
  lemma RoundTrip(c: Config, p: Prepender, payload: seq<byte>, rest: seq<byte>)
    requires Matching(c, p)
    ensures Recovers(c, p, payload, rest) <==> Fits(p, |payload|) && Recoverable(c, |payload|)
  {
    FitsIff(c, p, payload);
    if Encode(p, payload).Written? {
      WrittenRoundTrip(c, p, payload, rest);
    }
  }

  /** A payload whose size fits `int` is written to a matched decoder exactly when its length fits. */
  lemma FitsIff(c: Config, p: Prepender, payload: seq<byte>)
    requires Matching(c, p)
    ensures |payload| < TWO_31 ==> (Encode(p, payload).Written? <==> Fits(p, |payload|))
  {
    WrittenIff(p, payload);
    if |payload| < TWO_31 {
      assert FullLength(p, |payload|) < TWO_32;
    }
  }

  /** Where the write goes through, the rest of the condition decides. */
  lemma WrittenRoundTrip(c: Config, p: Prepender, payload: seq<byte>, rest: seq<byte>)
    requires Matching(c, p) && Encode(p, payload).Written?
    ensures Recovers(c, p, payload, rest) <==> Recoverable(c, |payload|)
  {
    FieldOfEncoded(c, p, payload, rest);
    var enc := Encode(p, payload).bytes;
    var buf := enc + rest;
    var d := Decode(c, buf);
    if |payload| < TWO_31 {
      EncodedFrameLength(c, p, payload);
      if Recoverable(c, |payload|) {
        assert buf[..c.strip] == enc[..c.strip];
        assert buf[c.strip..|enc|] == payload;
        assert buf[|enc|..] == rest;
        TwoPieces(Stripped(buf[..c.strip]), Emitted(payload));
      }
    } else {
      EmittedFitsInt(c, buf);
    }
  }

  /** A frame beyond the maximum costs only itself: what follows it is left for the next read. */
  lemma OversizedFrameIsSkipped(c: Config, p: Prepender, payload: seq<byte>, rest: seq<byte>)
    requires Matching(c, p) && Encode(p, payload).Written?
    requires 0 <= c.adjust + c.width && |payload| < TWO_31 && c.width + |payload| > c.max
    ensures var d := Decode(c, Encode(p, payload).bytes + rest);
            d.verdict.Oversize? && d.rest == rest && d.taken == [Discarded(Encode(p, payload).bytes)]
  {
    FieldOfEncoded(c, p, payload, rest);
    EncodedFrameLength(c, p, payload);
    SlicesOfAppend(Encode(p, payload).bytes, rest, 0, |Encode(p, payload).bytes|);
  }

  lemma EmittedFitsInt(c: Config, buf: seq<byte>)
    requires Supported(c)
    ensures var d := Decode(c, buf);
            d.verdict.Frame? ==> |Frames(d.taken)| == 1 && |Frames(d.taken)[0]| < TWO_31
  {
    var d := Decode(c, buf);
    if d.verdict.Frame? {
      TwoPieces(d.taken[0], d.taken[1]);
    }
  }

  // ----- streams of frames -----

  /** Every payload can be written and recovered. */
  predicate Sendable(c: Config, p: Prepender, payloads: seq<seq<byte>>)
    requires Matching(c, p)
  {
    forall i :: 0 <= i < |payloads| ==>
      Encode(p, payloads[i]).Written? && Recoverable(c, |payloads[i]|)
  }

  /** The byte stream the prepender produces for a list of payloads. */
  function Stream(c: Config, p: Prepender, payloads: seq<seq<byte>>): seq<byte>
    requires Matching(c, p) && Sendable(c, p, payloads)
  {
    if payloads == [] then []
    else Encode(p, payloads[0]).bytes + Stream(c, p, payloads[1..])
  }

  lemma ReadEncoded(c: Config, p: Prepender, payload: seq<byte>, more: seq<byte>)
    requires Matching(c, p) && Encode(p, payload).Written? && Recoverable(c, |payload|)
    ensures var all := ReadAll(c, Encode(p, payload).bytes + more);
            && all.verdict == ReadAll(c, more).verdict && all.rest == ReadAll(c, more).rest
            && Frames(all.taken) == [payload] + Frames(ReadAll(c, more).taken)
  {
    WrittenRoundTrip(c, p, payload, more);
    ReadAllFrames(c, Encode(p, payload).bytes + more);
  }

  lemma {:induction false} ReadStream(c: Config, p: Prepender, payloads: seq<seq<byte>>, tail: seq<byte>)
    requires Matching(c, p) && Sendable(c, p, payloads)
    ensures ReadAll(c, Stream(c, p, payloads) + tail).verdict == ReadAll(c, tail).verdict
    ensures ReadAll(c, Stream(c, p, payloads) + tail).rest == ReadAll(c, tail).rest
    ensures Frames(ReadAll(c, Stream(c, p, payloads) + tail).taken) == payloads + Frames(ReadAll(c, tail).taken)
  {
    if payloads == [] {
      assert Stream(c, p, payloads) + tail == tail;
    } else {
      var enc, more := Encode(p, payloads[0]).bytes, Stream(c, p, payloads[1..]);
      Assoc(enc, more, tail);
      ReadEncoded(c, p, payloads[0], more + tail);
      ReadStream(c, p, payloads[1..], tail);
      HeadAndTail(payloads, Frames(ReadAll(c, tail).taken));
    }
  }

  /** A frame that has not fully arrived is waited for. */
  lemma ProperPrefixWaits(c: Config, p: Prepender, payload: seq<byte>, k: nat)
    requires Matching(c, p) && Encode(p, payload).Written? && Recoverable(c, |payload|)
    requires k < |Encode(p, payload).bytes|
    ensures Decode(c, Encode(p, payload).bytes[..k]) == Decoded(Incomplete, [], Encode(p, payload).bytes[..k])
  {
    var enc := Encode(p, payload).bytes;
    if End(c) <= k {
      FieldOfEncoded(c, p, payload, []);
      assert enc + [] == enc;
      assert enc[..k][c.offset..End(c)] == enc[c.offset..End(c)];
      EncodedFrameLength(c, p, payload);
    }
  }

  /** Bytes received so far amount to whole frames and a proper prefix of the next one. */
  predicate CutsAt(c: Config, p: Prepender, payloads: seq<seq<byte>>, received: seq<byte>, j: nat, tail: seq<byte>)
    requires Matching(c, p) && Sendable(c, p, payloads)
  {
    && j <= |payloads|
    && received == Stream(c, p, payloads[..j]) + tail
    && (if j < |payloads| then tail < Encode(p, payloads[j]).bytes else tail == [])
  }

  lemma {:induction false} StreamPrefix(c: Config, p: Prepender, payloads: seq<seq<byte>>, received: seq<byte>)
    returns (j: nat, tail: seq<byte>)
    requires Matching(c, p) && Sendable(c, p, payloads)
    requires received <= Stream(c, p, payloads)
    ensures CutsAt(c, p, payloads, received, j, tail)
  {
    if payloads == [] {
      j, tail := 0, [];
    } else {
      var enc := Encode(p, payloads[0]).bytes;
      if |received| < |enc| {
        j, tail := 0, received;
        assert payloads[..0] == [];
        assert Stream(c, p, payloads[..0]) + tail == tail;
      } else {
        var more := received[|enc|..];
        assert received == enc + more;
        j, tail := StreamPrefix(c, p, payloads[1..], more);
        CutShift(c, p, payloads, more, j, tail);
        j := j + 1;
      }
    }
  }

  lemma CutShift(c: Config, p: Prepender, payloads: seq<seq<byte>>, more: seq<byte>, j: nat, tail: seq<byte>)
    requires Matching(c, p) && Sendable(c, p, payloads) && payloads != []
    requires CutsAt(c, p, payloads[1..], more, j, tail)
    ensures CutsAt(c, p, payloads, Encode(p, payloads[0]).bytes + more, j + 1, tail)
  {
    var head := payloads[..j + 1];
    assert head[1..] == payloads[1..][..j];
    var enc := Encode(p, payloads[0]).bytes;
    assert enc + (Stream(c, p, head[1..]) + tail) == (enc + Stream(c, p, head[1..])) + tail;
  }

  /**
   * Streaming: for every list of sendable payloads and every way their encodings are cut
   * into chunks, after any number of chunks the decoder has emitted exactly the first `j`
   * payloads and buffers a proper prefix of the encoding of the next (nothing when all
   * have been emitted); no read reports an error.
   */
  lemma AfterSomeChunks(c: Config, p: Prepender, payloads: seq<seq<byte>>, chunks: seq<seq<byte>>, k: nat)
    returns (j: nat)
    requires Matching(c, p) && Sendable(c, p, payloads)
    requires Concat(chunks) == Stream(c, p, payloads) && k <= |chunks|
    ensures j <= |payloads|
    ensures Frames(Feed(c, chunks[..k]).taken) == payloads[..j]
    ensures if j < |payloads| then Feed(c, chunks[..k]).buffer < Encode(p, payloads[j]).bytes
            else Feed(c, chunks[..k]).buffer == []
    ensures Concat(chunks[..k]) == Stream(c, p, payloads[..j]) + Feed(c, chunks[..k]).buffer
    ensures forall v :: v in Feed(c, chunks[..k]).verdicts ==> v.Incomplete?
  {
    var received := Concat(chunks[..k]);
    ConcatPrefix(chunks, k);
    var tail;
    j, tail := StreamPrefix(c, p, payloads, received);
    TailWaits(c, p, payloads, j, tail);
    ReadStream(c, p, payloads[..j], tail);
    ChunkIndependence(c, chunks[..k]);
  }

  lemma TailWaits(c: Config, p: Prepender, payloads: seq<seq<byte>>, j: nat, tail: seq<byte>)
    requires Matching(c, p) && Sendable(c, p, payloads) && j <= |payloads|
    requires if j < |payloads| then tail < Encode(p, payloads[j]).bytes else tail == []
    ensures ReadAll(c, tail) == Decoded(Incomplete, [], tail)
  {
    if j < |payloads| {
      var k := |tail|;
      assert tail == Encode(p, payloads[j]).bytes[..k];
      ProperPrefixWaits(c, p, payloads[j], k);
    }
  }

  /** All chunks delivered: exactly the payloads, in order, and an empty buffer. */
  lemma WholeStream(c: Config, p: Prepender, payloads: seq<seq<byte>>, chunks: seq<seq<byte>>)
    requires Matching(c, p) && Sendable(c, p, payloads)
    requires Concat(chunks) == Stream(c, p, payloads)
    ensures Frames(Feed(c, chunks).taken) == payloads && Feed(c, chunks).buffer == []
  {
    ReadWholeStream(c, p, payloads);
    ChunkIndependence(c, chunks);
  }

  /** The whole stream read at once. */
  lemma ReadWholeStream(c: Config, p: Prepender, payloads: seq<seq<byte>>)
    requires Matching(c, p) && Sendable(c, p, payloads)
    ensures var all := ReadAll(c, Stream(c, p, payloads));
            all.verdict.Incomplete? && all.rest == [] && Frames(all.taken) == payloads
  {
    TailWaits(c, p, payloads, |payloads|, []);
    ReadStream(c, p, payloads, []);
    assert Stream(c, p, payloads) + [] == Stream(c, p, payloads);
    assert payloads + Frames([]) == payloads;
  }

  // ----- the server's configuration -----

  const SERVER_DECODER := Config(2, 65536, 0, 0, 2, false)
  const SERVER_PREPENDER := Prepender(2, 0, false, false)

  /** The two ends disagree by one: the prepender writes 65535-byte payloads, the decoder stops at 65534. */
  lemma ServerLimits(payload: seq<byte>)
    ensures Matching(SERVER_DECODER, SERVER_PREPENDER)
    ensures |payload| < TWO_31 ==> (Encode(SERVER_PREPENDER, payload).Written? <==> |payload| <= 65535)
    ensures Recoverable(SERVER_DECODER, |payload|) <==> |payload| <= 65534
  {
    assert U32(65536 - 2) == 65534;
  }

  /** On the wire: the server writes the size, low byte first, then the payload. */
  lemma ServerWrites(p: Prepender, payload: seq<byte>)
    requires p == SERVER_PREPENDER && |payload| <= 65535
    ensures Encode(p, payload) == Written([|payload| % 256, |payload| / 256] + payload)
  {
    TwoBytesWritten(p, payload);
  }

  lemma TwoBytesWritten(p: Prepender, payload: seq<byte>)
    requires p.width == 2 && p.adjust == 0 && !p.includes && !p.network && |payload| <= 65535
    ensures Encode(p, payload) == Written([|payload| % 256, |payload| / 256] + payload)
  {
    TwoLEBytes(|payload|);
  }

  /** And it reads sizes the same way: the length of the frame at the front, with its field. */
  lemma ServerReads(c: Config, buf: seq<byte>)
    requires c.width == SERVER_DECODER.width && c.offset == SERVER_DECODER.offset
    requires c.adjust == SERVER_DECODER.adjust && c.network == SERVER_DECODER.network
    requires |buf| >= 2
    ensures End(c) == 2
    ensures var low: int, high: int := buf[0], buf[1];
            WrappedLength(c, FieldValue(c, buf)) == 2 + low + 256 * high
  {
    TwoByteField(buf[c.offset..End(c)]);
  }

  /** The server's stream theorem: payloads of at most 65534 bytes survive every chunking. */
  lemma ServerStream(payloads: seq<seq<byte>>, chunks: seq<seq<byte>>)
    requires forall i :: 0 <= i < |payloads| ==> |payloads[i]| <= 65534
    ensures Matching(SERVER_DECODER, SERVER_PREPENDER) && Sendable(SERVER_DECODER, SERVER_PREPENDER, payloads)
    ensures Concat(chunks) == Stream(SERVER_DECODER, SERVER_PREPENDER, payloads) ==>
              Frames(Feed(SERVER_DECODER, chunks).taken) == payloads && Feed(SERVER_DECODER, chunks).buffer == []
  {
    ServerLimits([]);
    forall i | 0 <= i < |payloads|
      ensures Encode(SERVER_PREPENDER, payloads[i]).Written? && Recoverable(SERVER_DECODER, |payloads[i]|)
    {
      ServerLimits(payloads[i]);
    }
    if Concat(chunks) == Stream(SERVER_DECODER, SERVER_PREPENDER, payloads) {
      WholeStream(SERVER_DECODER, SERVER_PREPENDER, payloads, chunks);
    }
  }

  /** The missing byte: a 65535-byte payload is written and then refused as oversize. */
  lemma ServerRefusesItsOwnLargest(payload: seq<byte>, rest: seq<byte>)
    requires |payload| == 65535
    ensures Matching(SERVER_DECODER, SERVER_PREPENDER) && Encode(SERVER_PREPENDER, payload).Written?
    ensures Decode(SERVER_DECODER, Encode(SERVER_PREPENDER, payload).bytes + rest).verdict.Oversize?
    ensures Decode(SERVER_DECODER, Encode(SERVER_PREPENDER, payload).bytes + rest).rest == rest
  {
    ServerLimits(payload);
    OversizedFrameIsSkipped(SERVER_DECODER, SERVER_PREPENDER, payload, rest);
  }
}
