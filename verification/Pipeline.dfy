/**
 * The byte pipeline in front of the services: frames, opcodes, messages, routing, and
 * the same way back.  Protobuf is a parameter: a parser, and the serializers it inverts.
 */
module Pipeline {
  import opened MachineInts
  import opened Segments
  import opened FrameDecoder
  import opened FrameTheorems
  import opened FrameEncoder
  import opened SegmentTheorems
  import opened Protocol
  import opened Registry
  import opened Services

  // ----- opcode and first segment -----

  /** OpcodeInjectHandler::read on a buffer chain: the id is read, the first segment is trimmed. */
  method ReadOpcode(chain: seq<seq<byte>>) returns (cmdId: nat, body: seq<seq<byte>>)
    requires chain != [] && |chain[0]| >= 2
    ensures |Concat(chain)| >= 2
    ensures cmdId == FromLE(Concat(chain)[..2]) && cmdId < 65536
    ensures body == [chain[0][2..]] + chain[1..]
    ensures Concat(body) == Concat(chain)[2..]
  {
    FirstSegment(chain);
    assert Concat(chain)[..2] == chain[0][..2];
    LEBound(chain[0][..2]);
    Pow256Values();
    cmdId := FromLE(chain[0][..2]);
    body := [chain[0][2..]] + chain[1..];
    FirstSegment(body);
    assert body[1..] == chain[1..];
  }

  /**
   * The serializer parses only the first segment of the trimmed chain: always a prefix of
   * the frame's body, and the whole body exactly when all later segments are empty.
   */
  lemma ParserSeesPrefix(chain: seq<seq<byte>>)
    requires chain != [] && |chain[0]| >= 2
    ensures |Concat(chain)| >= 2
    ensures chain[0][2..] <= Concat(chain)[2..]
    ensures chain[0][2..] == Concat(chain)[2..] <==> forall i :: 1 <= i < |chain| ==> chain[i] == []
  {
    FirstSegment(chain);
    ConcatEmptyIff(chain[1..]);
    assert Concat(chain)[2..] == chain[0][2..] + Concat(chain[1..]);
    assert (forall i :: 1 <= i < |chain| ==> chain[i] == []) <==>
           (forall i :: 0 <= i < |chain[1..]| ==> chain[1..][i] == []) by {
      forall i | 1 <= i < |chain| ensures chain[i] == chain[1..][i - 1] {
      }
    }
  }

  /** What the parser is given. */
  datatype Opened = Opened(cmdId: nat, body: seq<byte>)

  /**
   * The opcode and the first segment behind it.  Trimming the opcode off a first segment
   * shorter than two bytes runs past it; what the code does then is undefined, and the
   * model loses the frame.
   */
  function Open(frame: seq<Cell>): Option<Opened> {
    if frame == [] || |Chain(frame)[0]| < 2 then None
    else Some(Opened(FromLE(Chain(frame)[0][..2]), Chain(frame)[0][2..]))
  }

  /** The parser is given the whole body exactly when the frame lies in one segment; otherwise a proper prefix. */
  lemma WholeBodyIff(frame: seq<Cell>, cmdId: nat, body: seq<byte>)
    requires |frame| >= 2 && cmdId == FromLE(Bytes(frame)[..2]) && body == Bytes(frame)[2..]
    ensures Open(frame) == Some(Opened(cmdId, body)) <==> Solid(frame, 0, |frame|)
    ensures Open(frame).Some? ==> Open(frame).value.cmdId == cmdId && Open(frame).value.body <= body
    ensures Open(frame).Some? && !Solid(frame, 0, |frame|) ==> Open(frame).value.body < body
  {
    var chain := Chain(frame);
    ChainBytes(frame);
    OneSegmentIff(frame);
    if |chain[0]| >= 2 {
      ParserSeesPrefix(chain);
      FirstSegment(chain);
      assert Bytes(frame)[..2] == chain[0][..2];
      if |chain| > 1 {
        assert chain[1] != [];
      }
    }
  }

  /** The first segment of the frame is its first `q` bytes. */
  predicate CutAt(frame: seq<Cell>, q: nat) {
    && q <= |frame| && (q == 0 ==> frame == [])
    && Solid(frame, 0, q) && (q < |frame| ==> frame[q].starts)
  }

  lemma FirstCut(frame: seq<Cell>) returns (q: nat)
    ensures CutAt(frame, q)
  {
    q := if frame == [] then 0 else FirstLength(frame, 1);
  }

  lemma CutIsFirstLength(frame: seq<Cell>, q: nat)
    requires CutAt(frame, q) && frame != []
    ensures q == FirstLength(frame, 1)
  {
  }

  /**
   * Every frame, cut or whole, is opened unless its first segment is too short for the
   * opcode: the id is the first two bytes, low byte first, and the parser is given
   * exactly the rest of the first segment.
   */
  lemma OpensExactly(frame: seq<Cell>, q: nat)
    requires CutAt(frame, q)
    ensures q < 2 ==> Open(frame) == None
    ensures q >= 2 ==>
              var low: int, high: int := frame[0].value, frame[1].value;
              Open(frame) == Some(Opened(low + 256 * high, Bytes(frame)[2..q]))
  {
    if frame != [] {
      CutIsFirstLength(frame, q);
      if q >= 2 {
        var first := Chain(frame)[0];
        assert first == Bytes(frame)[..q];
        TwoByteField(first[..2]);
        assert first[2..] == Bytes(frame)[2..q];
      }
    }
  }

  // ----- one frame -----

  /** Message parsing and serialisation; `encode` is the client's side. */
  datatype Codec = Codec(
    parse: (nat, seq<byte>) -> Option<Request>,
    encode: Request -> seq<byte>,
    serialize: Response -> seq<byte>)

  function CmdId(req: Request): nat {
    match req
    case Login(_) => LOGIN
    case Register(_) => REGISTER
    case Query(_) => QUERY_TASK
    case Update(_) => UPDATE_TASK
    case Erase(_) => ERASE_ROLE
  }

  /** Parsing gives back this request.  Not every value is a message: 1/3 is no double, 2^48 no `int32`. */
  predicate Inverts(codec: Codec, req: Request) {
    codec.parse(CmdId(req), codec.encode(req)) == Some(req)
  }

  /** Nothing shorter than its encoding is read as this request. */
  ghost predicate Strict(codec: Codec, req: Request) {
    forall body: seq<byte> :: body < codec.encode(req) ==> codec.parse(CmdId(req), body) != Some(req)
  }

  /** Parsing only yields messages of the command's own request type. */
  ghost predicate Typed(codec: Codec) {
    forall id, body :: codec.parse(id, body).Some? ==> CmdId(codec.parse(id, body).value) == id
  }

  /** Who answers a command: the role handler intercepts two, the dispatcher runs the other sync ones. */
  function Route(r: Registries, cmdId: nat): Option<Answerer> {
    if cmdId == LOGIN || cmdId == REGISTER then Some(RoleHandler)
    else if cmdId in r.sync then Some(Dispatcher)
    else None
  }

  /** OpcodeInjectHandler::write: the reply to command n carries n + 1. */
  function WithOpcode(cmdId: nat, body: seq<byte>): seq<byte> {
    ToLE((cmdId + 1) % 65536, 2) + body
  }

  datatype Answered = Answered(answerer: Answerer, cmdId: nat, rsp: Response, wire: Encoded)

  /** The server's memory and what has been written to one connection. */
  datatype Exchange = Exchange(m: Shared, fates: seq<Fate>, answers: seq<Answered>)

  /** What a connection is set up with: protobuf, the registries, its framing and its peer. */
  datatype Context = Context(codec: Codec, registries: Registries, addr: Addr, c: Config, p: Prepender)

  predicate Framed(k: Context) {
    Matching(k.c, k.p)
  }

  /** The request a frame carries, if it gets through the opcode and message checks. */
  function RequestIn(k: Context, frame: seq<Cell>): Option<Request> {
    var input := Open(frame);
    if input.None? then None
    else
      var cmdId := input.value.cmdId;
      if cmdId !in k.registries.reflection || Route(k.registries, cmdId).None? then None
      else k.codec.parse(cmdId, input.value.body)
  }

  /** A parsed request is served and its response written back under the reply opcode. */
  function AnswerRequest(k: Context, x: Exchange, cmdId: nat, req: Request): Exchange
    requires Framed(k) && Route(k.registries, cmdId).Some?
  {
    var o := Serve(x.m, k.addr, req, x.fates);
    var wire := Encode(k.p, WithOpcode(cmdId, k.codec.serialize(o.rsp)));
    Exchange(o.m, o.fates, x.answers + [Answered(Route(k.registries, cmdId).value, cmdId, o.rsp, wire)])
  }

  function HandleFrame(k: Context, x: Exchange, frame: seq<Cell>): Exchange
    requires Framed(k)
  {
    var req := RequestIn(k, frame);
    if req.None? then x else AnswerRequest(k, x, Open(frame).value.cmdId, req.value)
  }

  function HandleAll(k: Context, x: Exchange, frames: seq<seq<Cell>>): Exchange
    requires Framed(k)
  {
    if frames == [] then x
    else HandleFrame(k, HandleAll(k, x, frames[..|frames| - 1]), frames[|frames| - 1])
  }

  lemma {:induction false} HandleAppend(k: Context, x: Exchange, a: seq<seq<Cell>>, b: seq<seq<Cell>>)
    requires Framed(k)
    ensures HandleAll(k, x, a + b) == HandleAll(k, HandleAll(k, x, a), b)
  {
    if b == [] {
      assert a + b == a;
    } else {
      HandleAppend(k, x, a, b[..|b| - 1]);
      InitOfAppend(a, b);
    }
  }

  /**
   * Where all commands are synchronous, a frame whose first segment is its first `q` bytes,
   * whole or cut, is answered exactly when these hold the opcode of a registered command
   * and, behind it, something that parses.  It is served as exactly that, by the role
   * handler for LOGIN and REGISTER, and answered under the next opcode; otherwise nothing
   * changes.
   */
  lemma AnsweredIff(k: Context, x: Exchange, frame: seq<Cell>, q: nat)
    requires Framed(k) && Consistent(k.registries) && k.registries.async == map[] && CutAt(frame, q)
    ensures q < 2 ==> HandleFrame(k, x, frame) == x
    ensures q >= 2 ==>
              var low: int, high: int := frame[0].value, frame[1].value;
              var id: nat := low + 256 * high;
              var req := k.codec.parse(id, Bytes(frame)[2..q]);
              HandleFrame(k, x, frame) ==
              if id in k.registries.sync && req.Some? then ServedAs(k, x, id, req.value) else x
  {
    OpensExactly(frame, q);
    if q >= 2 {
      AnsweredAs(k, x, Open(frame).value.cmdId, Bytes(frame)[2..q]);
    }
  }

  lemma AnsweredAs(k: Context, x: Exchange, id: nat, body: seq<byte>)
    requires Framed(k) && Consistent(k.registries) && k.registries.async == map[] && id < 65536
    ensures id in k.registries.sync <==> id in k.registries.reflection && Route(k.registries, id).Some?
    ensures id in k.registries.sync && k.codec.parse(id, body).Some? ==>
              var req := k.codec.parse(id, body).value;
              AnswerRequest(k, x, id, req) == ServedAs(k, x, id, req)
  {
    assert k.registries.async.Keys == {};
    assert id in k.registries.reflection <==> id in k.registries.sync.Keys;
    if id in k.registries.sync && k.codec.parse(id, body).Some? {
      NextOpcode(id, k.codec.serialize(Serve(x.m, k.addr, k.codec.parse(id, body).value, x.fates).rsp));
    }
  }

  lemma NextOpcode(id: nat, body: seq<byte>)
    requires id < 65536
    ensures WithOpcode(id, body) == [(id + 1) % 256, (id + 1) / 256 % 256] + body
  {
    TwoLEBytes((id + 1) % 65536);
  }

  /** One more answer, with the memory the service leaves. */
  function ServedAs(k: Context, x: Exchange, id: nat, req: Request): Exchange
    requires Framed(k)
  {
    var o := Serve(x.m, k.addr, req, x.fates);
    var reply: seq<byte> := [(id + 1) % 256, (id + 1) / 256 % 256] + k.codec.serialize(o.rsp);
    var answerer := if id in {101, 103} then RoleHandler else Dispatcher;
    Exchange(o.m, o.fates, x.answers + [Answered(answerer, id, o.rsp, Encode(k.p, reply))])
  }

  // ----- a connection -----

  datatype Link = Link(buffer: seq<Cell>, x: Exchange)

  /** One socket read: decode what is buffered, handling each frame as it comes out. */
  function OnData(k: Context, link: Link, a: Arrival): Link
    requires Framed(k)
  {
    var cut := ReadCells(k.c, link.buffer + Stamp(a));
    Link(cut.rest, HandleAll(k, link.x, cut.frames))
  }

  function Converse(k: Context, x: Exchange, arrivals: seq<Arrival>): Link
    requires Framed(k)
  {
    if arrivals == [] then Link([], x)
    else OnData(k, Converse(k, x, arrivals[..|arrivals| - 1]), arrivals[|arrivals| - 1])
  }

  /** Handling never feeds back into framing: a conversation is its frames, handled in order. */
  lemma {:induction false} ConverseIsFrames(k: Context, x: Exchange, arrivals: seq<Arrival>)
    requires Framed(k)
    ensures Converse(k, x, arrivals).buffer == FeedCells(k.c, arrivals).buffer
    ensures Converse(k, x, arrivals).x == HandleAll(k, x, FeedCells(k.c, arrivals).frames)
  {
    if arrivals != [] {
      var before := arrivals[..|arrivals| - 1];
      ConverseIsFrames(k, x, before);
      var t := FeedCells(k.c, before);
      HandleAppend(k, x, t.frames, ReadCells(k.c, t.buffer + Stamp(arrivals[|arrivals| - 1])).frames);
    }
  }

  // ----- end to end -----

  function RequestFrame(codec: Codec, req: Request): seq<byte> {
    ToLE(CmdId(req), 2) + codec.encode(req)
  }

  function RequestFrames(codec: Codec, reqs: seq<Request>): (frames: seq<seq<byte>>)
    ensures |frames| == |reqs|
    ensures forall i :: 0 <= i < |reqs| ==> frames[i] == RequestFrame(codec, reqs[i])
  {
    if reqs == [] then []
    else RequestFrames(codec, reqs[..|reqs| - 1]) + [RequestFrame(codec, reqs[|reqs| - 1])]
  }

  /** The services alone: the requests served in order. */
  datatype Served = Served(m: Shared, fates: seq<Fate>, rsps: seq<Response>)

  function ServeAll(m: Shared, fates: seq<Fate>, addr: Addr, reqs: seq<Request>): (s: Served)
    ensures |s.rsps| == |reqs|
  {
    if reqs == [] then Served(m, fates, [])
    else
      var before := ServeAll(m, fates, addr, reqs[..|reqs| - 1]);
      var o := Serve(before.m, addr, reqs[|reqs| - 1], before.fates);
      Served(o.m, o.fates, before.rsps + [o.rsp])
  }

  /** The answer a request must get. */
  function ReplyPayload(codec: Codec, req: Request, rsp: Response): seq<byte> {
    ToLE(CmdId(req) + 1, 2) + codec.serialize(rsp)
  }

  predicate GoodAnswer(k: Context, req: Request, rsp: Response, a: Answered)
    requires Framed(k)
  {
    && a.answerer == (if req.Login? || req.Register? then RoleHandler else Dispatcher)
    && a.cmdId == CmdId(req) && a.rsp == rsp
    && a.wire == Encode(k.p, ReplyPayload(k.codec, req, rsp))
  }

  lemma OpcodeRoundTrip(codec: Codec, req: Request)
    ensures |RequestFrame(codec, req)| >= 2
    ensures FromLE(RequestFrame(codec, req)[..2]) == CmdId(req)
    ensures RequestFrame(codec, req)[2..] == codec.encode(req)
  {
    Pow256Values();
    LERoundTrip(CmdId(req), 2);
    assert RequestFrame(codec, req)[..2] == ToLE(CmdId(req), 2);
  }

  /** One good answer per request, in order. */
  predicate AllGood(k: Context, reqs: seq<Request>, rsps: seq<Response>, answers: seq<Answered>)
    requires Framed(k)
  {
    && |reqs| == |rsps| == |answers|
    && forall i :: 0 <= i < |reqs| ==> GoodAnswer(k, reqs[i], rsps[i], answers[i])
  }

  lemma OneMoreGood(k: Context, reqs: seq<Request>, rsps: seq<Response>, answers: seq<Answered>, n: nat)
    requires Framed(k) && |reqs| == |rsps| == |answers| == n + 1
    requires AllGood(k, reqs[..n], rsps[..n], answers[..n]) && GoodAnswer(k, reqs[n], rsps[n], answers[n])
    ensures AllGood(k, reqs, rsps, answers)
  {
    forall i | 0 <= i < n ensures GoodAnswer(k, reqs[i], rsps[i], answers[i]) {
      assert GoodAnswer(k, reqs[..n][i], rsps[..n][i], answers[..n][i]);
    }
  }

  /** The frame's bytes are this request's. */
  ghost predicate Carries(k: Context, frame: seq<Cell>, req: Request) {
    Bytes(frame) == RequestFrame(k.codec, req)
  }

  ghost predicate Servable(k: Context, req: Request) {
    Inverts(k.codec, req) && CmdId(req) in k.registries.sync
  }

  lemma RouteOf(k: Context, req: Request)
    requires CmdId(req) in k.registries.sync
    ensures Route(k.registries, CmdId(req)) == Some(if req.Login? || req.Register? then RoleHandler else Dispatcher)
  {
  }

  /**
   * A request to a registered sync command gets through whole in one segment; one cut by a
   * segment boundary does not, if nothing shorter than its encoding is read as it.
   */
  lemma GetsThroughIff(k: Context, frame: seq<Cell>, req: Request)
    requires Consistent(k.registries) && Servable(k, req) && Carries(k, frame, req)
    ensures Solid(frame, 0, |frame|) ==>
              RequestIn(k, frame) == Some(req) && Open(frame).Some? && Open(frame).value.cmdId == CmdId(req)
    ensures Strict(k.codec, req) && RequestIn(k, frame) == Some(req) ==> Solid(frame, 0, |frame|)
  {
    OpcodeRoundTrip(k.codec, req);
    RouteOf(k, req);
    WholeBodyIff(frame, CmdId(req), k.codec.encode(req));
    assert CmdId(req) in k.registries.reflection;
  }

  /** One request frame, in one segment, to a registered sync command gets exactly one good answer. */
  lemma OneRequest(k: Context, x: Exchange, frame: seq<Cell>, req: Request, o: Outcome)
    requires Framed(k) && Consistent(k.registries) && Servable(k, req)
    requires Carries(k, frame, req) && Solid(frame, 0, |frame|)
    requires o == Serve(x.m, k.addr, req, x.fates)
    ensures var x' := HandleFrame(k, x, frame);
            && x'.m == o.m && x'.fates == o.fates
            && |x'.answers| == |x.answers| + 1 && x'.answers[..|x.answers|] == x.answers
            && GoodAnswer(k, req, o.rsp, x'.answers[|x.answers|])
  {
    GetsThroughIff(k, frame, req);
    AnswerIsGood(k, x, req, o);
  }

  lemma AnswerIsGood(k: Context, x: Exchange, req: Request, o: Outcome)
    requires Framed(k) && CmdId(req) in k.registries.sync
    requires o == Serve(x.m, k.addr, req, x.fates)
    ensures Route(k.registries, CmdId(req)).Some?
    ensures var x' := AnswerRequest(k, x, CmdId(req), req);
            && x'.m == o.m && x'.fates == o.fates
            && |x'.answers| == |x.answers| + 1 && x'.answers[..|x.answers|] == x.answers
            && GoodAnswer(k, req, o.rsp, x'.answers[|x.answers|])
  {
    RouteOf(k, req);
    assert WithOpcode(CmdId(req), k.codec.serialize(o.rsp)) == ReplyPayload(k.codec, req, o.rsp);
  }

  lemma {:induction false} AllRequests(k: Context, m: Shared, fates: seq<Fate>, reqs: seq<Request>, frames: seq<seq<Cell>>)
    requires Framed(k) && Consistent(k.registries) && |frames| == |reqs|
    requires forall i :: 0 <= i < |reqs| ==>
               Servable(k, reqs[i]) && Carries(k, frames[i], reqs[i]) && Solid(frames[i], 0, |frames[i]|)
    ensures var x := HandleAll(k, Exchange(m, fates, []), frames);
            var s := ServeAll(m, fates, k.addr, reqs);
            x.m == s.m && x.fates == s.fates && AllGood(k, reqs, s.rsps, x.answers)
  {
    if reqs != [] {
      var n := |reqs| - 1;
      AllRequests(k, m, fates, reqs[..n], frames[..n]);
      var before := HandleAll(k, Exchange(m, fates, []), frames[..n]);
      var s := ServeAll(m, fates, k.addr, reqs);
      LastServed(m, fates, k.addr, reqs);
      OneRequest(k, before, frames[n], reqs[n], Serve(before.m, k.addr, reqs[n], before.fates));
      var x := HandleFrame(k, before, frames[n]);
      OneMoreGood(k, reqs, s.rsps, x.answers, n);
    }
  }

  lemma LastServed(m: Shared, fates: seq<Fate>, addr: Addr, reqs: seq<Request>)
    requires reqs != []
    ensures var n := |reqs| - 1;
            var before, s := ServeAll(m, fates, addr, reqs[..n]), ServeAll(m, fates, addr, reqs);
            var o := Serve(before.m, addr, reqs[n], before.fates);
            s.m == o.m && s.fates == o.fates && s.rsps[..n] == before.rsps && s.rsps[n] == o.rsp
  {
  }

  /** A stream of requests to registered sync commands that the codec and the framing can carry. */
  ghost predicate RequestStream(k: Context, reqs: seq<Request>, arrivals: seq<Arrival>) {
    && Framed(k) && Consistent(k.registries)
    && (forall i :: 0 <= i < |reqs| ==> Servable(k, reqs[i]))
    && Sendable(k.c, k.p, RequestFrames(k.codec, reqs))
    && Concat(Chunks(arrivals)) == Stream(k.c, k.p, RequestFrames(k.codec, reqs))
  }

  /** No read opened a new segment strictly inside request `i`: its opcode and body, without the length field. */
  ghost predicate Whole(k: Context, reqs: seq<Request>, arrivals: seq<Arrival>, i: nat)
    requires i < |reqs|
  {
    var payloads := RequestFrames(k.codec, reqs);
    Uncut(arrivals, Low(k.c.width, payloads, i), High(k.c.width, payloads, i))
  }

  /** The frames a request stream decodes to, and which of them lie in one segment. */
  lemma StreamFrames(k: Context, reqs: seq<Request>, arrivals: seq<Arrival>)
    requires RequestStream(k, reqs, arrivals)
    ensures var t := FeedCells(k.c, arrivals);
            && t.buffer == [] && |t.frames| == |reqs|
            && forall i :: 0 <= i < |reqs| ==>
                 && Carries(k, t.frames[i], reqs[i])
                 && (Solid(t.frames[i], 0, |t.frames[i]|) <==> Whole(k, reqs, arrivals, i))
  {
    var payloads := RequestFrames(k.codec, reqs);
    WholeStreamInSegments(k.c, k.p, payloads, arrivals);
    var t := FeedCells(k.c, arrivals);
    forall i | 0 <= i < |reqs|
      ensures Carries(k, t.frames[i], reqs[i])
      ensures Solid(t.frames[i], 0, |t.frames[i]|) <==> Whole(k, reqs, arrivals, i)
    {
      assert AllBytes(t.frames)[i] == payloads[i];
      assert payloads[i] != [];
      OneSegmentIff(t.frames[i]);
    }
  }

  /**
   * Exactly which requests of a stream reach their service unchanged, for every chunking
   * and every placement of the reads into segments: those that no new segment was opened
   * inside of.
   */
  lemma ReachesServiceIff(k: Context, reqs: seq<Request>, arrivals: seq<Arrival>, i: nat)
    requires RequestStream(k, reqs, arrivals) && i < |reqs| && Strict(k.codec, reqs[i])
    ensures i < |FeedCells(k.c, arrivals).frames|
    ensures RequestIn(k, FeedCells(k.c, arrivals).frames[i]) == Some(reqs[i]) <==> Whole(k, reqs, arrivals, i)
  {
    StreamFrames(k, reqs, arrivals);
    GetsThroughIff(k, FeedCells(k.c, arrivals).frames[i], reqs[i]);
  }

  /** The failing family: a lone request arriving in two reads, the second put into a new segment inside the payload. */
  lemma CutRequestIsMisread(k: Context, req: Request, first: Arrival, second: Arrival, arrivals: seq<Arrival>)
    requires arrivals == [first, second] && !second.joined
    requires k.c.width < |first.bytes| && second.bytes != []
    requires RequestStream(k, [req], arrivals) && Strict(k.codec, req)
    ensures var frames := FeedCells(k.c, arrivals).frames;
            |frames| == 1 && RequestIn(k, frames[0]) != Some(req)
  {
    StreamFrames(k, [req], arrivals);
    ReachesServiceIff(k, [req], arrivals, 0);
    SecondOpens(arrivals);
    LoneFrame(k, req, arrivals);
  }

  lemma SecondOpens(arrivals: seq<Arrival>)
    requires |arrivals| == 2 && !arrivals[1].joined && arrivals[1].bytes != []
    ensures OpensAt(arrivals, |arrivals[0].bytes|)
    ensures |Concat(Chunks(arrivals))| == |arrivals[0].bytes| + |arrivals[1].bytes|
  {
    assert arrivals[..1][..0] == [];
    assert Lengths(arrivals[..1]) == |arrivals[0].bytes|;
    var chunks: seq<seq<byte>> := Chunks(arrivals);
    FirstSegment(chunks);
    FirstSegment(chunks[1..]);
    var tail: seq<seq<byte>> := chunks[1..][1..];
    assert tail == [];
  }

  lemma LoneFrame(k: Context, req: Request, arrivals: seq<Arrival>)
    requires RequestStream(k, [req], arrivals)
    ensures var payloads := RequestFrames(k.codec, [req]);
            Low(k.c.width, payloads, 0) == k.c.width && High(k.c.width, payloads, 0) == |Concat(Chunks(arrivals))|
  {
    var payloads := RequestFrames(k.codec, [req]);
    FieldOfEncoded(k.c, k.p, payloads[0], []);
    assert payloads[1..] == [];
    assert Stream(k.c, k.p, payloads) == Encode(k.p, payloads[0]).bytes + Stream(k.c, k.p, payloads[1..]);
  }

  /**
   * End to end: for every chunking of a stream of requests to registered sync commands in
   * which each request lies in one segment, the connection ends with an empty buffer,
   * exactly one answer per request in order, each written under opcode n + 1 with the
   * response the services give in that order, LOGIN and REGISTER answered by the role
   * handler and all others by the dispatcher.
   */
  lemma EndToEnd(k: Context, m: Shared, fates: seq<Fate>, reqs: seq<Request>, arrivals: seq<Arrival>)
    requires RequestStream(k, reqs, arrivals) && forall i :: 0 <= i < |reqs| ==> Whole(k, reqs, arrivals, i)
    ensures var link := Converse(k, Exchange(m, fates, []), arrivals);
            var s := ServeAll(m, fates, k.addr, reqs);
            link.buffer == [] && link.x.m == s.m && AllGood(k, reqs, s.rsps, link.x.answers)
  {
    StreamFrames(k, reqs, arrivals);
    ConverseIsFrames(k, Exchange(m, fates, []), arrivals);
    AllRequests(k, m, fates, reqs, FeedCells(k.c, arrivals).frames);
  }

  // ----- every placement into segments -----

  /** What a request is read as when only the first `q` bytes of its frame are in the first segment. */
  function ReadAs(codec: Codec, req: Request, q: nat): Option<Request>
    requires q <= 2 + |codec.encode(req)|
  {
    if q < 2 then None else codec.parse(CmdId(req), codec.encode(req)[..q - 2])
  }

  predicate CutsFit(codec: Codec, reqs: seq<Request>, cuts: seq<nat>) {
    |cuts| == |reqs| && forall i :: 0 <= i < |reqs| ==> cuts[i] <= 2 + |codec.encode(reqs[i])|
  }

  /** The requests the services get to see. */
  function Delivered(codec: Codec, reqs: seq<Request>, cuts: seq<nat>): seq<Request>
    requires CutsFit(codec, reqs, cuts)
  {
    if reqs == [] then []
    else
      var n := |reqs| - 1;
      var last := ReadAs(codec, reqs[n], cuts[n]);
      Delivered(codec, reqs[..n], cuts[..n]) + if last.Some? then [last.value] else []
  }

  /** Read off the socket reads: where the first new segment was opened inside each request, or its end. */
  ghost predicate CutsOf(k: Context, reqs: seq<Request>, arrivals: seq<Arrival>, cuts: seq<nat>) {
    && CutsFit(k.codec, reqs, cuts)
    && forall i :: 0 <= i < |reqs| ==> CutHere(k, reqs, arrivals, i, cuts[i])
  }

  ghost predicate CutHere(k: Context, reqs: seq<Request>, arrivals: seq<Arrival>, i: nat, q: nat)
    requires i < |reqs|
  {
    var payloads := RequestFrames(k.codec, reqs);
    var lo := Low(k.c.width, payloads, i);
    && 0 < q <= |payloads[i]| && Uncut(arrivals, lo, lo + q)
    && (q < |payloads[i]| ==> OpensAt(arrivals, lo + q))
  }

  /** A request frame, whole or cut, is read as what its first segment parses to. */
  lemma CutIsReadAs(k: Context, frame: seq<Cell>, req: Request, q: nat)
    requires Consistent(k.registries) && CmdId(req) in k.registries.sync && Carries(k, frame, req) && CutAt(frame, q)
    ensures q <= 2 + |k.codec.encode(req)| && RequestIn(k, frame) == ReadAs(k.codec, req, q)
    ensures q >= 2 ==> Open(frame).Some? && Open(frame).value.cmdId == CmdId(req)
  {
    OpensExactly(frame, q);
    OpcodeRoundTrip(k.codec, req);
    RouteOf(k, req);
    assert CmdId(req) in k.registries.reflection;
    if q >= 2 {
      TwoByteField(Bytes(frame)[..2]);
      assert Bytes(frame)[2..q] == k.codec.encode(req)[..q - 2];
    }
  }

  lemma {:induction false} AllDelivered(k: Context, m: Shared, fates: seq<Fate>, reqs: seq<Request>,
                                        frames: seq<seq<Cell>>, cuts: seq<nat>)
    requires Framed(k) && Consistent(k.registries) && Typed(k.codec) && |frames| == |reqs|
    requires CutsFit(k.codec, reqs, cuts)
    requires forall i :: 0 <= i < |reqs| ==>
               CmdId(reqs[i]) in k.registries.sync && Carries(k, frames[i], reqs[i]) && CutAt(frames[i], cuts[i])
    ensures var x := HandleAll(k, Exchange(m, fates, []), frames);
            Saw(k, m, fates, Delivered(k.codec, reqs, cuts), x)
  {
    if reqs != [] {
      var n := |reqs| - 1;
      AllDelivered(k, m, fates, reqs[..n], frames[..n], cuts[..n]);
      var before := HandleAll(k, Exchange(m, fates, []), frames[..n]);
      NextDelivered(k, m, fates, Delivered(k.codec, reqs[..n], cuts[..n]), reqs[n], frames[n], cuts[n], before);
    }
  }

  /** The services have seen `seen` and left this exchange. */
  ghost predicate Saw(k: Context, m: Shared, fates: seq<Fate>, seen: seq<Request>, x: Exchange)
    requires Framed(k)
  {
    var s := ServeAll(m, fates, k.addr, seen);
    x.m == s.m && x.fates == s.fates && AllGood(k, seen, s.rsps, x.answers)
  }

  lemma NextDelivered(k: Context, m: Shared, fates: seq<Fate>, seen: seq<Request>, req: Request, frame: seq<Cell>,
                      q: nat, before: Exchange)
    requires Framed(k) && Consistent(k.registries) && Typed(k.codec) && q <= 2 + |k.codec.encode(req)|
    requires CmdId(req) in k.registries.sync && Carries(k, frame, req) && CutAt(frame, q)
    requires Saw(k, m, fates, seen, before)
    ensures var read := ReadAs(k.codec, req, q);
            Saw(k, m, fates, seen + (if read.Some? then [read.value] else []), HandleFrame(k, before, frame))
  {
    CutIsReadAs(k, frame, req, q);
    RouteOf(k, req);
    var read := ReadAs(k.codec, req, q);
    if read.Some? {
      OneDelivered(k, m, fates, seen, read.value, before);
    } else {
      assert seen + [] == seen;
    }
  }

  lemma OneDelivered(k: Context, m: Shared, fates: seq<Fate>, seen: seq<Request>, req: Request, before: Exchange)
    requires Framed(k) && CmdId(req) in k.registries.sync && Route(k.registries, CmdId(req)).Some?
    requires Saw(k, m, fates, seen, before)
    ensures Saw(k, m, fates, seen + [req], AnswerRequest(k, before, CmdId(req), req))
  {
    var all := seen + [req];
    assert all[..|seen|] == seen;
    LastServed(m, fates, k.addr, all);
    AnswerIsGood(k, before, req, Serve(before.m, k.addr, req, before.fates));
    OneMoreGood(k, all, ServeAll(m, fates, k.addr, all).rsps, AnswerRequest(k, before, CmdId(req), req).answers, |seen|);
  }

  /** The reads of a stream say where each frame's first segment ends. */
  lemma CutIffHere(k: Context, reqs: seq<Request>, arrivals: seq<Arrival>, i: nat, q: nat)
    requires RequestStream(k, reqs, arrivals) && i < |reqs|
    ensures i < |FeedCells(k.c, arrivals).frames|
    ensures CutAt(FeedCells(k.c, arrivals).frames[i], q) <==> CutHere(k, reqs, arrivals, i, q)
  {
    var payloads := RequestFrames(k.codec, reqs);
    MarksOfFrames(k.c, k.p, payloads, arrivals, i);
    var frame, lo := FeedCells(k.c, arrivals).frames[i], Low(k.c.width, payloads, i);
    assert |frame| >= 2;
    if q <= |frame| {
      SolidIffUncut(frame, arrivals, lo, q);
    }
  }

  lemma SolidIffUncut(frame: seq<Cell>, arrivals: seq<Arrival>, lo: nat, n: nat)
    requires n <= |frame|
    requires forall q :: 0 <= q < |frame| ==> (frame[q].starts <==> OpensAt(arrivals, lo + q))
    ensures Solid(frame, 0, n) <==> Uncut(arrivals, lo, lo + n)
  {
    if Uncut(arrivals, lo, lo + n) {
      forall q | 0 < q < n ensures !frame[q].starts {
        assert !OpensAt(arrivals, lo + q);
      }
    }
    if Solid(frame, 0, n) {
      forall q | lo < q < lo + n ensures !OpensAt(arrivals, q) {
        assert !frame[q - lo].starts;
      }
    }
  }

  /**
   * End to end without any assumption on segments: for every chunking of a request stream
   * and every placement of the reads into segments, the buffer ends empty, and the
   * services see, in order, exactly what the first segment of each request parses to; each
   * of these gets one good answer, the others none.
   */
  lemma EndToEndCut(k: Context, m: Shared, fates: seq<Fate>, reqs: seq<Request>, arrivals: seq<Arrival>, cuts: seq<nat>)
    requires RequestStream(k, reqs, arrivals) && Typed(k.codec) && CutsOf(k, reqs, arrivals, cuts)
    ensures var link := Converse(k, Exchange(m, fates, []), arrivals);
            var seen := Delivered(k.codec, reqs, cuts);
            var s := ServeAll(m, fates, k.addr, seen);
            link.buffer == [] && link.x.m == s.m && AllGood(k, seen, s.rsps, link.x.answers)
  {
    AllCut(k, reqs, arrivals, cuts);
    ConverseIsFrames(k, Exchange(m, fates, []), arrivals);
    AllDelivered(k, m, fates, reqs, FeedCells(k.c, arrivals).frames, cuts);
  }

  lemma AllCut(k: Context, reqs: seq<Request>, arrivals: seq<Arrival>, cuts: seq<nat>)
    requires RequestStream(k, reqs, arrivals) && CutsOf(k, reqs, arrivals, cuts)
    ensures var t := FeedCells(k.c, arrivals);
            && t.buffer == [] && |t.frames| == |reqs|
            && forall i :: 0 <= i < |reqs| ==>
                 && CmdId(reqs[i]) in k.registries.sync
                 && Carries(k, t.frames[i], reqs[i]) && CutAt(t.frames[i], cuts[i])
  {
    StreamFrames(k, reqs, arrivals);
    var frames := FeedCells(k.c, arrivals).frames;
    forall i | 0 <= i < |reqs| ensures CutAt(frames[i], cuts[i]) && CmdId(reqs[i]) in k.registries.sync {
      CutIffHere(k, reqs, arrivals, i, cuts[i]);
      assert CutHere(k, reqs, arrivals, i, cuts[i]) && Servable(k, reqs[i]);
    }
  }

  /** The cuts exist for every stream. */
  lemma EveryStreamHasCuts(k: Context, reqs: seq<Request>, arrivals: seq<Arrival>) returns (cuts: seq<nat>)
    requires RequestStream(k, reqs, arrivals)
    ensures CutsOf(k, reqs, arrivals, cuts)
  {
    cuts := CutsUpTo(k, reqs, arrivals, |reqs|);
  }

  lemma CutsUpTo(k: Context, reqs: seq<Request>, arrivals: seq<Arrival>, n: nat) returns (cuts: seq<nat>)
    requires RequestStream(k, reqs, arrivals) && n <= |reqs|
    ensures |cuts| == n
    ensures forall i :: 0 <= i < n ==>
              CutHere(k, reqs, arrivals, i, cuts[i]) && cuts[i] <= 2 + |k.codec.encode(reqs[i])|
  {
    if n == 0 {
      cuts := [];
    } else {
      var before := CutsUpTo(k, reqs, arrivals, n - 1);
      var q := CutFor(k, reqs, arrivals, n - 1);
      cuts := before + [q];
    }
  }

  lemma CutFor(k: Context, reqs: seq<Request>, arrivals: seq<Arrival>, i: nat) returns (q: nat)
    requires RequestStream(k, reqs, arrivals) && i < |reqs|
    ensures CutHere(k, reqs, arrivals, i, q) && q <= 2 + |k.codec.encode(reqs[i])|
  {
    CutIffHere(k, reqs, arrivals, i, 0);
    q := FirstCut(FeedCells(k.c, arrivals).frames[i]);
    CutIffHere(k, reqs, arrivals, i, q);
  }

  /** What the connection has sent, one write after the other. */
  function Output(answers: seq<Answered>): seq<byte> {
    if answers == [] then []
    else
      var last := answers[|answers| - 1].wire;
      Output(answers[..|answers| - 1]) + if last.Written? then last.bytes else []
  }

  function ReplyPayloads(codec: Codec, reqs: seq<Request>, rsps: seq<Response>): (payloads: seq<seq<byte>>)
    requires |reqs| == |rsps|
    ensures |payloads| == |reqs|
    ensures forall i :: 0 <= i < |reqs| ==> payloads[i] == ReplyPayload(codec, reqs[i], rsps[i])
  {
    seq(|reqs|, i requires 0 <= i < |reqs| => ReplyPayload(codec, reqs[i], rsps[i]))
  }

  /**
   * The other direction: when the replies fit, a client using the same framing gets, from
   * the output cut in any way, exactly one payload per request: the opcode n + 1 followed
   * by the serialised response.
   */
  lemma ClientSeesReplies(k: Context, reqs: seq<Request>, rsps: seq<Response>, answers: seq<Answered>,
                          chunks: seq<seq<byte>>)
    requires Framed(k) && AllGood(k, reqs, rsps, answers)
    requires Sendable(k.c, k.p, ReplyPayloads(k.codec, reqs, rsps))
    requires Concat(chunks) == Output(answers)
    ensures Frames(Feed(k.c, chunks).taken) == ReplyPayloads(k.codec, reqs, rsps)
    ensures Feed(k.c, chunks).buffer == []
  {
    var payloads := ReplyPayloads(k.codec, reqs, rsps);
    forall i | 0 <= i < |payloads| ensures answers[i].wire == Encode(k.p, payloads[i]) {
      assert GoodAnswer(k, reqs[i], rsps[i], answers[i]);
    }
    OutputIsStream(k, payloads, answers);
    WholeStream(k.c, k.p, payloads, chunks);
  }

  lemma {:induction false} OutputIsStream(k: Context, payloads: seq<seq<byte>>, answers: seq<Answered>)
    requires Framed(k) && Sendable(k.c, k.p, payloads) && |payloads| == |answers|
    requires forall i :: 0 <= i < |payloads| ==> answers[i].wire == Encode(k.p, payloads[i])
    ensures Output(answers) == Stream(k.c, k.p, payloads)
  {
    if payloads != [] {
      var n := |payloads| - 1;
      OutputIsStream(k, payloads[..n], answers[..n]);
      StreamLast(k.c, k.p, payloads);
    }
  }

  lemma {:induction false} StreamLast(c: Config, p: Prepender, payloads: seq<seq<byte>>)
    requires payloads != [] && Matching(c, p) && Sendable(c, p, payloads)
    ensures var n := |payloads| - 1;
            Stream(c, p, payloads) == Stream(c, p, payloads[..n]) + Encode(p, payloads[n]).bytes
  {
    var n := |payloads| - 1;
    if n == 0 {
      assert payloads[1..] == [];
      assert payloads[..0] == [];
    } else {
      StreamLast(c, p, payloads[1..]);
      assert payloads[1..][..n - 1] == payloads[..n][1..];
      Assoc(Encode(p, payloads[0]).bytes, Stream(c, p, payloads[..n][1..]), Encode(p, payloads[n]).bytes);
    }
  }

  // ----- the server's own set-up -----

  /** With the server's framing, request and reply payloads of up to 65534 bytes are sendable. */
  lemma ServerFraming(k: Context, payloads: seq<seq<byte>>)
    requires k.c == SERVER_DECODER && k.p == SERVER_PREPENDER
    requires forall i :: 0 <= i < |payloads| ==> |payloads[i]| <= 65534
    ensures Framed(k) && Sendable(k.c, k.p, payloads)
  {
    ServerStream(payloads, []);
  }

  /** The connection as the server's main program builds it. */
  ghost predicate ServerSetUp(k: Context) {
    && k.c == SERVER_DECODER && k.p == SERVER_PREPENDER
    && RegisterAll(SERVER_COMMANDS) == Some(k.registries)
  }

  /** Requests that protobuf carries, in frames of at most 65534 bytes. */
  ghost predicate Sent(k: Context, reqs: seq<Request>) {
    forall i :: 0 <= i < |reqs| ==> Inverts(k.codec, reqs[i]) && |RequestFrame(k.codec, reqs[i])| <= 65534
  }

  lemma ServerStreamOf(k: Context, reqs: seq<Request>)
    requires ServerSetUp(k) && Sent(k, reqs)
    ensures Framed(k) && Sendable(k.c, k.p, RequestFrames(k.codec, reqs)) && Consistent(k.registries)
    ensures forall i :: 0 <= i < |reqs| ==> Servable(k, reqs[i])
  {
    ServerFraming(k, RequestFrames(k.codec, reqs));
    ServerServes(k);
  }

  /** The opcode byte of each request as cmd_id.proto numbers them. */
  function OpcodeByte(req: Request): byte {
    match req
    case Login(_) => 101
    case Register(_) => 103
    case Query(_) => 105
    case Update(_) => 107
    case Erase(_) => 109
  }

  /** On the wire: requests and replies begin with their opcode, low byte first. */
  lemma OpcodeBytes(codec: Codec, req: Request, rsp: Response)
    ensures RequestFrame(codec, req) == [OpcodeByte(req), 0] + codec.encode(req)
    ensures ReplyPayload(codec, req, rsp) == [OpcodeByte(req) + 1, 0] + codec.serialize(rsp)
  {
    TwoLEBytes(CmdId(req));
    TwoLEBytes(CmdId(req) + 1);
  }

  /** Every request belongs to one of the server's registered sync commands. */
  lemma ServerServes(k: Context)
    requires ServerSetUp(k)
    ensures Consistent(k.registries) && k.registries.async == map[]
    ensures forall req: Request :: CmdId(req) in k.registries.sync
  {
    ServerRegistry();
    forall req: Request ensures CmdId(req) in k.registries.sync {
      assert CmdId(req) in [101, 103, 105, 107, 109];
    }
  }

  /**
   * The server as it is set up, both ways: any list of requests within the limits, cut
   * into any reads that keep each request in one segment, is answered in order as the
   * services answer it, and a client with the same framing gets exactly one reply per
   * request from any chunking of the output, if the replies are within the limits too.
   * (`Framed` and `Sendable` follow from the first line; they make the stream well-defined.)
   */
  lemma ServerEndToEnd(k: Context, m: Shared, fates: seq<Fate>, reqs: seq<Request>, arrivals: seq<Arrival>,
                       back: seq<seq<byte>>)
    requires ServerSetUp(k) && Sent(k, reqs)
    requires Framed(k) && Sendable(k.c, k.p, RequestFrames(k.codec, reqs))
    requires Concat(Chunks(arrivals)) == Stream(k.c, k.p, RequestFrames(k.codec, reqs))
    requires forall i :: 0 <= i < |reqs| ==> Whole(k, reqs, arrivals, i)
    requires forall rsp :: rsp in ServeAll(m, fates, k.addr, reqs).rsps ==> |k.codec.serialize(rsp)| <= 65532
    requires Concat(back) == Output(Converse(k, Exchange(m, fates, []), arrivals).x.answers)
    ensures var link := Converse(k, Exchange(m, fates, []), arrivals);
            var s := ServeAll(m, fates, k.addr, reqs);
            && link.buffer == [] && link.x.m == s.m && AllGood(k, reqs, s.rsps, link.x.answers)
            && Frames(Feed(k.c, back).taken) == ReplyPayloads(k.codec, reqs, s.rsps)
            && Feed(k.c, back).buffer == []
  {
    ServerStreamOf(k, reqs);
    EndToEnd(k, m, fates, reqs, arrivals);
    var s := ServeAll(m, fates, k.addr, reqs);
    var payloads := ReplyPayloads(k.codec, reqs, s.rsps);
    forall i | 0 <= i < |payloads| ensures |payloads[i]| <= 65534 {
      assert s.rsps[i] in s.rsps;
    }
    ServerFraming(k, payloads);
    ClientSeesReplies(k, reqs, s.rsps, Converse(k, Exchange(m, fates, []), arrivals).x.answers, back);
  }

  // ----- the hypotheses can be met -----

  function IndexOf(reqs: seq<Request>, req: Request): (i: nat)
    ensures i <= |reqs| && (i < |reqs| ==> reqs[i] == req)
    ensures req in reqs ==> i < |reqs|
  {
    if reqs == [] then 0 else if reqs[0] == req then 0 else 1 + IndexOf(reqs[1..], req)
  }

  function ParseListed(reqs: seq<Request>, id: nat, body: seq<byte>): Option<Request> {
    if |body| == 4 && FromLE(body) < |reqs| && CmdId(reqs[FromLE(body)]) == id then Some(reqs[FromLE(body)]) else None
  }

  /** A codec for a given list of requests: each is encoded as its place in the list. */
  function Listed(reqs: seq<Request>): Codec {
    Codec((id: nat, body: seq<byte>) => ParseListed(reqs, id, body), req => ToLE(IndexOf(reqs, req), 4), _ => [])
  }

  lemma ListedWorks(reqs: seq<Request>, req: Request)
    requires req in reqs && |reqs| <= TWO_32
    ensures Inverts(Listed(reqs), req) && Strict(Listed(reqs), req) && Typed(Listed(reqs))
    ensures |RequestFrame(Listed(reqs), req)| == 6
  {
    Pow256Values();
    LERoundTrip(IndexOf(reqs, req), 4);
  }

  lemma OneReadIsWhole(arrivals: seq<Arrival>, lo: nat, hi: nat)
    requires |arrivals| == 1
    ensures Uncut(arrivals, lo, hi)
  {
    assert arrivals[..0] == [];
  }

  lemma ListedIsSent(reqs: seq<Request>, k: Context)
    requires |reqs| <= TWO_32 && ServerSetUp(k) && k.codec == Listed(reqs)
    ensures Sent(k, reqs) && forall i :: 0 <= i < |reqs| ==> Strict(k.codec, reqs[i])
    ensures forall rsp :: |k.codec.serialize(rsp)| <= 65532
    ensures Typed(k.codec)
  {
    forall i | 0 <= i < |reqs|
      ensures Inverts(k.codec, reqs[i]) && |RequestFrame(k.codec, reqs[i])| == 6 && Strict(k.codec, reqs[i])
    {
      ListedWorks(reqs, reqs[i]);
    }
  }

  lemma OneRead(k: Context, reqs: seq<Request>, stream: seq<byte>) returns (arrivals: seq<Arrival>)
    ensures Concat(Chunks(arrivals)) == stream
    ensures forall i :: 0 <= i < |reqs| ==> Whole(k, reqs, arrivals, i)
  {
    arrivals := [Arrival(stream, false)];
    FirstSegment(Chunks(arrivals));
    assert Chunks(arrivals)[1..] == [];
    forall i | 0 <= i < |reqs| ensures Whole(k, reqs, arrivals, i) {
      var payloads := RequestFrames(k.codec, reqs);
      OneReadIsWhole(arrivals, Low(k.c.width, payloads, i), High(k.c.width, payloads, i));
    }
  }

  /** For every list of requests there are a server set-up and reads of its stream that `ServerEndToEnd` applies to. */
  lemma ServerEndToEndApplies(reqs: seq<Request>, addr: Addr) returns (k: Context, arrivals: seq<Arrival>)
    requires |reqs| <= TWO_32
    ensures ServerSetUp(k) && Sent(k, reqs) && Typed(k.codec)
    ensures forall i :: 0 <= i < |reqs| ==> Whole(k, reqs, arrivals, i) && Strict(k.codec, reqs[i])
    ensures Framed(k) && Sendable(k.c, k.p, RequestFrames(k.codec, reqs))
    ensures Concat(Chunks(arrivals)) == Stream(k.c, k.p, RequestFrames(k.codec, reqs))
    ensures forall rsp :: |k.codec.serialize(rsp)| <= 65532
  {
    k := SetUpFor(Listed(reqs), addr);
    ListedIsSent(reqs, k);
    ServerStreamOf(k, reqs);
    arrivals := OneRead(k, reqs, Stream(k.c, k.p, RequestFrames(k.codec, reqs)));
  }

  lemma SetUpFor(codec: Codec, addr: Addr) returns (k: Context)
    ensures ServerSetUp(k) && k.codec == codec && k.addr == addr
  {
    ServerRegistry();
    k := Context(codec, RegisterAll(SERVER_COMMANDS).value, addr, SERVER_DECODER, SERVER_PREPENDER);
  }

  // ----- the connection as the server runs it -----

  class Channel {
    const k: Context
    const server: Server
    const queue: IOBufQueue
    const decoder: LengthFieldBasedFrameDecoder
    const prepender: LengthFieldPrepender
    var answers: seq<Answered>

    ghost predicate Valid()
      reads server, server.roleManager, server.taskManager
    {
      && Framed(k) && decoder.config == k.c && prepender.p == k.p
      && Typed(k.codec) && server.Valid()
    }

    ghost function View(): Exchange
      reads this, server.redis, server.roleManager, server.roleManager.roles.Values
    {
      Exchange(server.Memory(), server.redis.fates, answers)
    }

    constructor (k: Context, server: Server)
      requires Framed(k) && Typed(k.codec) && server.Valid()
      ensures Valid() && this.k == k && this.server == server && fresh(queue) && queue.cells == [] && answers == []
    {
      this.k, this.server, answers := k, server, [];
      queue := new IOBufQueue();
      decoder := new LengthFieldBasedFrameDecoder(k.c);
      prepender := new LengthFieldPrepender(k.p);
    }

    /** Routing, service, and the response back through the same handlers. */
    method Answer(cmdId: nat, req: Request)
      requires Valid() && CmdId(req) == cmdId && Route(k.registries, cmdId).Some?
      modifies `answers, server.redis, server.roleManager, server.roleManager.roles.Values
      ensures Valid() && fresh(server.roleManager.roles.Values - old(server.roleManager.roles.Values))
      ensures View() == AnswerRequest(k, old(View()), cmdId, req)
    {
      var rsp, answerer := server.Handle(k.addr, req);
      var wire := prepender.Write(WithOpcode(cmdId, k.codec.serialize(rsp)));
      answers := answers + [Answered(answerer, cmdId, rsp, wire)];
    }

    /** Opcode and message checks; what fails them is dropped. */
    method HandleOne(frame: seq<Cell>)
      requires Valid()
      modifies `answers, server.redis, server.roleManager, server.roleManager.roles.Values
      ensures Valid() && fresh(server.roleManager.roles.Values - old(server.roleManager.roles.Values))
      ensures View() == HandleFrame(k, old(View()), frame)
    {
      var chain := Chain(frame);
      if chain == [] || |chain[0]| < 2 {
        return;
      }
      FirstSegment(chain);
      var cmdId, body := ReadOpcode(chain);
      assert Concat(chain)[..2] == chain[0][..2];
      if cmdId !in k.registries.reflection {
        return;
      }
      var req := k.codec.parse(cmdId, body[0]);
      if req.None? || Route(k.registries, cmdId).None? {
        return;
      }
      Answer(cmdId, req.value);
    }

    /** The frames of one read, passed on in order. */
    method HandleEach(frames: seq<seq<Cell>>)
      requires Valid()
      modifies `answers, server.redis, server.roleManager, server.roleManager.roles.Values
      ensures Valid() && fresh(server.roleManager.roles.Values - old(server.roleManager.roles.Values))
      ensures View() == HandleAll(k, old(View()), frames)
    {
      ghost var x := View();
      for i := 0 to |frames|
        invariant Valid()
        invariant fresh(server.roleManager.roles.Values - old(server.roleManager.roles.Values))
        invariant View() == HandleAll(k, x, frames[..i])
      {
        HandleOne(frames[i]);
        assert frames[..i + 1][..i] == frames[..i];
      }
      assert frames[..|frames|] == frames;
    }

    /** One socket read: the connection moves as `OnData` says. */
    method Receive(arrival: Arrival)
      requires Valid() && |queue.cells| + |arrival.bytes| < TWO_63
      modifies `answers, queue, server.redis, server.roleManager, server.roleManager.roles.Values
      ensures Valid() && fresh(server.roleManager.roles.Values - old(server.roleManager.roles.Values))
      ensures Link(queue.cells, View()) == OnData(k, Link(old(queue.cells), old(View())), arrival)
    {
      queue.Append(arrival);
      var frames, _ := decoder.Read(queue);
      assert View() == old(View());
      HandleEach(frames);
    }
  }
}
