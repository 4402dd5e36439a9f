/** LengthPrefixedFramer over a connection: the loops that move whole headers and bodies. */
module Framer {
  import opened Options
  import opened Sequences
  import opened Framing
  import opened Transport

  datatype WriteResult = Written | WriteTooLarge | WriteFailed(error: IoError)

  /** The annotations that these methods add to an error of the connection are left out. */
  datatype ReadResult = ReadBody(body: seq<byte>) | ReadTooLarge(size: nat) | ReadFailed(error: IoError)

  /** `after` is `before` followed by some prefix of `data`, by all of it if `whole`. */
  ghost predicate Extends(before: seq<byte>, after: seq<byte>, data: seq<byte>, whole: bool) {
    && |before| <= |after| <= |before| + |data|
    && after == before + data[..|after| - |before|]
    && (whole ==> |after| == |before| + |data|)
  }

  lemma ExtendsAll(before: seq<byte>, done: seq<byte>, data: seq<byte>, n: nat, whole: bool)
    requires n <= |data| && done == data[..n] && (whole ==> n == |data|)
    ensures Extends(before, before + done, data, whole)
  {
  }

  lemma ExtendsConcat(before: seq<byte>, middle: seq<byte>, after: seq<byte>, a: seq<byte>, b: seq<byte>, whole: bool)
    requires Extends(before, middle, a, true) && Extends(middle, after, b, whole)
    ensures Extends(before, after, a + b, whole)
  {
    var k := |after| - |middle|;
    assert a[..|a|] == a;
    assert (a + b)[..|a| + k] == a + b[..k];
  }

  lemma ExtendsFurther(before: seq<byte>, after: seq<byte>, a: seq<byte>, b: seq<byte>)
    requires Extends(before, after, a, false)
    ensures Extends(before, after, a + b, false)
  {
    var k := |after| - |before|;
    assert (a + b)[..k] == a[..k];
  }

  // ---------------------------------------------------------------------------------------------
  // Single calls
  // ---------------------------------------------------------------------------------------------

  /** In a log, the calls from number `from` on: all succeeded, each with progress, moving this much together. */
  ghost predicate Succeeded(log: seq<IOEvent>, from: nat, op: Op, moved: nat)
    decreases |log|
  {
    if |log| <= from then |log| == from && moved == 0
    else
      var last := log[|log| - 1];
      && last.op == op && !last.failed && 0 < last.bytes <= moved
      && Succeeded(log[..|log| - 1], from, op, moved - last.bytes)
  }

  /** The same, but the last call, made with bytes still wanted, failed; it may have moved some all the same. */
  ghost predicate EndedInFailure(log: seq<IOEvent>, from: nat, op: Op, moved: nat, wanted: nat) {
    |log| > from
    && var last := log[|log| - 1];
    && last.op == op && last.failed && 0 <= last.bytes <= moved <= wanted && moved - last.bytes < wanted
    && Succeeded(log[..|log| - 1], from, op, moved - last.bytes)
  }

  ghost predicate Moved(log: seq<IOEvent>, from: nat, op: Op, moved: nat, wanted: nat, failed: bool) {
    if failed then EndedInFailure(log, from, op, moved, wanted) else moved <= wanted && Succeeded(log, from, op, moved)
  }

  lemma OneMore(log: seq<IOEvent>, from: nat, call: IOEvent, moved: nat, wanted: nat)
    requires from <= |log| && Succeeded(log, from, call.op, moved) && 0 <= call.bytes && moved + call.bytes <= wanted
    requires moved < wanted && (call.failed || call.bytes > 0)
    ensures Moved(log + [call], from, call.op, moved + call.bytes, wanted, call.failed)
  {
    assert (log + [call])[..|log|] == log;
  }

  // ---------------------------------------------------------------------------------------------
  // Writing
  // ---------------------------------------------------------------------------------------------

  lemma OneChunk(before: seq<byte>, done: seq<byte>, rest: seq<byte>, n: nat)
    requires n <= |rest|
    ensures before + done + rest[..n] == before + (done + rest[..n])
    ensures done + rest[..n] + rest[n..] == done + rest
    ensures (done + rest)[..|done| + n] == done + rest[..n]
  {
  }

  /** Writes until nothing is left or a call fails; what went out is a prefix of the data. */
  method WriteFull(c: TimeoutConn, data: seq<byte>) returns (err: Option<IoError>)
    requires c.Valid()
    modifies c, c.conn, c.hooks
    ensures c.Valid() && c.conn.pos == old(c.conn.pos)
    ensures Extends(old(c.conn.outbound), c.conn.outbound, data, err.None?)
    ensures if err.None? then c.failures == old(c.failures) else c.failures > old(c.failures)
    ensures old(c.events) <= c.events
    ensures Moved(c.events, |old(c.events)|, WriteOp, |c.conn.outbound| - |old(c.conn.outbound)|, |data|, err.Some?)
  {
    var rest := data;
    ghost var done, from := [], |c.events|;
    ghost var before := c.conn.outbound;
    while |rest| > 0
      invariant c.Valid() && c.conn.pos == old(c.conn.pos) && c.failures == old(c.failures)
      invariant data == done + rest && c.conn.outbound == before + done
      invariant old(c.events) <= c.events && Succeeded(c.events, from, WriteOp, |done|)
    {
      ghost var log := c.events;
      var n, e := c.Write(rest);
      OneMore(log, from, IOEvent(WriteOp, n, e.Some?), |done|, |data|);
      OneChunk(before, done, rest, n);
      if e.Some? {
        ExtendsAll(before, done + rest[..n], data, |done| + n, false);
        return e;
      }
      done, rest := done + rest[..n], rest[n..];
    }
    err := None;
    assert data == done;
    ExtendsAll(before, done, data, |data|, true);
  }

  /**
   * On the stream afterwards: all of the frame on success, none of it when it is over the limit, and
   * otherwise some prefix of header and body.
   */
  method WriteFrame(c: TimeoutConn, limit: Limit, body: seq<byte>) returns (r: WriteResult, ghost middle: nat)
    requires c.Valid()
    modifies c, c.conn, c.hooks
    ensures c.Valid() && c.conn.pos == old(c.conn.pos)
    ensures r.WriteTooLarge? <==> |body| > limit
    ensures r.WriteTooLarge? ==> c.conn.outbound == old(c.conn.outbound) && c.events == old(c.events)
    ensures |body| <= limit ==> Extends(old(c.conn.outbound), c.conn.outbound, EncodeFrame(body), r.Written?)
    ensures r.WriteFailed? ==> c.failures > old(c.failures)
    ensures r.Written? ==> c.failures == old(c.failures)
    ensures r.Written? ==> forall i :: 0 <= i < |c.hooks.list| && c.hooks.list[i].ObservabilityHook? ==>
              c.hooks.ioBytesTotal[i] == old(c.hooks.ioBytesTotal[i]) + 4 + |body|
    ensures old(c.events) <= c.events
    ensures |body| <= limit ==>
              FrameCalls(c.events, |old(c.events)|, middle, WriteOp,
                         |c.conn.outbound| - |old(c.conn.outbound)|, |body|, r.WriteFailed?)
  {
    middle := 0;
    if |body| > limit {
      return WriteTooLarge, middle;
    }
    var header := EncodeSize(|body|);
    ghost var before := c.conn.outbound;
    var err := WriteFull(c, header);
    ghost var between := c.conn.outbound;
    middle := |c.events|;
    if err.Some? {
      ExtendsFurther(before, between, header, body);
      return WriteFailed(err.value), middle;
    }
    ghost var log := c.events;
    err := WriteFull(c, body);
    ExtendsConcat(before, between, c.conn.outbound, header, body, err.None?);
    assert c.events[..middle] == log;
    if err.Some? {
      return WriteFailed(err.value), middle;
    }
    assert |c.events| == middle ==> c.events == log;
    r := Written;
  }

  /**
   * The calls of one frame, from number `from` of the log on: first those for the header, and from number
   * `middle` on, once the header is complete, those for the body. A read may report an error together with the
   * last byte of the header; that error is dropped.
   */
  ghost predicate FrameCalls(log: seq<IOEvent>, from: nat, middle: nat, op: Op, moved: nat, size: nat, failed: bool) {
    && from <= middle <= |log|
    && (if middle == |log| then Moved(log, from, op, moved, 4, failed)
        else
          && moved >= 4
          && (Moved(log[..middle], from, op, 4, 4, false) || (op.ReadOp? && Moved(log[..middle], from, op, 4, 4, true)))
          && Moved(log, middle, op, moved - 4, size, failed))
  }

  // ---------------------------------------------------------------------------------------------
  // Reading
  // ---------------------------------------------------------------------------------------------

  /** What io.ReadFull reports when it has n of the bytes it wants and its last call reported `last`. */
  function FullError(n: nat, wanted: nat, last: Option<IoError>): Option<IoError> {
    if n >= wanted then None
    else if n > 0 && last == Some(Eof) then Some(UnexpectedEof)
    else last
  }

  /**
   * io.ReadFull: an error that comes with the last byte is dropped, and end of input in between is unexpected,
   * if it is the end of input itself; one that a timeoutConn has wrapped is passed on as it is.
   */
  method ReadFull(c: TimeoutConn, buf: array<byte>) returns (n: nat, err: Option<IoError>, ghost last: Option<IoError>)
    requires c.Valid()
    modifies c, c.conn, c.hooks, buf
    ensures c.Valid() && c.conn.outbound == old(c.conn.outbound)
    ensures n <= buf.Length && c.conn.pos == old(c.conn.pos) + n
    ensures buf[..n] == c.conn.inbound[old(c.conn.pos)..c.conn.pos]
    ensures err.None? <==> n == buf.Length
    ensures c.failures >= old(c.failures)
    ensures err.Some? ==> c.failures > old(c.failures)
    ensures err == FullError(n, buf.Length, last)
    ensures err == Some(Eof) <==> last == Some(Eof) && n == 0 && n < buf.Length
    ensures last.Some? ==> last.value.Wrapped? == c.wraps
    ensures c.wraps && err.Some? ==> err == last
    ensures old(c.events) <= c.events && Moved(c.events, |old(c.events)|, ReadOp, n, buf.Length, last.Some?)
  {
    n, err := 0, None;
    ghost var from := |c.events|;
    while n < buf.Length && err.None?
      invariant c.Valid() && c.conn.outbound == old(c.conn.outbound)
      invariant n <= buf.Length && c.conn.pos == old(c.conn.pos) + n
      invariant buf[..n] == c.conn.inbound[old(c.conn.pos)..c.conn.pos]
      invariant c.failures >= old(c.failures) && (err.Some? ==> c.failures > old(c.failures))
      invariant old(c.events) <= c.events && Moved(c.events, from, ReadOp, n, buf.Length, err.Some?)
      invariant err.Some? ==> err.value.Wrapped? == c.wraps
      decreases buf.Length - n, err.None?
    {
      ghost var start, middle, log := old(c.conn.pos), c.conn.pos, c.events;
      var got, e := c.Read(buf, n);
      assert buf[..n + got] == buf[..n] + buf[n..n + got];
      assert c.conn.inbound[start..c.conn.pos] == c.conn.inbound[start..middle] + c.conn.inbound[middle..c.conn.pos];
      OneMore(log, from, IOEvent(ReadOp, got, e.Some?), n, buf.Length);
      n, err := n + got, e;
    }
    last := err;
    if n >= buf.Length {
      err := None;
    } else if n > 0 && err == Some(Eof) {
      err := Some(UnexpectedEof);
    }
  }

  /** A buffer of the wanted size, filled by ReadFull. */
  method ReadBuffer(c: TimeoutConn, wanted: nat)
    returns (bytes: seq<byte>, err: Option<IoError>, ghost last: Option<IoError>)
    requires c.Valid()
    modifies c, c.conn, c.hooks
    ensures c.Valid() && c.conn.outbound == old(c.conn.outbound)
    ensures |bytes| <= wanted && c.conn.pos == old(c.conn.pos) + |bytes|
    ensures bytes == c.conn.inbound[old(c.conn.pos)..c.conn.pos]
    ensures err.None? <==> |bytes| == wanted
    ensures err.Some? ==> c.failures > old(c.failures)
    ensures c.failures >= old(c.failures)
    ensures err == FullError(|bytes|, wanted, last)
    ensures last.Some? ==> last.value.Wrapped? == c.wraps
    ensures old(c.events) <= c.events && Moved(c.events, |old(c.events)|, ReadOp, |bytes|, wanted, last.Some?)
  {
    var buf := new byte[wanted];
    var n;
    n, err, last := ReadFull(c, buf);
    bytes := buf[..n];
  }

  /** The error of a ReadFrame that stopped short, from what it had consumed and what its last call reported. */
  function FrameError(consumed: nat, last: IoError): IoError {
    if last.Eof? && consumed != 0 && consumed != 4 then UnexpectedEof else last
  }

  /** What the header says, and what follows from it once some of the body has been read. */
  lemma HeaderThenBody(h: seq<byte>, body: seq<byte>, limit: Limit)
    requires |h| == 4 && DecodeSize(h) <= limit && |body| <= DecodeSize(h)
    ensures if |body| == DecodeSize(h) then h + body == EncodeFrame(body) else Parse(h + body, limit).Incomplete?
    ensures (h + body)[..4] == h
  {
    assert (h + body)[..4] == h;
    SizeRoundTrip(DecodeSize(h), h);
  }

  /**
   * However the bytes arrive: a body is returned exactly with its encoding consumed, a header over the limit
   * consumes the header only, and an error, which some call must have reported, means that no whole frame
   * was consumed.
   */
  method ReadFrame(c: TimeoutConn, limit: Limit)
    returns (r: ReadResult, ghost last: Option<IoError>, ghost middle: nat)
    requires c.Valid()
    modifies c, c.conn, c.hooks
    ensures c.Valid() && c.conn.outbound == old(c.conn.outbound) && old(c.conn.pos) <= c.conn.pos
    ensures FrameRead(r, c.conn.inbound[old(c.conn.pos)..c.conn.pos], limit, last, c.wraps)
    ensures r.ReadFailed? ==> c.failures > old(c.failures)
    ensures c.wraps && r.ReadFailed? ==> r.error.Wrapped? && last == Some(r.error)
    ensures old(c.events) <= c.events
    ensures var consumed := c.conn.inbound[old(c.conn.pos)..c.conn.pos];
            && FrameCalls(c.events, |old(c.events)|, middle, ReadOp, |consumed|, AnnouncedSize(consumed), last.Some?)
            && (middle < |c.events| <==> BodyAsked(consumed, limit))
  {
    ghost var start := c.conn.pos;
    var h, err;
    h, err, last := ReadBuffer(c, 4);
    middle := |c.events|;
    if err.Some? {
      return ReadFailed(err.value), last, middle;
    }
    var size := DecodeSize(h);
    assert h[..4] == h;
    if size > limit {
      return ReadTooLarge(size), last, middle;
    }
    if size == 0 {
      HeaderThenBody(h, [], limit);
      EmptyConcat(h);
      return ReadBody([]), last, middle;
    }
    ghost var log := c.events;
    var body;
    body, err, last := ReadBuffer(c, size);
    assert c.events[..middle] == log;
    assert c.conn.inbound[start..c.conn.pos] == h + body;
    HeaderThenBody(h, body, limit);
    if err.Some? {
      return ReadFailed(err.value), last, middle;
    }
    r := ReadBody(body);
  }

  /** The header is complete and announces a body that is to be read. */
  predicate BodyAsked(consumed: seq<byte>, limit: Limit) {
    |consumed| >= 4 && 1 <= AnnouncedSize(consumed) <= limit
  }

  function AnnouncedSize(consumed: seq<byte>): nat {
    if |consumed| >= 4 then DecodeSize(consumed[..4]) else 0
  }

  /** What a result says about the bytes that were consumed. */
  ghost predicate ReadOutcome(r: ReadResult, consumed: seq<byte>, limit: Limit) {
    match r
    case ReadBody(body) => |body| <= limit && consumed == EncodeFrame(body)
    case ReadTooLarge(size) => size > limit && |consumed| == 4 && Parse(consumed, limit) == TooLarge(size, [])
    case ReadFailed(_) => Parse(consumed, limit).Incomplete?
  }

  /** The same with the error of a failed read, which comes from the last call. */
  ghost predicate FrameRead(r: ReadResult, consumed: seq<byte>, limit: Limit, last: Option<IoError>, wraps: bool) {
    && ReadOutcome(r, consumed, limit)
    && (r.ReadFailed? ==>
          last.Some? && last.value.Wrapped? == wraps && r.error == FrameError(|consumed|, last.value))
  }

  /** How the end of input arrives from the connection, and so how it is reported between frames. */
  function EndOfInput(wraps: bool): IoError {
    if wraps then Wrapped(Eof) else Eof
  }

  /** A read that stopped short failed: nothing but a failure leaves an incomplete frame consumed. */
  lemma ShortMeansFailed(r: ReadResult, consumed: seq<byte>, limit: Limit)
    requires ReadOutcome(r, consumed, limit)
    ensures r.ReadFailed? <==> Parse(consumed, limit).Incomplete?
  {
    if r.ReadBody? {
      EmptyConcat(consumed);
      ParseInvertsEncode(consumed, limit, r.body, []);
    }
  }

  /**
   * Where input ends inside a frame, and the last call brings nothing but that end: over a dialled connection
   * it is reported just as an end between frames is, wherever it falls, and never as unexpected. Over a bare
   * connection it is so exactly right behind the header, and unexpected everywhere else.
   */
  lemma EndInsideFrameExactly(r: ReadResult, consumed: seq<byte>, limit: Limit, wraps: bool)
    requires FrameRead(r, consumed, limit, Some(EndOfInput(wraps)), wraps)
    requires consumed != [] && Parse(consumed, limit).Incomplete?
    ensures r == ReadFailed(EndOfInput(wraps)) <==> wraps || |consumed| == 4
    ensures r == ReadFailed(UnexpectedEof) <==> !wraps && |consumed| != 4
  {
    ShortMeansFailed(r, consumed, limit);
  }

  /** Over a dialled connection an unexpected end is never reported, whatever the input and the calls. */
  lemma NeverUnexpected(r: ReadResult, consumed: seq<byte>, limit: Limit, last: Option<IoError>)
    requires FrameRead(r, consumed, limit, last, true)
    ensures r != ReadFailed(UnexpectedEof) && r != ReadFailed(Eof)
    ensures r == ReadFailed(Wrapped(Eof)) <==> last == Some(Wrapped(Eof)) && Parse(consumed, limit).Incomplete?
  {
    ShortMeansFailed(r, consumed, limit);
  }

  const HALF_HEADER: seq<byte> := [0, 0]
  const HEADER_OF_TWO: seq<byte> := [0, 0, 0, 2]
  const HALF_BODY: seq<byte> := [0, 0, 0, 2, 7]

  /** Inputs that end in the header, behind it, and in the body: what ReadFrame's contract leaves as their result. */
  lemma EndsInsideFrame(r: ReadResult, consumed: seq<byte>, limit: Limit, wraps: bool)
    requires limit >= 2 && consumed in [HALF_HEADER, HEADER_OF_TWO, HALF_BODY]
    ensures Parse(consumed, limit).Incomplete?
    ensures FrameRead(r, consumed, limit, Some(EndOfInput(wraps)), wraps)
       <==> r == ReadFailed(if wraps then Wrapped(Eof) else if consumed == HEADER_OF_TWO then Eof else UnexpectedEof)
  {
    if consumed != HALF_HEADER {
      assert consumed[..4] == HEADER_OF_TWO && DecodeSize(consumed[..4]) == 2;
    }
    if FrameRead(r, consumed, limit, Some(EndOfInput(wraps)), wraps) {
      EndInsideFrameExactly(r, consumed, limit, wraps);
    }
  }

  /** What a reader that reported no error must have returned: the parse of what the peer sent. */
  lemma ReadIsParse(inbound: seq<byte>, start: nat, end: nat, limit: Limit, r: ReadResult)
    requires start <= end <= |inbound| && !r.ReadFailed? && ReadOutcome(r, inbound[start..end], limit)
    ensures match r
            case ReadBody(body) => Parse(inbound[start..], limit) == Frame(body, inbound[end..])
            case ReadTooLarge(size) => Parse(inbound[start..], limit) == TooLarge(size, inbound[end..])
  {
    var s, consumed := inbound[start..], inbound[start..end];
    assert s == consumed + inbound[end..];
    if r.ReadBody? {
      ParseInvertsEncode(s, limit, r.body, inbound[end..]);
    } else {
      assert s[..4] == consumed == consumed[..4];
    }
  }

  // ---------------------------------------------------------------------------------------------
  // Many frames
  // ---------------------------------------------------------------------------------------------

  /** What repeated WriteFrame calls put on the stream, up to the first one that fails. */
  method WriteFrames(c: TimeoutConn, limit: Limit, bodies: seq<seq<byte>>) returns (n: nat, r: WriteResult)
    requires c.Valid() && WithinLimit(bodies, limit)
    modifies c, c.conn, c.hooks
    ensures c.Valid() && c.conn.pos == old(c.conn.pos)
    ensures n <= |bodies| && (r.Written? <==> n == |bodies|) && !r.WriteTooLarge?
    ensures WithinLimit(bodies[..n], limit)
    ensures var whole := old(c.conn.outbound) + EncodeAll(bodies[..n], limit);
            if r.Written? then c.conn.outbound == whole
            else Extends(whole, c.conn.outbound, EncodeFrame(bodies[n]), false)
  {
    n, r := 0, Written;
    ghost var before := c.conn.outbound;
    while n < |bodies| && r.Written?
      invariant c.Valid() && c.conn.pos == old(c.conn.pos)
      invariant n <= |bodies| && WithinLimit(bodies[..n], limit) && !r.WriteTooLarge?
      invariant r.WriteFailed? ==> n < |bodies|
      invariant var whole := before + EncodeAll(bodies[..n], limit);
                if r.Written? then c.conn.outbound == whole
                else Extends(whole, c.conn.outbound, EncodeFrame(bodies[n]), false)
      decreases |bodies| - n, r.Written?
    {
      var w, _ := WriteFrame(c, limit, bodies[n]);
      r := w;
      if r.Written? {
        EncodeOneMore(before, bodies, n, limit);
        WholeExtension(before + EncodeAll(bodies[..n], limit), c.conn.outbound, EncodeFrame(bodies[n]));
        n := n + 1;
      }
    }
    assert bodies[..|bodies|] == bodies;
  }

  lemma WholeExtension(before: seq<byte>, after: seq<byte>, data: seq<byte>)
    requires Extends(before, after, data, true)
    ensures after == before + data
  {
    assert data[..|data|] == data;
  }

  lemma EncodeOneMore(before: seq<byte>, bodies: seq<seq<byte>>, n: nat, limit: Limit)
    requires WithinLimit(bodies, limit) && n < |bodies|
    ensures WithinLimit(bodies[..n], limit) && WithinLimit(bodies[..n + 1], limit)
    ensures before + EncodeAll(bodies[..n + 1], limit)
            == before + EncodeAll(bodies[..n], limit) + EncodeFrame(bodies[n])
  {
    EncodeLast(bodies[..n], bodies[n], limit);
    assert bodies[..n] + [bodies[n]] == bodies[..n + 1];
    ConcatAssociative(before, EncodeAll(bodies[..n], limit), EncodeFrame(bodies[n]));
  }

  /** A stream read frame by frame: the frames so far, and what the rest of it will parse to. */
  ghost predicate ReadSoFar(s: seq<byte>, bodies: seq<seq<byte>>, rest: seq<byte>, limit: Limit) {
    && WithinLimit(bodies, limit)
    && s == EncodeAll(bodies, limit) + rest
  }

  lemma ReadOneMore(
    s: seq<byte>, bodies: seq<seq<byte>>, body: seq<byte>, rest: seq<byte>, rest': seq<byte>, limit: Limit)
    requires ReadSoFar(s, bodies, rest, limit) && |body| <= limit && rest == EncodeFrame(body) + rest'
    ensures ReadSoFar(s, bodies + [body], rest', limit)
  {
    EncodeLast(bodies, body, limit);
    ConcatAssociative(EncodeAll(bodies, limit), EncodeFrame(body), rest');
  }

  /**
   * Up to `count` ReadFrame calls, stopping at the first that gives no body: the bodies are the frames that
   * the stream starts with, whatever the chunks it comes in, and nothing behind them is consumed unless the
   * next frame was begun.
   */
  method ReadFrames(c: TimeoutConn, limit: Limit, count: nat) returns (bodies: seq<seq<byte>>, stop: Option<ReadResult>)
    requires c.Valid()
    modifies c, c.conn, c.hooks
    ensures c.Valid() && c.conn.outbound == old(c.conn.outbound) && old(c.conn.pos) <= c.conn.pos
    ensures |bodies| <= count && (stop.None? <==> |bodies| == count) && (stop.Some? ==> !stop.value.ReadBody?)
    ensures StreamRead(c.conn.inbound[old(c.conn.pos)..], c.conn.inbound[c.conn.pos..], bodies, stop, limit)
  {
    bodies, stop := [], None;
    ghost var s := c.conn.inbound[c.conn.pos..];
    NothingRead(s, limit);
    while |bodies| < count && stop.None?
      invariant c.Valid() && c.conn.outbound == old(c.conn.outbound) && old(c.conn.pos) <= c.conn.pos
      invariant |bodies| <= count && (stop.Some? ==> |bodies| < count && !stop.value.ReadBody?)
      invariant StreamRead(s, c.conn.inbound[c.conn.pos..], bodies, stop, limit)
      decreases count - |bodies|, stop.None?
    {
      ghost var start := c.conn.pos;
      var r, _, _ := ReadFrame(c, limit);
      ReadStep(s, c.conn.inbound, start, c.conn.pos, bodies, r, limit);
      if r.ReadBody? {
        bodies := bodies + [r.body];
      } else {
        stop := Some(r);
      }
    }
  }

  /** `s` is what the reader had before it, `rest` what it has now: the bodies, and what a stopped read consumed. */
  ghost predicate StreamRead(
    s: seq<byte>, rest: seq<byte>, bodies: seq<seq<byte>>, stop: Option<ReadResult>, limit: Limit) {
    if stop.None? then ReadSoFar(s, bodies, rest, limit)
    else exists consumed ::
           ReadSoFar(s, bodies, consumed + rest, limit) && ReadOutcome(stop.value, consumed, limit)
  }

  lemma NothingRead(s: seq<byte>, limit: Limit)
    ensures StreamRead(s, s, [], None, limit)
  {
    EmptyConcat(s);
  }

  lemma ReadStep(
    s: seq<byte>, inbound: seq<byte>, start: nat, end: nat, bodies: seq<seq<byte>>, r: ReadResult, limit: Limit)
    requires start <= end <= |inbound|
    requires StreamRead(s, inbound[start..], bodies, None, limit) && ReadOutcome(r, inbound[start..end], limit)
    ensures if r.ReadBody? then StreamRead(s, inbound[end..], bodies + [r.body], None, limit)
            else StreamRead(s, inbound[end..], bodies, Some(r), limit)
  {
    var consumed, after := inbound[start..end], inbound[end..];
    assert inbound[start..] == consumed + after;
    if r.ReadBody? {
      ReadOneMore(s, bodies, r.body, consumed + after, after, limit);
    }
  }

  /** What was read is what the stream parses to: a first part of it, and all of it once the stream is used up. */
  lemma ReadIsParseAll(s: seq<byte>, rest: seq<byte>, bodies: seq<seq<byte>>, stop: Option<ReadResult>, limit: Limit)
    requires StreamRead(s, rest, bodies, stop, limit) && (stop.Some? ==> !stop.value.ReadBody?)
    ensures bodies <= ParseAll(s, limit).bodies
    ensures stop.Some? && (rest == [] || stop.value.ReadTooLarge?) ==> bodies == ParseAll(s, limit).bodies
  {
    if stop.None? {
      ParseAllOfEncoded(bodies, rest, limit);
    } else {
      var consumed :| ReadSoFar(s, bodies, consumed + rest, limit) && ReadOutcome(stop.value, consumed, limit);
      ParseAllOfEncoded(bodies, consumed + rest, limit);
      if stop.value.ReadTooLarge? {
        assert (consumed + rest)[..4] == consumed[..4];
        EmptyConcat(bodies);
      } else if rest == [] {
        EmptyConcat(consumed);
        EmptyConcat(bodies);
      }
    }
  }

  /** Reading as many frames as were sent gives those frames and leaves exactly what follows them. */
  lemma FramesComeBack(
    s: seq<byte>, sent: seq<seq<byte>>, tail: seq<byte>, rest: seq<byte>, bodies: seq<seq<byte>>, limit: Limit)
    requires WithinLimit(sent, limit) && s == EncodeAll(sent, limit) + tail
    requires StreamRead(s, rest, bodies, None, limit) && |bodies| == |sent|
    ensures bodies == sent && rest == tail
  {
    ParseAllOfEncoded(sent, tail, limit);
    ParseAllOfEncoded(bodies, rest, limit);
    SameStart(sent, ParseAll(tail, limit).bodies, bodies, ParseAll(rest, limit).bodies);
    SameStart(EncodeAll(sent, limit), tail, EncodeAll(bodies, limit), rest);
  }

  lemma SameStart<T>(a: seq<T>, b: seq<T>, c: seq<T>, d: seq<T>)
    requires a + b == c + d && |a| == |c|
    ensures a == c && b == d
  {
    assert (a + b)[..|a|] == a && (c + d)[..|c|] == c;
    assert (a + b)[|a|..] == b && (c + d)[|c|..] == d;
  }

  /** A stream cut anywhere: a reader that has used it up has exactly the frames that lie wholly before the cut. */
  lemma CutFramesComeBack(s: seq<byte>, sent: seq<seq<byte>>, bodies: seq<seq<byte>>, stop: ReadResult, limit: Limit)
    requires WithinLimit(sent, limit) && s <= EncodeAll(sent, limit)
    requires StreamRead(s, [], bodies, Some(stop), limit) && !stop.ReadBody?
    ensures bodies == sent[..WholeBefore(sent, |s|)] && stop.ReadFailed?
  {
    CutStream(sent, s, limit);
    ReadIsParseAll(s, [], bodies, Some(stop), limit);
    var consumed :| ReadSoFar(s, bodies, consumed + [], limit) && ReadOutcome(stop, consumed, limit);
    ParseAllOfEncoded(bodies, consumed, limit);
    EmptyConcat(consumed);
    if stop.ReadTooLarge? {
      EmptyConcat(bodies);
    }
  }
}
