/**
 * One direction of a connection between a CodecConn that writes and one that reads, at the grain of single
 * Write and Read calls: the two sides interleave freely and every call moves as many bytes as it likes.
 */
module Link {
  import opened Options
  import opened Framing
  import opened CodecConns

  datatype State<!V> = State(
    codec: Codec<V>,
    limit: Limit,              // of the writing side
    readLimit: Limit,          // of the reading side
    offered: seq<V>,           // values whose frame WriteValue started to write
    written: seq<V>,           // values whose WriteValue succeeded
    pending: seq<byte>,        // what the current frame still has to put on the wire
    lost: seq<byte>,           // what a failed write never put on the wire
    writerDown: bool,          // a write failed: nothing is written after that
    wire: seq<byte>,           // in transit
    buffer: seq<byte>,         // what ReadFrame has of the next frame
    readerDown: bool,          // a read failed or a header was over the limit
    read: seq<Option<V>>)      // results of ReadValue; None where Unmarshal failed

  datatype Action<V> =
    | BeginWrite(v: V)   // Marshal, size check
    | Push(n: nat)       // one Write call moves n bytes
    | WriteError(n: nat) // one Write call moves n bytes and fails
    | Pull(n: nat)       // one Read call moves n bytes; an error that comes with the last byte wanted is dropped
    | ReadError(n: nat)  // one Read call moves n bytes, not all it asked for, and fails

  predicate CanSend<V>(codec: Codec<V>, limit: Limit, v: V) {
    codec.marshal(v).Some? && |codec.marshal(v).value| <= limit
  }

  function Payload<V>(codec: Codec<V>, limit: Limit, v: V): (p: seq<byte>)
    ensures |p| <= limit
  {
    if CanSend(codec, limit, v) then codec.marshal(v).value else []
  }

  /** What ReadFrame asks for next: the rest of the header, then the rest of the body. */
  function Needed(buffer: seq<byte>): nat {
    if |buffer| < 4 then 4 - |buffer|
    else
      var size := DecodeSize(buffer[..4]);
      if |buffer| < 4 + size then 4 + size - |buffer| else 0
  }

  predicate Enabled<V>(s: State<V>, a: Action<V>) {
    match a
    case BeginWrite(_) => s.pending == [] && !s.writerDown
    case Push(n) => s.pending != [] && n <= |s.pending|
    case WriteError(n) => s.pending != [] && n <= |s.pending|
    case Pull(n) => !s.readerDown && n <= |s.wire| && n <= Needed(s.buffer)
    case ReadError(n) => !s.readerDown && n <= |s.wire| && n < Needed(s.buffer)
  }

  /** ReadValue returns once ReadFrame has a frame or a header that is too large. */
  function Receive<V>(s: State<V>): State<V> {
    match Parse(s.buffer, s.readLimit)
    case Frame(body, _) => s.(buffer := [], read := s.read + [s.codec.unmarshal(body)])
    case TooLarge(_, _) => s.(readerDown := true)
    case Incomplete => s
  }

  function Apply<V>(s: State<V>, a: Action<V>): State<V>
    requires Enabled(s, a)
  {
    match a
    case BeginWrite(v) =>
      if CanSend(s.codec, s.limit, v) then
        s.(offered := s.offered + [v], pending := EncodeFrame(Payload(s.codec, s.limit, v)))
      else s
    case Push(n) =>
      var s' := s.(pending := s.pending[n..], wire := s.wire + s.pending[..n]);
      if s'.pending == [] then s'.(written := s.offered) else s'
    case WriteError(n) =>
      s.(pending := [], lost := s.pending[n..], writerDown := true, wire := s.wire + s.pending[..n])
    case Pull(n) => Receive(s.(wire := s.wire[n..], buffer := s.buffer + s.wire[..n]))
    case ReadError(n) => s.(wire := s.wire[n..], buffer := s.buffer + s.wire[..n], readerDown := true)
  }

  ghost predicate IsRun<V>(s: State<V>, actions: seq<Action<V>>)
    decreases |actions|
  {
    actions == [] || (Enabled(s, actions[0]) && IsRun(Apply(s, actions[0]), actions[1..]))
  }

  function After<V>(s: State<V>, actions: seq<Action<V>>): State<V>
    requires IsRun(s, actions)
    decreases |actions|
  {
    if actions == [] then s else After(Apply(s, actions[0]), actions[1..])
  }

  lemma {:induction false} RunConcat<V>(s: State<V>, a: seq<Action<V>>, b: seq<Action<V>>)
    requires IsRun(s, a) && IsRun(After(s, a), b)
    ensures IsRun(s, a + b) && After(s, a + b) == After(After(s, a), b)
    decreases |a|
  {
    if a == [] {
      assert a + b == b;
    } else {
      assert (a + b)[1..] == a[1..] + b;
      RunConcat(Apply(s, a[0]), a[1..], b);
    }
  }

  lemma OneStep<V>(s: State<V>, a: Action<V>)
    requires Enabled(s, a)
    ensures IsRun(s, [a]) && After(s, [a]) == Apply(s, a)
  {
    assert [a][1..] == [];
  }

  ghost predicate Initial<V>(s: State<V>) {
    && s.offered == [] && s.written == [] && s.read == []
    && s.pending == [] && s.lost == [] && s.wire == [] && s.buffer == []
    && !s.writerDown && !s.readerDown
  }

  // ---------------------------------------------------------------------------------------------
  // Conservation of the stream
  // ---------------------------------------------------------------------------------------------

  function Payloads<V>(codec: Codec<V>, limit: Limit, vs: seq<V>): (ps: seq<seq<byte>>)
    ensures WithinLimit(ps, limit)
  {
    if vs == [] then [] else [Payload(codec, limit, vs[0])] + Payloads(codec, limit, vs[1..])
  }

  function EncodeValues<V>(codec: Codec<V>, limit: Limit, vs: seq<V>): seq<byte> {
    EncodeAll(Payloads(codec, limit, vs), limit)
  }

  lemma EncodeValuesFirst<V>(codec: Codec<V>, limit: Limit, vs: seq<V>)
    requires vs != []
    ensures EncodeValues(codec, limit, vs)
            == EncodeFrame(Payload(codec, limit, vs[0])) + EncodeValues(codec, limit, vs[1..])
  {
    assert Payloads(codec, limit, vs)[1..] == Payloads(codec, limit, vs[1..]);
  }

  lemma {:induction false} PayloadsAppend<V>(codec: Codec<V>, limit: Limit, vs: seq<V>, v: V)
    ensures Payloads(codec, limit, vs + [v]) == Payloads(codec, limit, vs) + [Payload(codec, limit, v)]
  {
    if vs == [] {
      assert (vs + [v])[1..] == [];
    } else {
      assert (vs + [v])[1..] == vs[1..] + [v];
      PayloadsAppend(codec, limit, vs[1..], v);
    }
  }

  lemma EncodeValuesAppend<V>(codec: Codec<V>, limit: Limit, vs: seq<V>, v: V)
    ensures EncodeValues(codec, limit, vs + [v])
            == EncodeValues(codec, limit, vs) + EncodeFrame(Payload(codec, limit, v))
  {
    PayloadsAppend(codec, limit, vs, v);
    EncodeLast(Payloads(codec, limit, vs), Payload(codec, limit, v), limit);
  }

  /**
   * What the reader has begun, what is in transit, what is still to be pushed and what was lost are, in this
   * order, exactly the frames of the values offered and not yet read.
   */
  ghost predicate Conserved<V>(s: State<V>) {
    && |s.read| <= |s.offered|
    && s.buffer + s.wire + s.pending + s.lost == EncodeValues(s.codec, s.limit, s.offered[|s.read|..])
  }

  ghost predicate WriterConsistent<V>(s: State<V>) {
    && s.written <= s.offered && |s.offered| <= |s.written| + 1
    && (s.writerDown ==> s.pending == [])
    && (!s.writerDown ==> s.lost == [] && (s.pending == [] <==> s.written == s.offered))
    && (forall i :: 0 <= i < |s.offered| ==> CanSend(s.codec, s.limit, s.offered[i]))
  }

  ghost predicate ReaderConsistent<V>(s: State<V>) {
    && |s.read| <= |s.offered|
    && (!s.readerDown ==> Parse(s.buffer, s.readLimit).Incomplete?)
    && (forall i :: 0 <= i < |s.read| ==>
          && Fits(s, i)
          && s.read[i] == s.codec.unmarshal(Payload(s.codec, s.limit, s.offered[i])))
  }

  /** The reading side accepts the frame of this value. */
  predicate Fits<V>(s: State<V>, i: nat)
    requires i < |s.offered|
  {
    |Payload(s.codec, s.limit, s.offered[i])| <= s.readLimit
  }

  ghost predicate Invariant<V>(s: State<V>) {
    Conserved(s) && WriterConsistent(s) && ReaderConsistent(s)
  }

  /** Any prefix of a stream that starts with a frame: incomplete, or that frame, or a frame that is refused. */
  lemma PrefixOfFrame(part: seq<byte>, body: seq<byte>, tail: seq<byte>, limit: Limit)
    requires |body| < TWO_TO_THE_32 && part <= EncodeFrame(body) + tail
    ensures |part| < 4 ==> Parse(part, limit).Incomplete?
    ensures |part| >= 4 ==> DecodeSize(part[..4]) == |body|
    ensures |part| >= 4 && |body| > limit ==> Parse(part, limit).TooLarge?
    ensures |body| <= limit && |part| < 4 + |body| ==> Parse(part, limit).Incomplete?
    ensures |body| <= limit && |part| >= 4 + |body| ==> Parse(part, limit) == Frame(body, part[4 + |body|..])
  {
    var rest := PrefixOfConcat(part, EncodeFrame(body), tail);
    if |part| >= 4 {
      assert part[..4] == EncodeSize(|body|);
      SizeRoundTrip(|body|, part[..4]);
      if |body| <= limit && |part| >= 4 + |body| {
        assert rest == part[4 + |body|..];
        ParseInvertsEncode(part, limit, body, rest);
      }
    }
  }

  /** ReadFrame never asks for bytes beyond the frame it is reading. */
  lemma NeverOverreads(buffer: seq<byte>, more: seq<byte>, body: seq<byte>, tail: seq<byte>)
    requires |body| < TWO_TO_THE_32 && buffer <= EncodeFrame(body) + tail
    requires |buffer| < 4 + |body| && |more| <= Needed(buffer)
    ensures |buffer + more| <= 4 + |body|
  {
    PrefixOfFrame(buffer, body, tail, 0);
  }

  /** What the reader has of the next value's frame, and what it will have after the next call. */
  lemma BufferIsPrefix<V>(s: State<V>, n: nat) returns (body: seq<byte>, tail: seq<byte>)
    requires Conserved(s) && |s.read| < |s.offered| && n <= |s.wire|
    ensures body == Payload(s.codec, s.limit, s.offered[|s.read|])
    ensures tail == EncodeValues(s.codec, s.limit, s.offered[|s.read| + 1..])
    ensures s.buffer <= EncodeFrame(body) + tail && s.buffer + s.wire[..n] <= EncodeFrame(body) + tail
  {
    var ahead := s.offered[|s.read|..];
    body, tail := Payload(s.codec, s.limit, ahead[0]), EncodeValues(s.codec, s.limit, ahead[1..]);
    EncodeValuesFirst(s.codec, s.limit, ahead);
    assert ahead[1..] == s.offered[|s.read| + 1..];
    assert (s.buffer + s.wire[..n]) + (s.wire[n..] + s.pending + s.lost) == EncodeFrame(body) + tail;
  }

  /**
   * After a Read call the buffer is still incomplete, or is exactly the frame of the next value offered, or
   * holds its header, which is over the limit.
   */
  lemma PulledBuffer<V>(s: State<V>, n: nat)
    requires Conserved(s) && !s.readerDown && Parse(s.buffer, s.readLimit).Incomplete? && Enabled(s, Pull(n))
    ensures var buffer := s.buffer + s.wire[..n];
            var parsed := Parse(buffer, s.readLimit);
            if |s.read| == |s.offered| then buffer == [] && parsed.Incomplete?
            else if Fits(s, |s.read|) then
              var body := Payload(s.codec, s.limit, s.offered[|s.read|]);
              parsed.Incomplete? || (buffer == EncodeFrame(body) && parsed == Frame(body, []))
            else if |buffer| < 4 then parsed.Incomplete? else parsed.TooLarge?
  {
    var buffer := s.buffer + s.wire[..n];
    if |s.read| == |s.offered| {
      assert s.offered[|s.read|..] == [];
    } else {
      var body, tail := BufferIsPrefix(s, n);
      PrefixOfFrame(s.buffer, body, tail, s.readLimit);
      PrefixOfFrame(buffer, body, tail, s.readLimit);
      if Fits(s, |s.read|) {
        NeverOverreads(s.buffer, s.wire[..n], body, tail);
        if |buffer| == 4 + |body| {
          assert buffer == EncodeFrame(body);
        }
      }
    }
  }

  lemma PullKeeps<V>(s: State<V>, n: nat)
    requires Invariant(s) && Enabled(s, Pull(n))
    ensures Invariant(Apply(s, Pull(n)))
    ensures Apply(s, Pull(n)).readerDown ==> HeaderTooLarge(Apply(s, Pull(n)))
  {
    PulledBuffer(s, n);
    var s' := Apply(s, Pull(n));
    var buffer, wire := s.buffer + s.wire[..n], s.wire[n..];
    assert buffer + wire == s.buffer + s.wire;
    if Parse(buffer, s.readLimit).Frame? {
      var ahead := s.offered[|s.read|..];
      assert s.offered[|s'.read|..] == ahead[1..];
      EncodeValuesFirst(s.codec, s.limit, ahead);
      FrameTaken(EncodeFrame(Payload(s.codec, s.limit, ahead[0])), wire, s.pending, s.lost,
                 EncodeValues(s.codec, s.limit, ahead[1..]));
    }
  }

  /** The header of the next value's frame is in, and is over the reader's limit. */
  predicate HeaderTooLarge<V>(s: State<V>) {
    |s.read| < |s.offered| && !Fits(s, |s.read|) && |s.buffer| >= 4
  }

  lemma FrameTaken(frame: seq<byte>, wire: seq<byte>, pending: seq<byte>, lost: seq<byte>, tail: seq<byte>)
    requires frame + wire + pending + lost == frame + tail
    ensures [] + wire + pending + lost == tail
  {
    assert (frame + wire + pending + lost)[|frame|..] == wire + pending + lost;
    assert (frame + tail)[|frame|..] == tail;
  }

  lemma FrameAppended(
    buffer: seq<byte>, wire: seq<byte>, pending: seq<byte>, lost: seq<byte>, all: seq<byte>, frame: seq<byte>)
    requires pending == [] == lost && buffer + wire + pending + lost == all
    ensures buffer + wire + frame + lost == all + frame
  {
    assert buffer + wire == buffer + wire + pending + lost;
  }

  lemma BeginConserves<V>(s: State<V>, v: V)
    requires Conserved(s) && s.pending == [] && s.lost == [] && CanSend(s.codec, s.limit, v)
    ensures var frame := EncodeFrame(Payload(s.codec, s.limit, v));
            s.buffer + s.wire + frame + s.lost == EncodeValues(s.codec, s.limit, (s.offered + [v])[|s.read|..])
  {
    var ahead := s.offered[|s.read|..];
    FrameAppended(s.buffer, s.wire, s.pending, s.lost,
                  EncodeValues(s.codec, s.limit, ahead), EncodeFrame(Payload(s.codec, s.limit, v)));
    EncodeValuesAppend(s.codec, s.limit, ahead, v);
    assert (s.offered + [v])[|s.read|..] == ahead + [v];
  }

  lemma BeginKeeps<V>(s: State<V>, v: V)
    requires Invariant(s) && Enabled(s, BeginWrite(v))
    ensures Invariant(Apply(s, BeginWrite(v)))
  {
    if CanSend(s.codec, s.limit, v) {
      BeginConserves(s, v);
    }
  }

  lemma PushKeeps<V>(s: State<V>, n: nat)
    requires Invariant(s) && Enabled(s, Push(n))
    ensures Invariant(Apply(s, Push(n)))
  {
    assert (s.wire + s.pending[..n]) + s.pending[n..] == s.wire + s.pending;
    var s' := Apply(s, Push(n));
    assert s'.buffer + s'.wire + s'.pending + s'.lost == s.buffer + s.wire + s.pending + s.lost;
  }

  lemma WriteErrorKeeps<V>(s: State<V>, n: nat)
    requires Invariant(s) && Enabled(s, WriteError(n))
    ensures Invariant(Apply(s, WriteError(n)))
  {
    var s' := Apply(s, WriteError(n));
    assert s.lost == [];
    assert s'.buffer + s'.wire + s'.pending + s'.lost == s.buffer + s.wire + s.pending + s.lost;
  }

  lemma ReadErrorKeeps<V>(s: State<V>, n: nat)
    requires Invariant(s) && Enabled(s, ReadError(n))
    ensures Invariant(Apply(s, ReadError(n)))
  {
    assert (s.buffer + s.wire[..n]) + s.wire[n..] == s.buffer + s.wire;
  }

  lemma StepKeeps<V>(s: State<V>, a: Action<V>)
    requires Invariant(s) && Enabled(s, a)
    ensures Invariant(Apply(s, a))
    ensures Apply(s, a).codec == s.codec && Apply(s, a).limit == s.limit && Apply(s, a).readLimit == s.readLimit
  {
    match a
    case Pull(n) => PullKeeps(s, n);
    case ReadError(n) => ReadErrorKeeps(s, n);
    case BeginWrite(v) => BeginKeeps(s, v);
    case Push(n) => PushKeeps(s, n);
    case WriteError(n) => WriteErrorKeeps(s, n);
  }

  lemma {:induction false} RunKeeps<V>(s: State<V>, actions: seq<Action<V>>)
    requires Invariant(s) && IsRun(s, actions)
    ensures Invariant(After(s, actions))
    ensures var t := After(s, actions);
            t.codec == s.codec && t.limit == s.limit && t.readLimit == s.readLimit
    decreases |actions|
  {
    if actions == [] {
    } else {
      StepKeeps(s, actions[0]);
      RunKeeps(Apply(s, actions[0]), actions[1..]);
    }
  }

  // ---------------------------------------------------------------------------------------------
  // Refinement of a first-in first-out queue
  // ---------------------------------------------------------------------------------------------

  function Somes<V>(vs: seq<V>): (r: seq<Option<V>>)
    ensures |r| == |vs| && forall i :: 0 <= i < |vs| ==> r[i] == Some(vs[i])
  {
    if vs == [] then [] else [Some(vs[0])] + Somes(vs[1..])
  }

  /** While no write has failed, nothing is read before its WriteValue has succeeded. */
  lemma ReadBehindWritten<V>(s: State<V>)
    requires Invariant(s) && !s.writerDown
    ensures |s.read| <= |s.written|
  {
    if |s.read| == |s.offered| {
      assert s.offered[|s.read|..] == [];
      assert s.pending == [];
    }
  }

  /** With everything delivered and the reader waiting, everything offered has been read. */
  lemma NothingLeft<V>(s: State<V>)
    requires Invariant(s) && !s.readerDown && s.wire == [] && s.pending == [] && s.lost == []
    ensures |s.read| == |s.offered|
  {
    if |s.read| < |s.offered| {
      var ahead := s.offered[|s.read|..];
      EncodeValuesFirst(s.codec, s.limit, ahead);
      var body, tail := BufferIsPrefix(s, 0);
      assert s.buffer == EncodeFrame(body) + tail;
      PrefixOfFrame(s.buffer, body, tail, s.readLimit);
      assert false;
    }
  }

  /**
   * Over every interleaving and every chunking. Reads pair off with offered values in order, so the stream
   * stays aligned also where decoding fails; with a faithful codec and no failed write the values read are a
   * prefix of the values written, and all of them once everything is delivered and read.
   */
  lemma FifoRefinement<V(!new)>(s: State<V>, actions: seq<Action<V>>)
    requires Initial(s) && IsRun(s, actions)
    ensures var t := After(s, actions);
            && |t.read| <= |t.offered| && t.written <= t.offered && |t.offered| <= |t.written| + 1
            && (forall i :: 0 <= i < |t.read| ==>
                  t.read[i] == s.codec.unmarshal(Payload(s.codec, s.limit, t.offered[i])))
            && (Faithful(s.codec) ==> t.read <= Somes(t.offered))
            && (Faithful(s.codec) && !t.writerDown ==> t.read <= Somes(t.written))
            && (Faithful(s.codec) && !t.writerDown && !t.readerDown && t.pending == [] && t.wire == [] ==>
                  t.read == Somes(t.written))
  {
    assert Invariant(s);
    RunKeeps(s, actions);
    var t := After(s, actions);
    assert Faithful(s.codec) ==> forall i :: 0 <= i < |t.read| ==> t.read[i] == Some(t.offered[i]);
    if !t.writerDown {
      ReadBehindWritten(t);
      if !t.readerDown && t.pending == [] && t.wire == [] {
        NothingLeft(t);
      }
    }
  }

  // ---------------------------------------------------------------------------------------------
  // Frames over the reader's limit
  // ---------------------------------------------------------------------------------------------

  lemma {:induction false} DownOnlyByLimit<V>(s: State<V>, actions: seq<Action<V>>)
    requires Invariant(s) && (s.readerDown ==> HeaderTooLarge(s)) && IsRun(s, actions)
    requires forall i :: 0 <= i < |actions| ==> !actions[i].ReadError?
    ensures After(s, actions).readerDown ==> HeaderTooLarge(After(s, actions))
    decreases |actions|
  {
    if actions == [] {
    } else {
      var a := actions[0];
      assert !a.ReadError?;
      StepKeeps(s, a);
      if a.Pull? {
        PullKeeps(s, a.n);
      }
      DownOnlyByLimit(Apply(s, a), actions[1..]);
    }
  }

  /**
   * As long as no read fails: the reader is down exactly when the header of the next value's frame is in and
   * over its limit. Once nothing is left to do, it is down exactly when some value is over the limit, and has
   * read exactly the values before the first such one.
   */
  lemma ReaderDownExactly<V>(s: State<V>, actions: seq<Action<V>>)
    requires Initial(s) && IsRun(s, actions)
    requires forall i :: 0 <= i < |actions| ==> !actions[i].ReadError?
    ensures var t := After(s, actions);
            && (t.readerDown <==> HeaderTooLarge(t))
            && |t.read| <= |t.offered|
            && (forall i :: 0 <= i < |t.read| ==> Fits(t, i))
            && (t.pending == [] && t.lost == [] && (t.readerDown || t.wire == []) ==>
                  && (|t.read| < |t.offered| ==> !Fits(t, |t.read|))
                  && (t.readerDown <==> exists i :: 0 <= i < |t.offered| && !Fits(t, i)))
  {
    assert Invariant(s);
    RunKeeps(s, actions);
    DownOnlyByLimit(s, actions);
    var t := After(s, actions);
    if !t.readerDown && |t.read| < |t.offered| {
      var body, tail := BufferIsPrefix(t, 0);
      PrefixOfFrame(t.buffer, body, tail, t.readLimit);
    }
    if !t.readerDown && t.pending == [] && t.lost == [] && t.wire == [] {
      NothingLeft(t);
    }
  }

  // ---------------------------------------------------------------------------------------------
  // Values that were read though their WriteValue failed
  // ---------------------------------------------------------------------------------------------

  /** Lost bytes stay lost, and nothing is written any more. */
  lemma {:induction false} StaysDown<V>(s: State<V>, actions: seq<Action<V>>)
    requires s.writerDown && s.pending == [] && IsRun(s, actions)
    ensures var t := After(s, actions);
            t.writerDown && t.pending == [] && t.lost == s.lost && t.offered == s.offered && t.written == s.written
    decreases |actions|
  {
    if actions == [] {
    } else {
      StaysDown(Apply(s, actions[0]), actions[1..]);
    }
  }

  /** A value read beyond those written: its write failed, but with its last byte. */
  lemma ReadBeyondWritten<V>(t: State<V>)
    requires Invariant(t) && |t.read| > |t.written|
    ensures t.writerDown && t.lost == []
  {
    if !t.writerDown {
      ReadBehindWritten(t);
    }
    assert t.offered[|t.read|..] == [];
  }

  ghost predicate AllFit<V>(s: State<V>) {
    forall i :: 0 <= i < |s.offered| ==> Fits(s, i)
  }

  lemma StillFit<V>(s: State<V>, t: State<V>)
    requires AllFit(s)
    requires t.codec == s.codec && t.limit == s.limit && t.readLimit == s.readLimit && t.offered == s.offered
    ensures AllFit(t)
  {
    assert forall i :: 0 <= i < |t.offered| ==> Fits(s, i) ==> Fits(t, i);
  }

  lemma StillAsking<V>(s: State<V>)
    requires Parse(s.buffer, s.readLimit).Incomplete?
    ensures Needed(s.buffer) > 0
  {
  }

  /** The reader takes the rest of the stream byte by byte. */
  lemma {:induction false} Drain<V>(s: State<V>) returns (actions: seq<Action<V>>)
    requires Invariant(s) && !s.readerDown && s.pending == [] && s.lost == []
    requires AllFit(s)
    ensures IsRun(s, actions) && |After(s, actions).read| == |s.offered|
    decreases |s.wire|
  {
    if s.wire == [] {
      actions := [];
      NothingLeft(s);
    } else {
      StillAsking(s);
      var s' := Apply(s, Pull(1));
      PullKeeps(s, 1);
      StillFit(s, s');
      var rest := Drain(s');
      actions := [Pull(1)] + rest;
      assert actions[1..] == rest;
    }
  }

  /** Whoever has read all that was offered has read frames that fit. */
  lemma ReadAllFit<V>(s: State<V>, actions: seq<Action<V>>)
    requires Invariant(s) && s.writerDown && IsRun(s, actions) && |After(s, actions).read| > |s.written|
    ensures s.lost == [] && AllFit(s)
  {
    RunKeeps(s, actions);
    StaysDown(s, actions);
    var t := After(s, actions);
    ReadBeyondWritten(t);
    assert |t.read| == |t.offered|;
    assert AllFit(t);
    StillFit(t, s);
  }

  lemma ReadableExactly<V(!new)>(s: State<V>)
    requires Invariant(s) && s.writerDown && !s.readerDown && |s.offered| > |s.written|
    ensures (exists actions :: IsRun(s, actions) && |After(s, actions).read| > |s.written|)
       <==> s.lost == [] && AllFit(s)
  {
    if s.lost == [] && AllFit(s) {
      var actions := Drain(s);
      assert IsRun(s, actions) && |After(s, actions).read| > |s.written|;
    }
    forall actions | IsRun(s, actions) && |After(s, actions).read| > |s.written|
      ensures s.lost == [] && AllFit(s)
    {
      ReadAllFit(s, actions);
    }
  }

  /**
   * A value read beyond those written is always one whose write failed with its last byte. And after a
   * failed write, with the reader up, the value whose WriteValue failed can still be read exactly when the
   * failing call had moved the last byte of its frame and no frame is over the reader's limit.
   */
  lemma FailedValueReadableExactly<V(!new)>(s: State<V>, actions: seq<Action<V>>)
    requires Initial(s) && IsRun(s, actions)
    ensures var t := After(s, actions);
            && (|t.read| > |t.written| ==> t.writerDown && t.lost == [])
            && (t.writerDown && !t.readerDown && |t.offered| > |t.written| ==>
                  ((exists more :: IsRun(t, more) && |After(t, more).read| > |t.written|)
                   <==> t.lost == [] && AllFit(t)))
  {
    assert Invariant(s);
    RunKeeps(s, actions);
    var t := After(s, actions);
    if |t.read| > |t.written| {
      ReadBeyondWritten(t);
    }
    if t.writerDown && !t.readerDown && |t.offered| > |t.written| {
      ReadableExactly(t);
    }
  }

  lemma TwoSteps<V>(s: State<V>, a: Action<V>, b: Action<V>)
    requires Enabled(s, a) && Enabled(Apply(s, a), b)
    ensures IsRun(s, [a, b]) && After(s, [a, b]) == Apply(Apply(s, a), b)
  {
    OneStep(s, a);
    OneStep(Apply(s, a), b);
    RunConcat(s, [a], [b]);
    assert [a] + [b] == [a, b];
  }

  const ONE_BYTE_FRAME: seq<byte> := [0, 0, 0, 1, 7]

  lemma OneByteFrame()
    ensures ONE_BYTE_FRAME == EncodeFrame([7])
    ensures Parse(ONE_BYTE_FRAME[..4], 1).Incomplete? && Parse(ONE_BYTE_FRAME, 1) == Frame([7], [])
  {
    assert ONE_BYTE_FRAME == EncodeFrame([7]) + [];
    ParseInvertsEncode(ONE_BYTE_FRAME, 1, [7], []);
    assert ONE_BYTE_FRAME[..4][..4] == ONE_BYTE_FRAME[..4];
  }

  lemma WriteFailsWithLastByte() returns (s: State<seq<byte>>, t: State<seq<byte>>)
    ensures Initial(s) && Faithful(s.codec) && s.codec.unmarshal([7]) == Some([7]) && s.readLimit == 1
    ensures IsRun(s, [BeginWrite([7]), WriteError(5)]) && After(s, [BeginWrite([7]), WriteError(5)]) == t
    ensures t == s.(offered := [[7]], writerDown := true, wire := ONE_BYTE_FRAME)
  {
    var codec: Codec<seq<byte>> := Codec((v: seq<byte>) => Some(v), (b: seq<byte>) => Some(b));
    s := State(codec, 1, 1, [], [], [], [], false, [], [], false, []);
    OneByteFrame();
    var begun := Apply(s, BeginWrite([7]));
    assert begun == s.(offered := [[7]], pending := ONE_BYTE_FRAME);
    t := Apply(begun, WriteError(5));
    TwoSteps(s, BeginWrite([7]), WriteError(5));
  }

  lemma LastPull<V>(half: State<V>)
    requires Enabled(half, Pull(1)) && half.readLimit == 1
    requires half.buffer + half.wire[..1] == ONE_BYTE_FRAME && half.wire[1..] == []
    ensures Apply(half, Pull(1)) == half.(wire := [], buffer := [], read := half.read + [half.codec.unmarshal([7])])
  {
    OneByteFrame();
  }

  lemma ReadAfterwards<V>(t: State<V>)
    requires t.wire == ONE_BYTE_FRAME && t.buffer == [] && !t.readerDown && t.readLimit == 1
    ensures IsRun(t, [Pull(4), Pull(1)])
    ensures After(t, [Pull(4), Pull(1)]) == t.(wire := [], read := t.read + [t.codec.unmarshal([7])])
  {
    OneByteFrame();
    var half := Apply(t, Pull(4));
    assert half == t.(wire := [7], buffer := ONE_BYTE_FRAME[..4]);
    assert half.buffer + half.wire[..1] == ONE_BYTE_FRAME && half.wire[1..] == [];
    LastPull(half);
    TwoSteps(t, Pull(4), Pull(1));
  }

  /** Such a run: one call moves a whole frame and fails, and the value is read. */
  lemma FailedValueRead() returns (s: State<seq<byte>>, actions: seq<Action<seq<byte>>>)
    ensures Initial(s) && Faithful(s.codec) && IsRun(s, actions)
    ensures actions == [BeginWrite([7]), WriteError(5)] + [Pull(4), Pull(1)]
    ensures var t := After(s, actions);
            t.written == [] && t.read == [Some([7])] && t.writerDown && !t.readerDown
  {
    var t;
    s, t := WriteFailsWithLastByte();
    ReadAfterwards(t);
    actions := [BeginWrite([7]), WriteError(5)] + [Pull(4), Pull(1)];
    RunConcat(s, [BeginWrite([7]), WriteError(5)], [Pull(4), Pull(1)]);
  }
}
