/** The loops of WriteFrame and ReadFrame take the steps of the link, one for each call they make. */
module Conformance {
  import opened Options
  import opened Sequences
  import opened Framing
  import opened Transport
  import opened Framer
  import opened CodecConns
  import opened Link

  /** The step that a call is: a failing Read call that brings the last byte wanted is an ordinary one. */
  function StepOf<V>(s: State<V>, call: IOEvent): Action<V>
    requires call.bytes >= 0
  {
    match call.op
    case WriteOp => if call.failed then WriteError(call.bytes) else Push(call.bytes)
    case ReadOp => if call.failed && call.bytes < Needed(s.buffer) then ReadError(call.bytes) else Pull(call.bytes)
  }

  function TakeCall<V>(s: State<V>, call: IOEvent): Option<State<V>> {
    if call.bytes >= 0 && Enabled(s, StepOf(s, call)) then Some(Apply(s, StepOf(s, call))) else None
  }

  function Taking<V>(): (State<V>, IOEvent) -> Option<State<V>> {
    (s: State<V>, call: IOEvent) => TakeCall(s, call)
  }

  /** The state after the calls of the log from number `from` on, if each of them can be taken in turn. */
  function TakeCalls<S>(take: (S, IOEvent) -> Option<S>, s: S, log: seq<IOEvent>, from: nat): Option<S>
    decreases |log|
  {
    if |log| <= from then Some(s)
    else
      var t := TakeCalls(take, s, log[..|log| - 1], from);
      if t.None? then None else take(t.value, log[|log| - 1])
  }

  lemma {:induction false} TakeBoth<S>(
    take: (S, IOEvent) -> Option<S>, s: S, log: seq<IOEvent>, from: nat, middle: nat, t: S)
    requires from <= middle <= |log| && TakeCalls(take, s, log[..middle], from) == Some(t)
    ensures TakeCalls(take, s, log, from) == TakeCalls(take, t, log, middle)
    decreases |log|
  {
    if |log| == middle {
      assert log[..middle] == log;
    } else {
      var before := log[..|log| - 1];
      assert before[..middle] == log[..middle];
      TakeBoth(take, s, before, from, middle, t);
    }
  }

  lemma TakeLast<S>(take: (S, IOEvent) -> Option<S>, s: S, log: seq<IOEvent>, from: nat, t: S, u: S)
    requires |log| > from && TakeCalls(take, s, log[..|log| - 1], from) == Some(t)
    requires take(t, log[|log| - 1]) == Some(u)
    ensures TakeCalls(take, s, log, from) == Some(u)
  {
  }

  /** Successful calls, each of which goes on from where a number of bytes has been moved. */
  lemma {:induction false} TakeSucceeded<S>(
    take: (S, IOEvent) -> Option<S>, after: nat -> S, log: seq<IOEvent>, from: nat, op: Op, moved: nat, bound: nat)
    requires from <= |log| && Succeeded(log, from, op, moved) && moved <= bound
    requires forall m: nat, call: IOEvent ::
               call.op == op && !call.failed && 0 < call.bytes && m + call.bytes <= bound ==>
               take(after(m), call) == Some(after(m + call.bytes))
    ensures TakeCalls(take, after(0), log, from) == Some(after(moved))
    decreases |log|
  {
    if |log| == from {
    } else {
      var last := log[|log| - 1];
      TakeSucceeded(take, after, log[..|log| - 1], from, op, moved - last.bytes, bound);
      assert take(after(moved - last.bytes), last) == Some(after(moved));
    }
  }

  predicate SameCall<V>(a: Action<V>, call: IOEvent) {
    match a
    case Push(n) => call == IOEvent(WriteOp, n, false)
    case WriteError(n) => call == IOEvent(WriteOp, n, true)
    case Pull(n) => call.op == ReadOp && call.bytes == n
    case ReadError(n) => call == IOEvent(ReadOp, n, true)
    case BeginWrite(_) => false
  }

  lemma CallIsStep<V>(s: State<V>, call: IOEvent) returns (a: Action<V>)
    requires TakeCall(s, call).Some?
    ensures Enabled(s, a) && Apply(s, a) == TakeCall(s, call).value && SameCall(a, call)
  {
    a := StepOf(s, call);
  }

  /** Calls that are taken one after the other are a run, one action for each call. */
  lemma {:induction false} CallsAreRun<V>(s: State<V>, log: seq<IOEvent>, from: nat) returns (actions: seq<Action<V>>)
    requires from <= |log| && TakeCalls(Taking<V>(), s, log, from).Some?
    ensures IsRun(s, actions) && Some(After(s, actions)) == TakeCalls(Taking<V>(), s, log, from)
    ensures |actions| == |log| - from && forall i :: 0 <= i < |actions| ==> SameCall(actions[i], log[from + i])
    decreases |log|
  {
    if |log| == from {
      actions := [];
    } else {
      var done := CallsAreRun(s, log[..|log| - 1], from);
      var t := After(s, done);
      var a := CallIsStep(t, log[|log| - 1]);
      OneStep(t, a);
      RunConcat(s, done, [a]);
      actions := done + [a];
    }
  }

  // ---------------------------------------------------------------------------------------------
  // Writing
  // ---------------------------------------------------------------------------------------------

  /** The writer's side once n bytes of the current frame have been pushed. */
  function Pushed<V>(s: State<V>, n: nat): State<V>
    requires n <= |s.pending|
  {
    if n == 0 then s
    else
      var s' := s.(pending := s.pending[n..], wire := s.wire + s.pending[..n]);
      if n == |s.pending| then s'.(written := s.offered) else s'
  }

  function FailedAfter<V>(s: State<V>, n: nat): State<V>
    requires n <= |s.pending|
  {
    s.(pending := [], lost := s.pending[n..], writerDown := true, wire := s.wire + s.pending[..n])
  }

  lemma PushMore<V>(s: State<V>, m: nat, call: IOEvent)
    requires call.op == WriteOp && !call.failed && call.bytes > 0 && m + call.bytes <= |s.pending|
    ensures TakeCall(Pushed(s, m), call) == Some(Pushed(s, m + call.bytes))
  {
    PendingSplit(s.wire, s.pending, m, call.bytes);
  }

  lemma FailMore<V>(s: State<V>, m: nat, call: IOEvent)
    requires call.op == WriteOp && call.failed && call.bytes >= 0
    requires m < |s.pending| && m + call.bytes <= |s.pending|
    ensures TakeCall(Pushed(s, m), call) == Some(FailedAfter(s, m + call.bytes))
  {
    PendingSplit(s.wire, s.pending, m, call.bytes);
  }

  lemma PendingSplit(wire: seq<byte>, pending: seq<byte>, m: nat, n: nat)
    requires m + n <= |pending|
    ensures pending[m..][n..] == pending[m + n..]
    ensures wire + pending[..m] + pending[m..][..n] == wire + pending[..m + n]
  {
    assert pending[..m] + pending[m..][..n] == pending[..m + n];
  }

  function PushedFrom<V>(s: State<V>): nat -> State<V> {
    (n: nat) => if n <= |s.pending| then Pushed(s, n) else s
  }

  lemma PushesRun<V>(s: State<V>, log: seq<IOEvent>, from: nat, moved: nat)
    requires from <= |log| && Succeeded(log, from, WriteOp, moved) && moved <= |s.pending|
    ensures TakeCalls(Taking<V>(), s, log, from) == Some(Pushed(s, moved))
  {
    var take, after := Taking<V>(), PushedFrom(s);
    forall m: nat, call: IOEvent | call.op == WriteOp && !call.failed && 0 < call.bytes && m + call.bytes <= |s.pending|
      ensures take(after(m), call) == Some(after(m + call.bytes))
    {
      PushMore(s, m, call);
    }
    TakeSucceeded(take, after, log, from, WriteOp, moved, |s.pending|);
  }

  lemma {:induction false} SucceededBoth(log: seq<IOEvent>, from: nat, middle: nat, op: Op, a: nat, b: nat)
    requires from <= middle <= |log| && Succeeded(log[..middle], from, op, a) && Succeeded(log, middle, op, b)
    ensures Succeeded(log, from, op, a + b)
    decreases |log|
  {
    if |log| == middle {
      assert log[..middle] == log;
    } else {
      var before, last := log[..|log| - 1], log[|log| - 1];
      assert before[..middle] == log[..middle];
      SucceededBoth(before, from, middle, op, a, b - last.bytes);
    }
  }

  lemma MovedBoth(log: seq<IOEvent>, from: nat, middle: nat, op: Op, a: nat, b: nat, wanted: nat, failed: bool)
    requires from <= middle <= |log|
    requires Moved(log[..middle], from, op, a, a, false) && Moved(log, middle, op, b, wanted, failed)
    ensures Moved(log, from, op, a + b, a + wanted, failed)
  {
    if failed {
      var before, last := log[..|log| - 1], log[|log| - 1];
      assert before[..middle] == log[..middle];
      SucceededBoth(before, from, middle, op, a, b - last.bytes);
    } else {
      SucceededBoth(log, from, middle, op, a, b);
    }
  }

  /**
   * The calls of one WriteFrame, as its contract describes them, are a run of the link's writer: pushes that
   * put the whole frame on the wire, or pushes and a failing call that lose what it did not move.
   */
  lemma WriteFrameSteps<V>(
    s: State<V>, body: seq<byte>, log: seq<IOEvent>, from: nat, middle: nat, moved: nat, failed: bool)
    requires |body| < TWO_TO_THE_32 && s.pending == EncodeFrame(body)
    requires FrameCalls(log, from, middle, WriteOp, moved, |body|, failed)
    requires !failed ==> moved == 4 + |body|
    ensures TakeCalls(Taking<V>(), s, log, from) == Some(if failed then FailedAfter(s, moved) else Pushed(s, moved))
  {
    var wanted := 4;
    if middle < |log| {
      wanted := 4 + |body|;
      MovedBoth(log, from, middle, WriteOp, 4, moved - 4, |body|, failed);
    }
    WriteSteps(s, log, from, moved, wanted, failed);
  }

  lemma WriteSteps<V>(s: State<V>, log: seq<IOEvent>, from: nat, moved: nat, wanted: nat, failed: bool)
    requires from <= |log| && Moved(log, from, WriteOp, moved, wanted, failed) && wanted <= |s.pending|
    ensures TakeCalls(Taking<V>(), s, log, from) == Some(if failed then FailedAfter(s, moved) else Pushed(s, moved))
  {
    if failed {
      var call := log[|log| - 1];
      PushesRun(s, log[..|log| - 1], from, moved - call.bytes);
      FailMore(s, moved - call.bytes, call);
    } else {
      PushesRun(s, log, from, moved);
    }
  }

  // ---------------------------------------------------------------------------------------------
  // Reading
  // ---------------------------------------------------------------------------------------------

  /** The reader's side once n bytes have been taken off the wire. */
  function Taken<V>(s: State<V>, n: nat): State<V>
    requires n <= |s.wire|
  {
    s.(wire := s.wire[n..], buffer := s.buffer + s.wire[..n])
  }

  lemma TakenMore<V>(s: State<V>, m: nat, n: nat)
    requires m + n <= |s.wire|
    ensures Taken(Taken(s, m), n) == Taken(s, m + n)
  {
    assert s.wire[m..][n..] == s.wire[m + n..];
    assert s.wire[..m] + s.wire[m..][..n] == s.wire[..m + n];
    ConcatAssociative(s.buffer, s.wire[..m], s.wire[m..][..n]);
  }

  /** Short of what is asked for, the reader keeps waiting for the rest of it. */
  lemma StillShort(buffer: seq<byte>, more: seq<byte>, limit: Limit)
    requires Parse(buffer, limit).Incomplete? && |more| < Needed(buffer)
    ensures Parse(buffer + more, limit).Incomplete? && Needed(buffer + more) == Needed(buffer) - |more|
  {
    if |buffer| >= 4 {
      assert (buffer + more)[..4] == buffer[..4];
    }
  }

  lemma TakenShort<V>(s: State<V>, n: nat)
    requires Parse(s.buffer, s.readLimit).Incomplete? && n <= |s.wire| && n < Needed(s.buffer)
    ensures Parse(Taken(s, n).buffer, s.readLimit).Incomplete? && Needed(Taken(s, n).buffer) == Needed(s.buffer) - n
  {
    StillShort(s.buffer, s.wire[..n], s.readLimit);
  }

  lemma PullMore<V>(s: State<V>, m: nat, call: IOEvent)
    requires !s.readerDown && Parse(s.buffer, s.readLimit).Incomplete? && call.op == ReadOp && !call.failed
    requires call.bytes >= 0 && m + call.bytes <= |s.wire| && m + call.bytes < Needed(s.buffer)
    ensures TakeCall(Taken(s, m), call) == Some(Taken(s, m + call.bytes))
  {
    TakenShort(s, m);
    TakenMore(s, m, call.bytes);
    TakenShort(s, m + call.bytes);
  }

  function TakenFrom<V>(s: State<V>): nat -> State<V> {
    (n: nat) => if n <= |s.wire| then Taken(s, n) else s
  }

  lemma PullMoreFrom<V>(s: State<V>, m: nat, call: IOEvent)
    requires !s.readerDown && Parse(s.buffer, s.readLimit).Incomplete? && call.op == ReadOp && !call.failed
    requires call.bytes >= 0 && m + call.bytes <= |s.wire| && m + call.bytes < Needed(s.buffer)
    ensures Taking<V>()(TakenFrom(s)(m), call) == Some(TakenFrom(s)(m + call.bytes))
  {
    PullMore(s, m, call);
  }

  lemma PullsRun<V>(s: State<V>, log: seq<IOEvent>, from: nat, moved: nat)
    requires !s.readerDown && Parse(s.buffer, s.readLimit).Incomplete?
    requires from <= |log| && Succeeded(log, from, ReadOp, moved) && moved <= |s.wire| && moved < Needed(s.buffer)
    ensures TakeCalls(Taking<V>(), s, log, from) == Some(TakenFrom(s)(moved))
  {
    var take, after := Taking<V>(), TakenFrom(s);
    forall m: nat, call: IOEvent | call.op == ReadOp && !call.failed && 0 < call.bytes && m + call.bytes <= moved
      ensures take(after(m), call) == Some(after(m + call.bytes))
    {
      PullMoreFrom(s, m, call);
    }
    TakenNone(s);
    TakeSucceeded(take, after, log, from, ReadOp, moved, moved);
  }

  lemma TakenNone<V>(s: State<V>)
    ensures TakenFrom(s)(0) == s
  {
  }

  /** The reader's side after one io.ReadFull of exactly what it needs next: it has got it all, or failed. */
  function Filled<V>(s: State<V>, n: nat): State<V>
    requires n <= |s.wire|
  {
    if n == Needed(s.buffer) then Receive(Taken(s, n)) else Taken(s, n).(readerDown := true)
  }

  lemma LastPull<V>(s: State<V>, m: nat, call: IOEvent)
    requires !s.readerDown && Parse(s.buffer, s.readLimit).Incomplete? && call.op == ReadOp && call.bytes >= 0
    requires m < Needed(s.buffer) && m + call.bytes <= |s.wire| && m + call.bytes <= Needed(s.buffer)
    requires call.failed || m + call.bytes == Needed(s.buffer)
    ensures TakeCall(Taken(s, m), call) == Some(Filled(s, m + call.bytes))
  {
    TakenShort(s, m);
    TakenMore(s, m, call.bytes);
  }

  lemma ReadFullSteps<V>(s: State<V>, log: seq<IOEvent>, from: nat, moved: nat, failed: bool) returns (t: State<V>)
    requires !s.readerDown && Parse(s.buffer, s.readLimit).Incomplete?
    requires from <= |log| && Moved(log, from, ReadOp, moved, Needed(s.buffer), failed) && moved <= |s.wire|
    requires !failed ==> moved == Needed(s.buffer)
    ensures t == Filled(s, moved) && TakeCalls(Taking<V>(), s, log, from) == Some(t)
  {
    StillAsking(s);
    t := Filled(s, moved);
    var call := log[|log| - 1];
    var m := moved - call.bytes;
    PullsRun(s, log[..|log| - 1], from, m);
    LastPull(s, m, call);
    TakeLast(Taking<V>(), s, log, from, Taken(s, m), t);
  }

  /** The reader's side after a ReadFrame that consumed these bytes. */
  function Finished<V>(s: State<V>, consumed: seq<byte>, r: ReadResult): State<V>
    requires |consumed| <= |s.wire|
  {
    var s' := s.(wire := s.wire[|consumed|..]);
    match r
    case ReadBody(body) => s'.(read := s.read + [s.codec.unmarshal(body)])
    case ReadTooLarge(_) => s'.(buffer := consumed, readerDown := true)
    case ReadFailed(_) => s'.(buffer := consumed, readerDown := true)
  }

  /** The header alone: it is short, or it says all there is to know, or a body is asked for. */
  lemma HeaderFilled<V>(s: State<V>, consumed: seq<byte>, r: ReadResult)
    requires s.buffer == [] && |consumed| <= 4 && consumed <= s.wire
    requires ReadOutcome(r, consumed, s.readLimit) && !BodyAsked(consumed, s.readLimit)
    ensures Filled(s, |consumed|) == Finished(s, consumed, r)
  {
    assert Taken(s, |consumed|).buffer == consumed;
    if |consumed| == 4 {
      assert consumed[..4] == consumed;
      if r.ReadBody? {
        EmptyConcat(consumed);
        ParseInvertsEncode(consumed, s.readLimit, r.body, []);
      }
    }
  }

  /** With the header taken in, the reader waits for the body. */
  lemma BodyAwaited<V>(s: State<V>, consumed: seq<byte>)
    requires s.buffer == [] && consumed <= s.wire && BodyAsked(consumed, s.readLimit)
    ensures var t := Taken(s, 4);
            && t.buffer == consumed[..4]
            && Parse(t.buffer, s.readLimit).Incomplete? && Needed(t.buffer) == AnnouncedSize(consumed)
            && Filled(s, 4) == t
  {
    assert consumed[..4][..4] == consumed[..4] == s.wire[..4];
    assert Taken(s, 4).buffer == consumed[..4];
  }

  lemma BodyFilled<V>(s: State<V>, consumed: seq<byte>, r: ReadResult)
    requires s.buffer == [] && consumed <= s.wire
    requires ReadOutcome(r, consumed, s.readLimit) && BodyAsked(consumed, s.readLimit)
    requires |consumed| <= 4 + AnnouncedSize(consumed)
    ensures Filled(Taken(s, 4), |consumed| - 4) == Finished(s, consumed, r)
  {
    BodyAwaited(s, consumed);
    TakenMore(s, 4, |consumed| - 4);
    assert Taken(s, |consumed|) == s.(wire := s.wire[|consumed|..], buffer := consumed);
    if r.ReadBody? {
      EmptyConcat(consumed);
      ParseInvertsEncode(consumed, s.readLimit, r.body, []);
    }
  }

  lemma HeaderSteps<V>(
    s: State<V>, consumed: seq<byte>, r: ReadResult, log: seq<IOEvent>, from: nat, failed: bool)
    requires !s.readerDown && s.buffer == [] && consumed <= s.wire && from <= |log|
    requires ReadOutcome(r, consumed, s.readLimit) && (r.ReadFailed? ==> failed)
    requires Moved(log, from, ReadOp, |consumed|, 4, failed) && !BodyAsked(consumed, s.readLimit)
    ensures TakeCalls(Taking<V>(), s, log, from) == Some(Finished(s, consumed, r))
  {
    HeaderFilled(s, consumed, r);
    var t := ReadFullSteps(s, log, from, |consumed|, failed);
  }

  lemma HeaderComplete<V>(s: State<V>, consumed: seq<byte>, log: seq<IOEvent>, from: nat, failed: bool)
    returns (t: State<V>)
    requires !s.readerDown && s.buffer == [] && consumed <= s.wire && from <= |log|
    requires BodyAsked(consumed, s.readLimit) && Moved(log, from, ReadOp, 4, 4, failed)
    ensures t == Taken(s, 4) && TakeCalls(Taking<V>(), s, log, from) == Some(t)
  {
    t := ReadFullSteps(s, log, from, 4, failed);
    BodyAwaited(s, consumed);
  }

  lemma BodySteps<V>(s: State<V>, consumed: seq<byte>, log: seq<IOEvent>, middle: nat, failed: bool)
    returns (u: State<V>)
    requires !s.readerDown && s.buffer == [] && consumed <= s.wire && middle <= |log|
    requires BodyAsked(consumed, s.readLimit)
    requires Moved(log, middle, ReadOp, |consumed| - 4, AnnouncedSize(consumed), failed)
    requires !failed ==> |consumed| == 4 + AnnouncedSize(consumed)
    ensures u == Filled(Taken(s, 4), |consumed| - 4) && TakeCalls(Taking<V>(), Taken(s, 4), log, middle) == Some(u)
  {
    BodyAwaited(s, consumed);
    u := ReadFullSteps(Taken(s, 4), log, middle, |consumed| - 4, failed);
  }

  /** A body that was delivered is the one its header announced. */
  lemma WholeBody(consumed: seq<byte>, r: ReadResult, limit: Limit)
    requires ReadOutcome(r, consumed, limit) && BodyAsked(consumed, limit) && !r.ReadFailed?
    ensures |consumed| == 4 + AnnouncedSize(consumed)
  {
    if r.ReadBody? {
      EmptyConcat(consumed);
      ParseInvertsEncode(consumed, limit, r.body, []);
    }
  }

  /**
   * The calls of one ReadFrame, as its contract describes them, are a run of the link's reader, from between
   * frames to where the result says it is: the frame delivered, refused, or left half read.
   */
  lemma ReadFrameSteps<V>(
    s: State<V>, consumed: seq<byte>, r: ReadResult, log: seq<IOEvent>, from: nat, middle: nat, failed: bool)
    requires !s.readerDown && s.buffer == [] && consumed <= s.wire
    requires ReadOutcome(r, consumed, s.readLimit) && (r.ReadFailed? ==> failed)
    requires FrameCalls(log, from, middle, ReadOp, |consumed|, AnnouncedSize(consumed), failed)
    requires middle < |log| <==> BodyAsked(consumed, s.readLimit)
    ensures TakeCalls(Taking<V>(), s, log, from) == Some(Finished(s, consumed, r))
  {
    if middle == |log| {
      HeaderSteps(s, consumed, r, log, from, failed);
    } else {
      if !r.ReadFailed? {
        WholeBody(consumed, r, s.readLimit);
      }
      var t := HeaderComplete(s, consumed, log[..middle], from, !Moved(log[..middle], from, ReadOp, 4, 4, false));
      var u := BodySteps(s, consumed, log, middle, failed);
      TakeBoth(Taking<V>(), s, log, from, middle, t);
      BodyFilled(s, consumed, r);
    }
  }
}
