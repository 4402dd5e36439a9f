/** A connection that moves arbitrary chunks, the wrapper that reports each call to hooks, and the hooks. */
module Transport {
  import opened Options
  import opened Framing

  /** `Wrapped` is an error with another one inside: errors.Is finds that, a comparison with == does not. */
  datatype IoError = Eof | UnexpectedEof | Fault | Wrapped(inner: IoError)

  /**
   * One end of a network connection. `inbound` is everything the peer ever sends, of which `pos` bytes have
   * been read; `outbound` is everything written so far. How much a call moves, and whether it fails, is
   * arbitrary; as io.Reader and io.Writer ask, a call that reports no error makes progress.
   */
  class NetConn {
    const inbound: seq<byte>
    var pos: nat
    var outbound: seq<byte>

    constructor (inbound: seq<byte>)
      ensures this.inbound == inbound && pos == 0 && outbound == []
    {
      this.inbound := inbound;
      pos, outbound := 0, [];
    }

    method Write(data: seq<byte>) returns (n: nat, err: Option<IoError>)
      modifies this`outbound
      ensures n <= |data| && outbound == old(outbound) + data[..n]
      ensures err.None? && data != [] ==> n > 0
    {
      n :| 0 <= n <= |data|;
      outbound := outbound + data[..n];
      err := None;
      if n == 0 {
        err := Some(Fault);
      }
      if * {
        err := Some(Fault);
      }
    }

    method Read(buf: array<byte>, from: nat) returns (n: nat, err: Option<IoError>)
      requires from <= buf.Length && pos <= |inbound|
      modifies this`pos, buf
      ensures n <= buf.Length - from && pos == old(pos) + n <= |inbound|
      ensures buf[..from] == old(buf[..from]) && buf[from..from + n] == inbound[old(pos)..pos]
      ensures err.None? && from < buf.Length ==> n > 0
      ensures err.Some? ==> !err.value.Wrapped?
    {
      n :| 0 <= n <= buf.Length - from && n <= |inbound| - pos;
      forall i | 0 <= i < n {
        buf[from + i] := inbound[pos + i];
      }
      pos := pos + n;
      err := None;
      if n == 0 {
        err := Some(Fault);
      }
      if * {
        err := Some(Fault);
      } else if * {
        err := Some(Eof);
      } else if * {
        err := Some(UnexpectedEof);
      }
    }
  }

  // ---------------------------------------------------------------------------------------------
  // Hooks
  // ---------------------------------------------------------------------------------------------

  datatype Op = ReadOp | WriteOp

  datatype IOEvent = IOEvent(op: Op, bytes: int, failed: bool)

  datatype Hook =
    | NilHook
    | ObservabilityHook
    | CustomHook(panics: IOEvent -> bool)

  /** One OnIO call, made to the hook at the given index of the list. */
  datatype HookCall = HookCall(hook: nat, event: IOEvent)

  /** The hook calls that one event causes among the first k hooks. */
  function Dispatch(hooks: seq<Hook>, k: nat, event: IOEvent): seq<HookCall>
    requires k <= |hooks|
  {
    if k == 0 then []
    else
      var rest := Dispatch(hooks, k - 1, event);
      if hooks[k - 1].NilHook? then rest else rest + [HookCall(k - 1, event)]
  }

  function DispatchAll(hooks: seq<Hook>, events: seq<IOEvent>): seq<HookCall> {
    if events == [] then []
    else DispatchAll(hooks, events[..|events| - 1]) + Dispatch(hooks, |hooks|, events[|events| - 1])
  }

  /** The events that one hook receives in a log of calls. */
  function SeenBy(log: seq<HookCall>, i: nat): seq<IOEvent> {
    if log == [] then []
    else
      var last := log[|log| - 1];
      var rest := SeenBy(log[..|log| - 1], i);
      if last.hook == i then rest + [last.event] else rest
  }

  lemma {:induction false} SeenByConcat(a: seq<HookCall>, b: seq<HookCall>, i: nat)
    ensures SeenBy(a + b, i) == SeenBy(a, i) + SeenBy(b, i)
    decreases |b|
  {
    if b == [] {
      assert a + b == a;
    } else {
      var last := |b| - 1;
      assert (a + b)[..|a + b| - 1] == a + b[..last];
      SeenByConcat(a, b[..last], i);
    }
  }

  lemma SeenByAppend(log: seq<HookCall>, k: nat, event: IOEvent, i: nat)
    ensures SeenBy(log + [HookCall(k, event)], i) == if k == i then SeenBy(log, i) + [event] else SeenBy(log, i)
  {
    var longer := log + [HookCall(k, event)];
    assert longer[..|longer| - 1] == log;
  }

  /** Of one event's calls to the first k hooks, hook i sees one if it is among them and not nil. */
  lemma {:induction false} DispatchSeen(hooks: seq<Hook>, k: nat, event: IOEvent, i: nat)
    requires k <= |hooks| && i < |hooks|
    ensures SeenBy(Dispatch(hooks, k, event), i) == if i < k && !hooks[i].NilHook? then [event] else []
    decreases k
  {
    if k == 0 {
    } else {
      DispatchSeen(hooks, k - 1, event, i);
      if !hooks[k - 1].NilHook? {
        SeenByAppend(Dispatch(hooks, k - 1, event), k - 1, event, i);
        assert [] + [event] == [event];
      }
    }
  }

  lemma DispatchAllStep(hooks: seq<Hook>, events: seq<IOEvent>, event: IOEvent)
    ensures DispatchAll(hooks, events + [event]) == DispatchAll(hooks, events) + Dispatch(hooks, |hooks|, event)
  {
    assert (events + [event])[..|events|] == events;
  }

  /** Over any sequence of calls every hook that is not nil sees every event once, in order. */
  lemma {:induction false} EveryHookSeesEveryEvent(hooks: seq<Hook>, events: seq<IOEvent>, i: nat)
    requires i < |hooks|
    ensures SeenBy(DispatchAll(hooks, events), i) == if hooks[i].NilHook? then [] else events
    decreases |events|
  {
    if events == [] {
    } else {
      var before, event := events[..|events| - 1], events[|events| - 1];
      assert events == before + [event];
      EveryHookSeesEveryEvent(hooks, before, i);
      DispatchSeen(hooks, |hooks|, event, i);
      DispatchAllStep(hooks, before, event);
      SeenByConcat(DispatchAll(hooks, before), Dispatch(hooks, |hooks|, event), i);
    }
  }

  predicate InListOrder(log: seq<HookCall>, k: nat) {
    && (forall a, b :: 0 <= a < b < |log| ==> log[a].hook < log[b].hook)
    && (forall a :: 0 <= a < |log| ==> log[a].hook < k)
  }

  lemma Extended(log: seq<HookCall>, k: nat, event: IOEvent)
    requires InListOrder(log, k)
    ensures InListOrder(log + [HookCall(k, event)], k + 1)
  {
  }

  /** For one event the calls go through the hooks in list order. */
  lemma {:induction false} DispatchInListOrder(hooks: seq<Hook>, k: nat, event: IOEvent)
    requires k <= |hooks|
    ensures InListOrder(Dispatch(hooks, k, event), k)
  {
    if k == 0 {
    } else {
      var rest := Dispatch(hooks, k - 1, event);
      DispatchInListOrder(hooks, k - 1, event);
      Extended(rest, k - 1, event);
    }
  }

  function TotalBytes(events: seq<IOEvent>): nat {
    if events == [] then 0 else TotalBytes(events[..|events| - 1]) + CountedBytes(events[|events| - 1])
  }

  function CountedBytes(event: IOEvent): nat {
    if event.bytes > 0 then event.bytes else 0
  }

  lemma TotalBytesStep(events: seq<IOEvent>, event: IOEvent)
    ensures TotalBytes(events + [event]) == TotalBytes(events) + CountedBytes(event)
  {
    assert (events + [event])[..|events|] == events;
  }

  class Hooks {
    const list: seq<Hook>
    var delivered: seq<HookCall> // OnIO calls made
    var ioTotal: seq<nat>       // per observability hook
    var ioBytesTotal: seq<nat>

    ghost predicate Valid()
      reads this
    {
      |ioTotal| == |list| && |ioBytesTotal| == |list|
    }

    /** What every observability hook has counted. */
    ghost predicate Counts(calls: nat, bytes: nat)
      requires Valid()
      reads this
    {
      forall i :: 0 <= i < |list| && list[i].ObservabilityHook? ==> ioTotal[i] == calls && ioBytesTotal[i] == bytes
    }

    constructor (list: seq<Hook>)
      ensures Valid() && this.list == list && delivered == []
      ensures forall i :: 0 <= i < |list| ==> ioTotal[i] == 0 && ioBytesTotal[i] == 0
    {
      this.list := list;
      delivered := [];
      ioTotal := seq(|list|, _ => 0);
      ioBytesTotal := seq(|list|, _ => 0);
    }

    method OnIO(i: nat, event: IOEvent) returns (panicked: bool)
      requires Valid() && i < |list|
      modifies this
      ensures Valid() && delivered == old(delivered) + [HookCall(i, event)]
      ensures if list[i].ObservabilityHook? then
                && ioTotal == old(ioTotal[i := ioTotal[i] + 1])
                && ioBytesTotal == old(ioBytesTotal[i := ioBytesTotal[i] + CountedBytes(event)])
              else
                ioTotal == old(ioTotal) && ioBytesTotal == old(ioBytesTotal)
    {
      delivered := delivered + [HookCall(i, event)];
      panicked := false;
      match list[i] {
        case ObservabilityHook =>
          ioTotal := ioTotal[i := ioTotal[i] + 1];
          if event.bytes > 0 {
            ioBytesTotal := ioBytesTotal[i := ioBytesTotal[i] + event.bytes];
          }
        case CustomHook(panics) => panicked := panics(event);
        case NilHook =>
      }
    }

    /** One hook's call with a deferred recover: the caller does not see the panic. */
    method EmitIOSafe(i: nat, event: IOEvent) returns (panicking: bool)
      requires Valid() && i < |list|
      modifies this
      ensures Valid() && !panicking
      ensures delivered == old(delivered) + if list[i].NilHook? then [] else [HookCall(i, event)]
      ensures if list[i].ObservabilityHook? then
                && ioTotal == old(ioTotal[i := ioTotal[i] + 1])
                && ioBytesTotal == old(ioBytesTotal[i := ioBytesTotal[i] + CountedBytes(event)])
              else
                ioTotal == old(ioTotal) && ioBytesTotal == old(ioBytesTotal)
    {
      if list[i].NilHook? {
        return false;
      }
      panicking := OnIO(i, event);
      if panicking {
        panicking := false; // recovered
      }
    }

    /**
     * Every hook that is not nil gets the event once, in list order. A panic that reached this loop would end
     * it; EmitIOSafe lets none through.
     */
    method EmitIO(event: IOEvent)
      requires Valid()
      modifies this
      ensures Valid() && delivered == old(delivered) + Dispatch(list, |list|, event)
      ensures forall i :: 0 <= i < |list| && list[i].ObservabilityHook? ==>
                ioTotal[i] == old(ioTotal[i]) + 1 && ioBytesTotal[i] == old(ioBytesTotal[i]) + CountedBytes(event)
    {
      var i, panicking := 0, false;
      while i < |list| && !panicking
        invariant 0 <= i <= |list| && Valid() && !panicking
        invariant delivered == old(delivered) + Dispatch(list, i, event)
        invariant forall j :: 0 <= j < i && list[j].ObservabilityHook? ==>
                    ioTotal[j] == old(ioTotal[j]) + 1 && ioBytesTotal[j] == old(ioBytesTotal[j]) + CountedBytes(event)
        invariant forall j :: i <= j < |list| ==>
                    ioTotal[j] == old(ioTotal[j]) && ioBytesTotal[j] == old(ioBytesTotal[j])
      {
        panicking := EmitIOSafe(i, event);
        i := i + 1;
      }
    }
  }

  // ---------------------------------------------------------------------------------------------
  // The wrapped connection
  // ---------------------------------------------------------------------------------------------

  /**
   * What a CodecConn reads from and writes to: the timeoutConn around a dialled connection, whose errors are
   * all wrapped, or a bare connection that the caller passed in, which has neither hooks nor timeouts.
   */
  class TimeoutConn {
    const conn: NetConn
    const hooks: Hooks
    const wraps: bool
    const readTimeout: int
    const writeTimeout: int
    ghost var events: seq<IOEvent> // one per call
    ghost var failures: nat        // calls that reported an error

    /** Byte accounting: every hook call is accounted for, and the byte counters agree with the bytes moved. */
    ghost predicate Valid()
      reads this, conn, hooks
    {
      && conn.pos <= |conn.inbound|
      && hooks.Valid()
      && hooks.delivered == DispatchAll(hooks.list, events)
      && TotalBytes(events) == conn.pos + |conn.outbound|
      && hooks.Counts(|events|, conn.pos + |conn.outbound|)
    }

    constructor (conn: NetConn, hooks: Hooks, wraps: bool, readTimeout: int, writeTimeout: int)
      requires !wraps ==> hooks.list == [] && readTimeout <= 0 && writeTimeout <= 0
      requires conn.pos == 0 && conn.outbound == []
      requires hooks.Valid() && hooks.delivered == []
      requires forall i :: 0 <= i < |hooks.list| ==> hooks.ioTotal[i] == 0 && hooks.ioBytesTotal[i] == 0
      ensures Valid() && events == [] && failures == 0
      ensures this.conn == conn && this.hooks == hooks && this.wraps == wraps
    {
      this.conn, this.hooks, this.wraps := conn, hooks, wraps;
      this.readTimeout, this.writeTimeout := readTimeout, writeTimeout;
      events, failures := [], 0;
    }

    /** Reports one call to the hooks. */
    method Emit(op: Op, bytes: nat, failed: bool)
      requires conn.pos <= |conn.inbound| && hooks.Valid() && hooks.delivered == DispatchAll(hooks.list, events)
      requires TotalBytes(events) + bytes == conn.pos + |conn.outbound|
      requires hooks.Counts(|events|, TotalBytes(events))
      modifies this`events, this`failures, hooks
      ensures Valid() && events == old(events) + [IOEvent(op, bytes, failed)]
      ensures failures == old(failures) + if failed then 1 else 0
    {
      var event := IOEvent(op, bytes, failed);
      ghost var calls, total := |events|, TotalBytes(events);
      hooks.EmitIO(event);
      assert hooks.Counts(calls + 1, total + bytes);
      DispatchAllStep(hooks.list, events, event);
      TotalBytesStep(events, event);
      events := events + [event];
      if failed {
        failures := failures + 1;
      }
    }

    /** Setting a deadline may fail, if there is one to set. */
    method ApplyDeadline(timeout: int) returns (err: Option<IoError>)
      ensures timeout <= 0 ==> err.None?
      ensures err.Some? ==> !err.value.Wrapped?
    {
      err := None;
      if timeout > 0 {
        if * {
          err := Some(Fault);
        }
      }
    }

    /** The connection's own error, or that of setting a deadline, as this layer hands it on. */
    function AsReported(err: Option<IoError>): (r: Option<IoError>)
      ensures wraps && err.Some? ==> r.Some? && r.value.Wrapped? && r.value.inner == err.value
      ensures !wraps || err.None? ==> r == err
    {
      if wraps && err.Some? then Some(Wrapped(err.value)) else err
    }

    method Read(buf: array<byte>, from: nat) returns (n: nat, err: Option<IoError>)
      requires Valid() && from <= buf.Length
      modifies this, conn, hooks, buf
      ensures Valid() && conn.outbound == old(conn.outbound)
      ensures n <= buf.Length - from && conn.pos == old(conn.pos) + n
      ensures buf[..from] == old(buf[..from]) && buf[from..from + n] == conn.inbound[old(conn.pos)..conn.pos]
      ensures err.None? && from < buf.Length ==> n > 0
      ensures err.Some? ==> err.value.Wrapped? == wraps
      ensures events == old(events) + [IOEvent(ReadOp, n, err.Some?)]
      ensures failures == old(failures) + if err.Some? then 1 else 0
    {
      err := ApplyDeadline(readTimeout);
      n := 0;
      if err.None? {
        n, err := conn.Read(buf, from);
      }
      err := AsReported(err);
      Emit(ReadOp, n, err.Some?);
    }

    method Write(data: seq<byte>) returns (n: nat, err: Option<IoError>)
      requires Valid()
      modifies this, conn, hooks
      ensures Valid() && conn.pos == old(conn.pos)
      ensures n <= |data| && conn.outbound == old(conn.outbound) + data[..n]
      ensures err.None? && data != [] ==> n > 0
      ensures events == old(events) + [IOEvent(WriteOp, n, err.Some?)]
      ensures failures == old(failures) + if err.Some? then 1 else 0
    {
      err := ApplyDeadline(writeTimeout);
      n := 0;
      if err.None? {
        n, err := conn.Write(data);
      }
      err := AsReported(err);
      Emit(WriteOp, n, err.Some?);
    }
  }
}
