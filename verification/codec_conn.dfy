/** Typed messages over frames. */
module CodecConns {
  import opened Options
  import opened Framing
  import opened Transport
  import opened Framer

  /** A codec; None where Marshal or Unmarshal reports an error. */
  datatype Codec<!V> = Codec(marshal: V -> Option<seq<byte>>, unmarshal: seq<byte> -> Option<V>)

  /** Unmarshal inverts Marshal. */
  ghost predicate Faithful<V(!new)>(codec: Codec<V>) {
    forall v :: codec.marshal(v).Some? ==> codec.unmarshal(codec.marshal(v).value) == Some(v)
  }

  datatype Sent = SentValue | EncodeFailed | SendTooLarge | SendFailed(error: IoError)

  datatype Received<V> =
    | Value(value: V)
    | DecodeFailed(body: seq<byte>)
    | ReceiveTooLarge(size: nat)
    | ReceiveFailed(error: IoError)

  class CodecConn<V(!new)> {
    const conn: TimeoutConn
    const codec: Codec<V>
    const limit: Limit

    constructor (conn: TimeoutConn, codec: Codec<V>, limit: Limit)
      ensures this.conn == conn && this.codec == codec && this.limit == limit
    {
      this.conn, this.codec, this.limit := conn, codec, limit;
    }

    /** A value that cannot be encoded, or whose frame is over the limit, leaves the stream as it was. */
    method WriteValue(v: V) returns (r: Sent)
      requires conn.Valid()
      modifies conn, conn.conn, conn.hooks
      ensures conn.Valid() && conn.conn.pos == old(conn.conn.pos)
      ensures r.EncodeFailed? <==> codec.marshal(v).None?
      ensures r.SendTooLarge? <==> codec.marshal(v).Some? && |codec.marshal(v).value| > limit
      ensures r.EncodeFailed? || r.SendTooLarge? ==>
                conn.conn.outbound == old(conn.conn.outbound) && conn.events == old(conn.events)
      ensures r.SentValue? || r.SendFailed? ==>
                Extends(old(conn.conn.outbound), conn.conn.outbound, EncodeFrame(codec.marshal(v).value), r.SentValue?)
      ensures r.SendFailed? ==> conn.failures > old(conn.failures)
    {
      var payload := codec.marshal(v);
      if payload.None? {
        return EncodeFailed;
      }
      var w, _ := WriteFrame(conn, limit, payload.value);
      match w {
        case Written => r := SentValue;
        case WriteTooLarge => r := SendTooLarge;
        case WriteFailed(e) => r := SendFailed(e);
      }
    }

    /** A value that cannot be decoded still consumes exactly its own frame. */
    method ReadValue() returns (r: Received<V>)
      requires conn.Valid()
      modifies conn, conn.conn, conn.hooks
      ensures conn.Valid() && conn.conn.outbound == old(conn.conn.outbound) && old(conn.conn.pos) <= conn.conn.pos
      ensures var stream := conn.conn.inbound;
              match r
              case Value(v) =>
                exists body :: Parse(stream[old(conn.conn.pos)..], limit) == Frame(body, stream[conn.conn.pos..])
                               && codec.unmarshal(body) == Some(v)
              case DecodeFailed(body) =>
                && Parse(stream[old(conn.conn.pos)..], limit) == Frame(body, stream[conn.conn.pos..])
                && codec.unmarshal(body).None?
              case ReceiveTooLarge(size) =>
                Parse(stream[old(conn.conn.pos)..], limit) == TooLarge(size, stream[conn.conn.pos..])
              case ReceiveFailed(_) =>
                && Parse(stream[old(conn.conn.pos)..conn.conn.pos], limit).Incomplete?
                && conn.failures > old(conn.failures)
    {
      var f, _, _ := ReadFrame(conn, limit);
      if !f.ReadFailed? {
        ReadIsParse(conn.conn.inbound, old(conn.conn.pos), conn.conn.pos, limit, f);
      }
      match f {
        case ReadBody(body) =>
          var v := codec.unmarshal(body);
          r := if v.Some? then Value(v.value) else DecodeFailed(body);
        case ReadTooLarge(size) => r := ReceiveTooLarge(size);
        case ReadFailed(e) => r := ReceiveFailed(e);
      }
    }
  }

  /** Both ends of one exchange: the value read is the value whose frame comes next on the stream. */
  lemma ReadsWhatWasWritten<V(!new)>(
    codec: Codec<V>, limit: Limit, v: V, stream: seq<byte>, start: nat, body: seq<byte>, rest: seq<byte>)
    requires Faithful(codec) && codec.marshal(v).Some? && |codec.marshal(v).value| <= limit
    requires start <= |stream| && EncodeFrame(codec.marshal(v).value) <= stream[start..]
    requires Parse(stream[start..], limit) == Frame(body, rest)
    ensures codec.unmarshal(body) == Some(v)
    ensures stream[start..] == EncodeFrame(codec.marshal(v).value) + rest
  {
    var payload := codec.marshal(v).value;
    var tail := stream[start..][4 + |payload|..];
    assert stream[start..] == EncodeFrame(payload) + tail;
    ParseInvertsEncode(stream[start..], limit, payload, tail);
  }
}
