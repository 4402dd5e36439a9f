/** The codec for raw byte slices, on slices that share backing arrays. */
module BytesCodec {
  import opened Options
  import opened Framing

  /** A Go slice: a window of `len` bytes into an array, which may grow in place up to `cap`. */
  datatype Slice = Slice(buf: array<byte>, off: nat, len: nat, cap: nat)

  ghost predicate ValidSlice(s: Slice) {
    s.len <= s.cap && s.off + s.cap <= s.buf.Length
  }

  ghost function Contents(s: Slice): seq<byte>
    requires ValidSlice(s)
    reads s.buf
  {
    s.buf[s.off..s.off + s.len]
  }

  datatype Value = Bytes(slice: Slice) | OtherValue

  /** A fresh copy: later writes through the argument do not reach it. */
  method Marshal(v: Value) returns (r: Option<Slice>)
    requires v.Bytes? ==> ValidSlice(v.slice)
    ensures r.None? <==> v.OtherValue?
    ensures r.Some? ==> ValidSlice(r.value) && fresh(r.value.buf) && Contents(r.value) == old(Contents(v.slice))
  {
    if v.OtherValue? {
      return None;
    }
    var s := v.slice;
    var copy := new byte[s.len];
    forall i | 0 <= i < s.len {
      copy[i] := s.buf[s.off + i];
    }
    assert copy[..] == s.buf[s.off..s.off + s.len];
    r := Some(Slice(copy, 0, s.len, s.len));
  }

  /**
   * append((*target)[:0], data...), or an error for another type of target: the target's array is reused when
   * it is large enough, otherwise left alone. The target ends up with the data even when both slices share an
   * array, and nothing outside the target's first |data| bytes changes.
   */
  method Unmarshal(data: Slice, v: Value) returns (r: Option<Slice>)
    requires ValidSlice(data) && (v.Bytes? ==> ValidSlice(v.slice))
    modifies if v.Bytes? then {v.slice.buf} else {}
    ensures r.None? <==> v.OtherValue?
    ensures v.Bytes? ==> ValidSlice(r.value) && r.value.len == data.len && Contents(r.value) == old(Contents(data))
    ensures v.Bytes? && data.len <= v.slice.cap ==> r == Some(Slice(v.slice.buf, v.slice.off, data.len, v.slice.cap))
    ensures v.Bytes? && data.len > v.slice.cap ==> fresh(r.value.buf) && v.slice.buf[..] == old(v.slice.buf[..])
    ensures v.Bytes? ==>
              forall i :: 0 <= i < v.slice.buf.Length && !(v.slice.off <= i < v.slice.off + data.len) ==>
                v.slice.buf[i] == old(v.slice.buf[i])
  {
    if v.OtherValue? {
      return None;
    }
    var target := v.slice;
    var bytes := data.buf[data.off..data.off + data.len];
    if data.len <= target.cap {
      forall i | 0 <= i < data.len {
        target.buf[target.off + i] := bytes[i];
      }
      r := Some(Slice(target.buf, target.off, data.len, target.cap));
      assert target.buf[target.off..target.off + data.len] == bytes;
    } else {
      var grown := new byte[data.len];
      forall i | 0 <= i < data.len {
        grown[i] := bytes[i];
      }
      r := Some(Slice(grown, 0, data.len, data.len));
      assert grown[..] == bytes;
    }
  }

  /** Unmarshal after Marshal gives back the bytes, whatever the target held or shared before. */
  method RoundTrip(v: Slice, target: Slice) returns (r: Slice)
    requires ValidSlice(v) && ValidSlice(target)
    modifies target.buf
    ensures ValidSlice(r) && Contents(r) == old(Contents(v))
  {
    var payload := Marshal(Bytes(v));
    var filled := Unmarshal(payload.value, Bytes(target));
    r := filled.value;
  }
}
