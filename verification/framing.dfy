/** The 4-byte big-endian length-prefixed format as a printer and a parser on byte sequences. */
module Framing {
  import opened Sequences

  type byte = x: int | 0 <= x < 256

  const TWO_TO_THE_32: nat := 0x1_0000_0000

  type Limit = x: nat | x < TWO_TO_THE_32

  const DEFAULT_MAX_FRAME_BYTES: Limit := 4 * 1024 * 1024

  /** A limit of zero means the default. */
  function NewLengthPrefixed(maxFrameBytes: Limit): (limit: Limit)
    ensures limit > 0
    ensures maxFrameBytes > 0 ==> limit == maxFrameBytes
    ensures maxFrameBytes == 0 ==> limit == 4_194_304
  {
    if maxFrameBytes == 0 then DEFAULT_MAX_FRAME_BYTES else maxFrameBytes
  }

  function EncodeSize(n: nat): (h: seq<byte>)
    requires n < TWO_TO_THE_32
    ensures |h| == 4
  {
    [n / 0x100_0000, n / 0x1_0000 % 0x100, n / 0x100 % 0x100, n % 0x100]
  }

  function DecodeSize(h: seq<byte>): (n: nat)
    requires |h| == 4
    ensures n < TWO_TO_THE_32
  {
    h[0] as int * 0x100_0000 + h[1] as int * 0x1_0000 + h[2] as int * 0x100 + h[3]
  }

  /** No permitted size is truncated by the header, and no two headers mean the same size. */
  lemma SizeRoundTrip(n: nat, h: seq<byte>)
    requires n < TWO_TO_THE_32 && |h| == 4
    ensures DecodeSize(h) == n <==> h == EncodeSize(n)
  {
    assert n == (n / 0x100) * 0x100 + n % 0x100;
    assert n / 0x100 == (n / 0x1_0000) * 0x100 + n / 0x100 % 0x100;
    assert n / 0x1_0000 == (n / 0x100_0000) * 0x100 + n / 0x1_0000 % 0x100;
    if DecodeSize(h) == n {
      DigitsUnique(h[0], h[1], h[2], h[3], n);
    }
  }

  /** Most significant byte first: headers are ordered as the sizes that they announce. */
  lemma BigEndian(g: seq<byte>, h: seq<byte>, i: nat)
    requires |g| == 4 == |h| && i < 4 && g[..i] == h[..i] && g[i] < h[i]
    ensures DecodeSize(g) < DecodeSize(h)
  {
    assert forall k :: 0 <= k < i ==> g[k] == g[..i][k] == h[..i][k] == h[k];
  }

  lemma DigitsUnique(a: byte, b: byte, c: byte, d: byte, n: nat)
    requires n == a as int * 0x100_0000 + b as int * 0x1_0000 + c as int * 0x100 + d
    ensures n / 0x100_0000 == a && n / 0x1_0000 % 0x100 == b && n / 0x100 % 0x100 == c && n % 0x100 == d
  {
    assert n == (a as int * 0x1_0000 + b as int * 0x100 + c) * 0x100 + d;
    assert n / 0x100 == a as int * 0x1_0000 + b as int * 0x100 + c;
    assert n / 0x1_0000 == a as int * 0x100 + b;
  }

  function EncodeFrame(body: seq<byte>): (s: seq<byte>)
    requires |body| < TWO_TO_THE_32
    ensures |s| == 4 + |body|
  {
    EncodeSize(|body|) + body
  }

  datatype Parsed =
    | Frame(body: seq<byte>, rest: seq<byte>)
    | TooLarge(size: nat, rest: seq<byte>) // what follows the header is not looked at
    | Incomplete

  function Parse(s: seq<byte>, limit: Limit): Parsed {
    if |s| < 4 then Incomplete
    else
      var size := DecodeSize(s[..4]);
      if size > limit then TooLarge(size, s[4..])
      else if |s| < 4 + size then Incomplete
      else Frame(s[4..4 + size], s[4 + size..])
  }

  /** The parser accepts exactly what the printer produces. */
  lemma ParseInvertsEncode(s: seq<byte>, limit: Limit, body: seq<byte>, rest: seq<byte>)
    ensures Parse(s, limit) == Frame(body, rest) <==> |body| <= limit && s == EncodeFrame(body) + rest
  {
    if |body| <= limit && s == EncodeFrame(body) + rest {
      assert s[..4] == EncodeSize(|body|);
      SizeRoundTrip(|body|, s[..4]);
    }
    if Parse(s, limit) == Frame(body, rest) {
      SizeRoundTrip(|body|, s[..4]);
      assert s == s[..4] + s[4..4 + |body|] + s[4 + |body|..];
    }
  }

  ghost predicate WithinLimit(bodies: seq<seq<byte>>, limit: Limit) {
    forall i :: 0 <= i < |bodies| ==> |bodies[i]| <= limit
  }

  function EncodeAll(bodies: seq<seq<byte>>, limit: Limit): seq<byte>
    requires WithinLimit(bodies, limit)
  {
    if bodies == [] then [] else EncodeFrame(bodies[0]) + EncodeAll(bodies[1..], limit)
  }

  lemma {:induction false} EncodeAllConcat(a: seq<seq<byte>>, b: seq<seq<byte>>, limit: Limit)
    requires WithinLimit(a, limit) && WithinLimit(b, limit)
    ensures WithinLimit(a + b, limit)
    ensures EncodeAll(a + b, limit) == EncodeAll(a, limit) + EncodeAll(b, limit)
  {
    if a == [] {
      EmptyConcat(b);
    } else {
      TailOfConcat(a, b);
      EncodeAllConcat(a[1..], b, limit);
      ConcatAssociative(EncodeFrame(a[0]), EncodeAll(a[1..], limit), EncodeAll(b, limit));
    }
  }

  lemma EncodeLast(bodies: seq<seq<byte>>, last: seq<byte>, limit: Limit)
    requires WithinLimit(bodies, limit) && |last| <= limit
    ensures WithinLimit(bodies + [last], limit)
    ensures EncodeAll(bodies + [last], limit) == EncodeAll(bodies, limit) + EncodeFrame(last)
  {
    EncodeAllConcat(bodies, [last], limit);
    assert [last][1..] == [];
    EmptyConcat(EncodeFrame(last));
  }

  datatype Stream = Stream(bodies: seq<seq<byte>>, end: Parsed, rest: seq<byte>)

  /** Parses until something that is not a whole frame. */
  function ParseAll(s: seq<byte>, limit: Limit): Stream
    decreases |s|
  {
    var p := Parse(s, limit);
    if p.Frame? then
      var tail := ParseAll(p.rest, limit);
      Stream([p.body] + tail.bodies, tail.end, tail.rest)
    else Stream([], p, s)
  }

  lemma ParseAllStep(body: seq<byte>, rest: seq<byte>, limit: Limit)
    requires |body| <= limit
    ensures var tail := ParseAll(rest, limit);
            ParseAll(EncodeFrame(body) + rest, limit) == Stream([body] + tail.bodies, tail.end, tail.rest)
  {
    ParseInvertsEncode(EncodeFrame(body) + rest, limit, body, rest);
  }

  /** Reading back a list of frames gives that list and leaves what follows it. */
  lemma {:induction false} ParseAllOfEncoded(bodies: seq<seq<byte>>, tail: seq<byte>, limit: Limit)
    requires WithinLimit(bodies, limit)
    ensures var after := ParseAll(tail, limit);
            ParseAll(EncodeAll(bodies, limit) + tail, limit) == Stream(bodies + after.bodies, after.end, after.rest)
  {
    var after := ParseAll(tail, limit);
    if bodies == [] {
      assert EncodeAll(bodies, limit) + tail == tail;
      assert bodies + after.bodies == after.bodies;
    } else {
      var rest := EncodeAll(bodies[1..], limit) + tail;
      assert EncodeAll(bodies, limit) + tail == EncodeFrame(bodies[0]) + rest;
      assert [bodies[0]] + (bodies[1..] + after.bodies) == bodies + after.bodies;
      ParseAllStep(bodies[0], rest, limit);
      ParseAllOfEncoded(bodies[1..], tail, limit);
    }
  }

  lemma PrefixIncomplete(s: seq<byte>, body: seq<byte>, limit: Limit)
    requires |body| <= limit && s <= EncodeFrame(body) && |s| < 4 + |body|
    ensures Parse(s, limit).Incomplete?
  {
    if |s| >= 4 {
      assert s[..4] == EncodeSize(|body|);
      SizeRoundTrip(|body|, s[..4]);
    }
  }

  /** How many frames lie wholly before a cut. */
  function WholeBefore(bodies: seq<seq<byte>>, cut: nat): (k: nat)
    ensures k <= |bodies|
  {
    if bodies == [] || cut < 4 + |bodies[0]| then 0 else 1 + WholeBefore(bodies[1..], cut - 4 - |bodies[0]|)
  }

  /** A prefix of a concatenation ends inside its first part or behind it. */
  lemma PrefixOfConcat<T>(s: seq<T>, a: seq<T>, b: seq<T>) returns (t: seq<T>)
    requires s <= a + b
    ensures |s| < |a| ==> s <= a
    ensures |s| >= |a| ==> s == a + t && t <= b
  {
    t := if |s| < |a| then [] else s[|a|..];
  }

  lemma FirstOfTake<T>(xs: seq<T>, k: nat)
    requires 0 < k <= |xs|
    ensures xs[..k] == [xs[0]] + xs[1..][..k - 1] && xs[..k][1..] == xs[1..][..k - 1]
  {
  }

  /** A stream cut at any byte yields exactly the first frames that it holds whole, then an incomplete one. */
  lemma {:induction false} CutStream(bodies: seq<seq<byte>>, s: seq<byte>, limit: Limit)
    requires WithinLimit(bodies, limit) && s <= EncodeAll(bodies, limit)
    ensures var got := ParseAll(s, limit);
            got.bodies == bodies[..WholeBefore(bodies, |s|)] && got.end.Incomplete?
    decreases |bodies|
  {
    var k := WholeBefore(bodies, |s|);
    if bodies == [] {
      NothingToParse(s, limit);
    } else {
      var rest := PrefixOfConcat(s, EncodeFrame(bodies[0]), EncodeAll(bodies[1..], limit));
      if |s| < 4 + |bodies[0]| {
        PrefixIncomplete(s, bodies[0], limit);
        assert bodies[..k] == [];
      } else {
        CutStream(bodies[1..], rest, limit);
        ParseAllStep(bodies[0], rest, limit);
        FirstOfTake(bodies, k);
      }
    }
  }

  lemma NothingToParse(s: seq<byte>, limit: Limit)
    requires s == []
    ensures ParseAll(s, limit) == Stream([], Incomplete, [])
  {
  }

  /** Those are the frames that lie wholly before the cut. */
  lemma {:induction false} WholeBeforeCut(bodies: seq<seq<byte>>, cut: nat, limit: Limit)
    requires WithinLimit(bodies, limit)
    ensures var k := WholeBefore(bodies, cut);
            && |EncodeAll(bodies[..k], limit)| <= cut
            && (k < |bodies| ==> cut < |EncodeAll(bodies[..k + 1], limit)|)
    decreases |bodies|
  {
    if bodies == [] {
    } else {
      var k := WholeBefore(bodies, cut);
      if k == 0 {
        assert bodies[..0] == [] && bodies[..1][1..] == [];
      } else {
        WholeBeforeCut(bodies[1..], cut - 4 - |bodies[0]|, limit);
        assert bodies[..k][1..] == bodies[1..][..k - 1];
        if k < |bodies| {
          assert bodies[..k + 1][1..] == bodies[1..][..k];
        }
      }
    }
  }

  /** No encoding is a prefix of another's, and a stream has one reading only. */
  lemma UniqueReading(a: seq<seq<byte>>, b: seq<seq<byte>>, limit: Limit)
    requires WithinLimit(a, limit) && WithinLimit(b, limit)
    requires EncodeAll(a, limit) <= EncodeAll(b, limit)
    ensures a <= b
  {
    var s := EncodeAll(a, limit);
    CutStream(b, s, limit);
    ParseAllOfEncoded(a, [], limit);
    NothingToParse([], limit);
    EmptyConcat(s);
    EmptyConcat(a);
  }
}
