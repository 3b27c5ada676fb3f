/** The binary framing of chat payloads, `send_framed_message` and
    `recv_framed_message` of src/ecchat.py: a 4-byte big-endian length
    followed by that many payload octets. */
module Framing {
  import opened Wrappers
  import opened Text
  import opened Stream

  /** Lengths that fit the 4-byte header: `int.to_bytes(4, 'big')` raises
      OverflowError from 2^32 on. */
  const FrameLimit: nat := 0x1_0000_0000

  /** `int.from_bytes(b, 'big')`. */
  function FromBigEndian(b: seq<byte>): nat
    decreases |b|
  {
    if |b| == 0 then 0 else 256 * FromBigEndian(b[..|b| - 1]) + b[|b| - 1]
  }

  /** The value of four octets, most significant first. */
  lemma FromBigEndian4(b: seq<byte>)
    requires |b| == 4
    ensures FromBigEndian(b) == ((b[0] as int * 256 + b[1]) * 256 + b[2]) * 256 + b[3]
  {
    var b1, b2, b3 := b[..1], b[..2], b[..3];
    assert b1[..0] == [] && b2[..1] == b1 && b3[..2] == b2 && b[..3] == b3;
    assert FromBigEndian(b1) == b[0];
    assert FromBigEndian(b2) == 256 * (b[0] as int) + b[1];
    assert FromBigEndian(b3) == 256 * FromBigEndian(b2) + b[2];
  }

  /** `n.to_bytes(4, 'big')`: the octets of `n`, most significant first. */
  function BigEndian4(n: nat): (b: seq<byte>)
    requires n < FrameLimit
    ensures |b| == 4
  {
    var q1 := n / 256;
    var q2 := q1 / 256;
    var q3 := q2 / 256;
    [q3, q2 % 256, q1 % 256, n % 256]
  }

  /** Four octets can hold only values below the frame limit. */
  lemma FromBigEndianBound(b: seq<byte>)
    requires |b| == 4
    ensures FromBigEndian(b) < FrameLimit
  {
    FromBigEndian4(b);
  }

  /** Decoding the header recovers the length. */
  lemma BigEndianRoundTrip(n: nat)
    requires n < FrameLimit
    ensures FromBigEndian(BigEndian4(n)) == n
  {
    var b := BigEndian4(n);
    FromBigEndian4(b);
    var q1 := n / 256;
    var q2 := q1 / 256;
    var q3 := q2 / 256;
    assert n == q1 * 256 + n % 256;
    assert q1 == q2 * 256 + q1 % 256;
    assert q2 == q3 * 256 + q2 % 256;
  }

  /** Encoding a decoded header recovers the four octets. */
  lemma BigEndianOfHeader(b: seq<byte>)
    requires |b| == 4
    ensures FromBigEndian(b) < FrameLimit && BigEndian4(FromBigEndian(b)) == b
  {
    FromBigEndian4(b);
    var n := FromBigEndian(b);
    var q1 := (b[0] as int * 256 + b[1]) * 256 + b[2];
    var q2 := b[0] as int * 256 + b[1];
    assert n == q1 * 256 + b[3];
    assert n / 256 == q1 && n % 256 == b[3];
    assert q1 / 256 == q2 && q1 % 256 == b[2];
    assert q2 / 256 == b[0] && q2 % 256 == b[1];
  }

  datatype FrameError = PayloadTooLarge

  /** `send_framed_message`: the octets written to the socket. */
  function SendFramed(payload: seq<byte>): (r: Result<seq<byte>, FrameError>)
    ensures r.Ok? <==> |payload| < FrameLimit
    ensures r.Ok? ==> |r.value| == 4 + |payload|
    ensures r.Ok? ==> FromBigEndian(r.value[..4]) == |payload| && r.value[4..] == payload
  {
    if |payload| < FrameLimit then
      var header := BigEndian4(|payload|);
      BigEndianRoundTrip(|payload|);
      assert (header + payload)[..4] == header;
      Ok(header + payload)
    else Err(PayloadTooLarge)
  }

  /** `recv_framed_message`: read the header, then exactly the declared number
      of payload octets. A zero length yields the empty payload; the stream
      ending inside the header or the payload yields `Eof` (Python's `None`). */
  function RecvFramed(inp: seq<byte>): (r: Recv<seq<byte>>)
    ensures r.Got? ==> |inp| >= 4 && |r.value| == FromBigEndian(inp[..4])
    ensures r.Got? ==> inp == inp[..4] + r.value + r.rest
    ensures r.Eof? <==> |inp| < 4 || |inp| - 4 < FromBigEndian(inp[..4])
  {
    match RecvExact(inp, 4)
    case Eof => Eof
    case Got(header, rest) =>
      var length := FromBigEndian(header);
      if length == 0 then Got([], rest)
      else RecvExact(rest, length)
  }

  /** Framing round trip: what `SendFramed` wrote is read back by
      `RecvFramed`, the empty payload included, and the octets after the
      frame stay in the stream. */
  lemma FramingRoundTrip(payload: seq<byte>, rest: seq<byte>)
    requires |payload| < FrameLimit
    ensures SendFramed(payload).Ok?
    ensures RecvFramed(SendFramed(payload).value + rest) == Got(payload, rest)
  {
    var wire := SendFramed(payload).value;
    var inp := wire + rest;
    assert inp[..4] == wire[..4];
    assert inp[4..] == payload + rest;
  }

  /** A header of four zero octets is the empty frame, not an end of stream. */
  lemma EmptyFrame(rest: seq<byte>)
    ensures RecvFramed([0, 0, 0, 0] + rest) == Got([], rest)
  {
    var inp: seq<byte> := [0, 0, 0, 0] + rest;
    assert inp[..4] == [0, 0, 0, 0];
    FromBigEndian4(inp[..4]);
    assert inp[4..] == rest;
  }
}
