/** A socket seen from the client: the octets the peer has still to deliver.
    Models `recv_line`, `send_line` and `recv_exact` of src/ecchat.py
    (recv_line and send_line are repeated verbatim in src/unsafe/chat.py). */
module Stream {
  import opened Text
  import opened Seqs

  /** The outcome of a blocking read: a value and what is left of the stream,
      or the end of the stream before the read could complete (Python's `None`).
      After `Eof` the stream is exhausted. */
  datatype Recv<T> = Got(value: T, rest: seq<byte>) | Eof

  /** `recv_line`: the octets up to and including the first LF. If the stream
      ends before any LF, whatever was read is lost and the result is `Eof`. */
  function RecvLine(inp: seq<byte>): (r: Recv<seq<byte>>)
    ensures r.Got? ==> inp == r.value + r.rest
    ensures r.Got? ==> |r.value| > 0 && r.value[|r.value| - 1] == LF
    ensures r.Got? ==> LF !in r.value[..|r.value| - 1]
    ensures r.Eof? <==> LF !in inp
    decreases |inp|
  {
    if |inp| == 0 then Eof
    else if inp[0] == LF then Got([LF], inp[1..])
    else
      match RecvLine(inp[1..])
      case Eof => Eof
      case Got(line, rest) =>
        assert ([inp[0]] + line)[..|line|] == [inp[0]] + line[..|line| - 1];
        Got([inp[0]] + line, rest)
  }

  /** `send_line`: the line followed by exactly one LF. */
  function SendLine(line: seq<byte>): seq<byte>
  {
    line + [LF]
  }

  /** A line sent with `SendLine` is read back whole by `RecvLine`, and the
      octets after it are left in the stream. */
  lemma {:induction false} RecvSentLine(line: seq<byte>, rest: seq<byte>)
    requires LF !in line
    ensures RecvLine(SendLine(line) + rest) == Got(SendLine(line), rest)
    decreases |line|
  {
    var inp := SendLine(line) + rest;
    if |line| == 0 {
      assert inp == [LF] + rest;
      assert inp[1..] == rest;
    } else {
      assert inp[0] == line[0] && line[0] != LF;
      assert inp[1..] == SendLine(line[1..]) + rest;
      assert LF !in line[1..];
      RecvSentLine(line[1..], rest);
      assert [line[0]] + SendLine(line[1..]) == SendLine(line);
    }
  }

  /** `RecvLine` stops at the first LF, so octets appended after a complete
      line do not change what it returns. */
  lemma {:induction false} RecvLineAppend(inp: seq<byte>, more: seq<byte>)
    requires RecvLine(inp).Got?
    ensures RecvLine(inp + more) == Got(RecvLine(inp).value, RecvLine(inp).rest + more)
    decreases |inp|
  {
    if inp[0] != LF {
      assert (inp + more)[1..] == inp[1..] + more;
      RecvLineAppend(inp[1..], more);
    } else {
      assert (inp + more)[1..] == inp[1..] + more;
    }
  }

  /** `recv_exact(n)`: exactly the next `n` octets, or `Eof` when fewer remain. */
  function RecvExact(inp: seq<byte>, n: nat): (r: Recv<seq<byte>>)
    ensures r.Got? ==> |r.value| == n && inp == r.value + r.rest
    ensures r.Eof? <==> |inp| < n
  {
    if n <= |inp| then Got(inp[..n], inp[n..]) else Eof
  }

  /** How many octets one `sock.recv(want)` hands back: at least one and at
      most `want` while data remains (`hint` is the network's choice), zero at
      the end of the stream. */
  function RecvSize(hint: nat, want: nat, available: nat): (k: nat)
    requires want > 0
    ensures available == 0 ==> k == 0
    ensures available > 0 ==> 1 <= k <= want && k <= available
  {
    if available == 0 then 0
    else if hint == 0 then 1
    else if hint > want && want <= available then want
    else if hint > available then (if want < available then want else available)
    else if hint > want then want
    else hint
  }

  /** The loop of `recv_exact`, asking for `n - len(buf)` octets at a time;
      `hints` fixes how the network splits the stream into chunks. Whatever the
      chunking, the loop returns what `RecvExact` describes. */
  method RecvExactLoop(inp: seq<byte>, n: nat, hints: seq<nat>) returns (r: Recv<seq<byte>>)
    ensures r == RecvExact(inp, n)
  {
    var buf: seq<byte> := [];
    var avail := inp;
    var k := 0;
    while |buf| < n
      invariant inp == buf + avail
      invariant |buf| <= n
      decreases n - |buf|
    {
      var want := n - |buf|;
      var got := RecvSize(if k < |hints| then hints[k] else want, want, |avail|);
      if got == 0 {
        return Eof;
      }
      buf := buf + avail[..got];
      avail := avail[got..];
      k := k + 1;
    }
    assert buf == inp[..n];
    return Got(buf, avail);
  }
}
