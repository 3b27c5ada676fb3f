/** The unencrypted chat of src/unsafe/chat.py. Its `recv_line`, `send_line`,
    `sam_hello`, `sam_dest_generate` and `sam_create_session` are the same code
    as in src/ecchat.py and are modelled once, in `Stream` and `Sam`. What
    differs is modelled here: STREAM CONNECT and STREAM ACCEPT check the
    STREAM STATUS tag and RESULT=OK as two separate steps, STREAM ACCEPT reads
    a single reply line without any polling, and `run_server`/`run_client`
    check no key files. */
module SamPlain {
  import opened Wrappers
  import opened Seqs
  import opened Text
  import opened Stream
  import opened Sam

  /** The two-step reply check of a decoded line: the tag first, then the
      result. */
  function CheckStatus(c: Conn, failed: SamError): (r: Result<seq<byte>, SamError>)
    ensures r.Ok? <==> && RecvLine(c.inbox).Got?
                       && ValidUtf8(RecvLine(c.inbox).value)
                       && Accepted(RecvLine(c.inbox).value, StreamStatus)
    ensures r.Ok? ==> r.value == RecvLine(c.inbox).rest
    ensures RecvLine(c.inbox).Eof? ==> r == Err(ConnectionClosed)
    ensures RecvLine(c.inbox).Got? && !ValidUtf8(RecvLine(c.inbox).value) ==> r == Err(NotUtf8)
    ensures (&& RecvLine(c.inbox).Got? && ValidUtf8(RecvLine(c.inbox).value)
             && !StartsWith(RecvLine(c.inbox).value, StreamStatus)) ==> r == Err(NoStreamStatus)
    ensures (&& RecvLine(c.inbox).Got? && ValidUtf8(RecvLine(c.inbox).value)
             && StartsWith(RecvLine(c.inbox).value, StreamStatus)
             && !Contains(RecvLine(c.inbox).value, ResultOk)) ==> r == Err(failed)
  {
    match RecvLine(c.inbox)
    case Eof => Err(ConnectionClosed)
    case Got(line, rest) =>
      if !ValidUtf8(line) then Err(NotUtf8)
      else if !StartsWith(line, StreamStatus) then Err(NoStreamStatus)
      else if !Contains(line, ResultOk) then Err(failed)
      else Ok(rest)
  }

  /** `sam_stream_connect` of src/unsafe/chat.py. It succeeds on exactly the
      replies the src/ecchat.py version accepts, with the same resulting
      connection; only the failure is reported differently. */
  function StreamConnect(c: Conn, token: seq<byte>, dest: seq<byte>): (r: Result<Conn, SamError>)
    ensures r.Ok? <==> Sam.StreamConnect(c, token, dest).Ok?
    ensures r.Ok? ==> r == Sam.StreamConnect(c, token, dest)
    ensures r.Err? ==> r.error in {NoStreamStatus, StreamConnectFailed, ConnectionClosed, NotUtf8}
  {
    var c1 := Send(c, StreamConnectCommand(token, dest));
    match CheckStatus(c, StreamConnectFailed)
    case Err(e) => Err(e)
    case Ok(rest) => Ok(c1.(inbox := rest))
  }

  /** `sam_stream_accept` of src/unsafe/chat.py: one blocking read of one line. */
  function StreamAccept(c: Conn, token: seq<byte>): (r: Result<Conn, SamError>)
    ensures r.Ok? <==> && RecvLine(c.inbox).Got?
                       && ValidUtf8(RecvLine(c.inbox).value)
                       && Accepted(RecvLine(c.inbox).value, StreamStatus)
    ensures r.Ok? ==> r.value.sent == c.sent + SendLine(StreamAcceptCommand(token))
    ensures r.Err? ==> r.error in {NoStreamStatus, StreamAcceptFailed, ConnectionClosed, NotUtf8}
  {
    var c1 := Send(c, StreamAcceptCommand(token));
    match CheckStatus(c, StreamAcceptFailed)
    case Err(e) => Err(e)
    case Ok(rest) => Ok(c1.(inbox := rest))
  }

  /** When the first reply line is a STREAM STATUS line and the socket is
      readable at once, the single read and the polling loop of src/ecchat.py
      reach the same decision. */
  lemma AcceptVariantsAgree(c: Conn, token: seq<byte>, closes: bool, ready: seq<bool>, ticks: nat)
    requires |ready| > 0 && ready[0] && ticks > 0
    requires RecvLine(c.inbox).Got? && StartsWith(RecvLine(c.inbox).value, StreamStatus)
    ensures StreamAccept(c, token).Ok? <==> AcceptLoop(c.inbox, closes, ready, ticks).Ok?
    ensures StreamAccept(c, token).Ok? ==>
              AcceptLoop(c.inbox, closes, ready, ticks) == Ok(StreamAccept(c, token).value.inbox)
  {
  }

  /** `run_client`: bind the session on connection 1, then hello and
      STREAM CONNECT on connection 2; no key files are consulted. */
  function RunClient(router: Router, token: seq<byte>, remote: seq<byte>): (s: Setup)
    ensures StreamAfterSession(s.log) && StopsAtFailure(s.log)
    ensures s.outcome.Ok? <==> |s.log| == 5 && s.log[4] == Step(2, StreamConnectCmd(token), true)
    ensures s.outcome.Ok? ==>
              s.outcome.value.sent == SendLine(HelloCommand) + SendLine(StreamConnectCommand(token, remote))
  {
    Attach(BindSession(router.control, router.replyHints, token), router.data,
           StreamConnectCmd(token), c => StreamConnect(c, token, remote))
  }

  /** `run_server`: bind the session on connection 1, then hello and
      STREAM ACCEPT on connection 2. */
  function RunServer(router: Router, token: seq<byte>): (s: Setup)
    ensures StreamAfterSession(s.log) && StopsAtFailure(s.log)
    ensures s.outcome.Ok? <==> |s.log| == 5 && s.log[4] == Step(2, StreamAcceptCmd(token), true)
    ensures s.outcome.Ok? ==>
              s.outcome.value.sent == SendLine(HelloCommand) + SendLine(StreamAcceptCommand(token))
  {
    Attach(BindSession(router.control, router.replyHints, token), router.data,
           StreamAcceptCmd(token), c => StreamAccept(c, token))
  }

  /** With both key files present, the encrypted client's `join_room` and the
      plain `run_client` send the same commands on the same connections and
      succeed on the same router behaviour. */
  lemma JoinRoomMatchesRunClient(router: Router, token: seq<byte>, remote: seq<byte>)
    ensures JoinRoom(router, true, true, token, remote).log == RunClient(router, token, remote).log
    ensures JoinRoom(router, true, true, token, remote).outcome.Ok? <==> RunClient(router, token, remote).outcome.Ok?
  {
  }
}
