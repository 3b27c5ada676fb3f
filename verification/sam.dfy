/** The client side of the router's SAM v3 control protocol as src/ecchat.py
    speaks it: `sam_hello`, `sam_dest_generate`, `sam_create_session`,
    `sam_stream_connect`, the polling `sam_stream_accept`, and the order in
    which `join_room` and `create_room` issue them.

    A connection is the octets the router has still to send on it (`inbox`)
    and the octets the client has written so far (`sent`). Every reply line
    goes through a strict UTF-8 decode, which raises on malformed octets
    (`NotUtf8`). Once a reply has decoded, its tests are made on the octets:
    every tag the client looks for is ASCII and an ASCII octet never occurs
    inside a multi-octet UTF-8 sequence, so a prefix or substring test on the
    octets agrees with the same test on the decoded text. */
module Sam {
  import opened Wrappers
  import opened Text
  import opened Seqs
  import opened Stream

  const HelloCommand: seq<byte> := Ascii("HELLO VERSION MIN=3.1 MAX=3.3")
  const DestGenerateCommand: seq<byte> := Ascii("DEST GENERATE SIGNATURE_TYPE=7")
  const ResultOk: seq<byte> := Ascii("RESULT=OK")
  const HelloReplyTag: seq<byte> := Ascii("HELLO REPLY")
  /** The router's positive answer to HELLO. */
  const HelloOkReply: seq<byte> := HelloReplyTag + [Space] + ResultOk
  const SessionStatus: seq<byte> := Ascii("SESSION STATUS")
  const StreamStatus: seq<byte> := Ascii("STREAM STATUS")
  const DestReply: seq<byte> := Ascii("DEST REPLY")
  const PubField: seq<byte> := Ascii("PUB=")
  const PrivField: seq<byte> := Ascii("PRIV=")
  const DestWord: seq<byte> := Ascii("DEST")
  const ReplyWord: seq<byte> := Ascii("REPLY")
  const SessionCreatePrefix: seq<byte> := Ascii("SESSION CREATE STYLE=STREAM ID=")
  const DestinationField: seq<byte> := Ascii(" DESTINATION=")
  const SessionOptions: seq<byte> := Ascii(" i2cp.leaseSetEncType=4 SIGNATURE_TYPE=7")
  const StreamConnectPrefix: seq<byte> := Ascii("STREAM CONNECT ID=")
  const StreamAcceptPrefix: seq<byte> := Ascii("STREAM ACCEPT ID=")

  /** The separator the router puts between the words of a reply. */
  const Space: byte := 32

  /** The wait budget of `sam_stream_accept`, in one-second polling rounds. */
  const AcceptBudget: nat := 30

  /** The size `sam_dest_generate` asks `recv` for. */
  const ReplyChunk: nat := 1024

  function SessionCreateCommand(token: seq<byte>, priv: seq<byte>): seq<byte> {
    SessionCreatePrefix + token + DestinationField + priv + SessionOptions
  }

  function StreamConnectCommand(token: seq<byte>, dest: seq<byte>): seq<byte> {
    StreamConnectPrefix + token + DestinationField + dest
  }

  function StreamAcceptCommand(token: seq<byte>): seq<byte> {
    StreamAcceptPrefix + token
  }

  datatype Conn = Conn(inbox: seq<byte>, sent: seq<byte>)

  /** A destination minted by the router: public identity, private key. */
  datatype Dest = Dest(pub: seq<byte>, priv: seq<byte>)

  datatype SamError =
    | HandshakeFailed      // no reply line, or no RESULT=OK in it
    | InvalidDest          // DEST GENERATE reply without both fields
    | SessionCreateFailed
    | StreamConnectFailed
    | NoStreamStatus       // reply not tagged STREAM STATUS (src/unsafe/chat.py)
    | StreamAcceptFailed
    | AcceptTimeout
    | ConnectionClosed     // the stream ended where a reply line was due
    | NotUtf8              // a reply that is not well-formed UTF-8: `decode()` raised
    | Hangs                // the call never returns: `recv_line` waits forever

  function Send(c: Conn, line: seq<byte>): Conn {
    c.(sent := c.sent + SendLine(line))
  }

  /** A reply line accepted by a status check: it carries the expected tag at
      its start and RESULT=OK anywhere. */
  predicate Accepted(line: seq<byte>, tag: seq<byte>) {
    StartsWith(line, tag) && Contains(line, ResultOk)
  }

  // ---------------------------------------------------------------------
  // HELLO

  /** `sam_hello` on a fresh connection whose router will send `inbox`. Only
      RESULT=OK is looked for; the HELLO REPLY tag is not checked. */
  function Hello(inbox: seq<byte>): (r: Result<Conn, SamError>)
    ensures r.Ok? <==> && RecvLine(inbox).Got?
                       && ValidUtf8(RecvLine(inbox).value)
                       && Contains(RecvLine(inbox).value, ResultOk)
    ensures r.Err? ==> r.error == (if RecvLine(inbox).Got? && !ValidUtf8(RecvLine(inbox).value)
                                   then NotUtf8 else HandshakeFailed)
    ensures r.Ok? ==> r.value.sent == SendLine(HelloCommand)
    ensures r.Ok? ==> inbox == RecvLine(inbox).value + r.value.inbox
  {
    var c := Send(Conn(inbox, []), HelloCommand);
    match RecvLine(inbox)
    case Eof => Err(HandshakeFailed)
    case Got(line, rest) =>
      if !ValidUtf8(line) then Err(NotUtf8)
      else if Contains(line, ResultOk) then Ok(c.(inbox := rest))
      else Err(HandshakeFailed)
  }

  /** A needle without LF occurs in a line exactly when it occurs in the line
      without its terminator. */
  lemma ContainsInLine(text: seq<byte>, p: seq<byte>)
    requires |p| > 0 && LF !in p
    ensures Contains(text + [LF], p) <==> Contains(text, p)
  {
    if Contains(text, p) {
      ContainsExtend(text, [LF], p);
    }
    if Contains(text + [LF], p) {
      var i := ContainsWitness(text + [LF], p);
      var s := text + [LF];
      assert s[i..][..|p|] == p;
      assert s[i + |p| - 1] == p[|p| - 1] != LF;
      assert i + |p| <= |text|;
      assert text[i..][..|p|] == p;
      ContainsAt(text, p, i);
    }
  }

  /** RESULT=OK holds no line terminator. */
  lemma ResultOkOneLine()
    ensures |ResultOk| == 9 && LF !in ResultOk && AsciiOctets(ResultOk)
  {
    assert forall i :: 0 <= i < |ResultOk| ==> ResultOk[i] != LF && ResultOk[i] < 128;
  }

  /** The handshake accepts a reply line exactly when the line decodes and
      holds RESULT=OK, and then consumes just that line. */
  lemma HelloReply(reply: seq<byte>, rest: seq<byte>)
    requires LF !in reply
    ensures Hello(SendLine(reply) + rest).Ok? <==> ValidUtf8(reply) && Contains(reply, ResultOk)
    ensures Hello(SendLine(reply) + rest).Ok? ==> Hello(SendLine(reply) + rest).value.inbox == rest
  {
    RecvSentLine(reply, rest);
    ResultOkOneLine();
    ContainsInLine(reply, ResultOk);
    Utf8DropAscii(reply, LF);
  }

  /** No reply at all is a failed handshake. */
  lemma HelloSilent()
    ensures Hello([]) == Err(HandshakeFailed)
  {
  }

  /** The router's positive answer passes the handshake. */
  lemma HelloOk(rest: seq<byte>)
    ensures Hello(SendLine(HelloOkReply) + rest).Ok?
  {
    var head := HelloReplyTag + [Space];
    assert HelloOkReply == head + ResultOk;
    assert LF !in head && AsciiOctets(head) by {
      assert forall i :: 0 <= i < |HelloReplyTag| ==> HelloReplyTag[i] != LF && HelloReplyTag[i] < 128;
    }
    ResultOkOneLine();
    assert ValidUtf8(HelloOkReply) by {
      AsciiIsUtf8(head);
      AsciiIsUtf8(ResultOk);
      Utf8Concat(head, ResultOk);
    }
    assert HelloOkReply[12..][..9] == ResultOk;
    ContainsAt(HelloOkReply, ResultOk, 12);
    HelloReply(HelloOkReply, rest);
  }

  // ---------------------------------------------------------------------
  // DEST GENERATE

  /** The read loop of `sam_dest_generate`: `recv(1024)` chunks are appended
      until the accumulated reply holds an LF or the stream ends. `hints` fixes
      how the network splits the stream, so whatever follows the LF in the same
      chunk is read too. */
  function ReadReply(inbox: seq<byte>, acc: seq<byte>, hints: seq<nat>): (r: (seq<byte>, seq<byte>))
    ensures acc + inbox == r.0 + r.1
    ensures |r.1| > 0 ==> LF in r.0
    decreases |inbox|
  {
    if |inbox| == 0 then (acc, [])
    else
      var k := RecvSize(if |hints| > 0 then hints[0] else ReplyChunk, ReplyChunk, |inbox|);
      var acc' := acc + inbox[..k];
      assert acc + inbox == acc' + inbox[k..];
      if LF in acc' then (acc', inbox[k..])
      else ReadReply(inbox[k..], acc', if |hints| > 0 then hints[1..] else [])
  }

  /** When the router sends exactly one line, the loop reads exactly that line,
      however the network splits it. */
  lemma {:induction false} ReadReplyOneLine(acc: seq<byte>, inbox: seq<byte>, hints: seq<nat>)
    requires |inbox| > 0 && inbox[|inbox| - 1] == LF
    requires LF !in acc && LF !in inbox[..|inbox| - 1]
    ensures ReadReply(inbox, acc, hints) == (acc + inbox, [])
    decreases |inbox|
  {
    var k := RecvSize(if |hints| > 0 then hints[0] else ReplyChunk, ReplyChunk, |inbox|);
    var acc' := acc + inbox[..k];
    if k < |inbox| {
      SplitLineBody(inbox, k);
      assert LF !in acc';
      ReadReplyOneLine(acc', inbox[k..], if |hints| > 0 then hints[1..] else []);
      assert acc' + inbox[k..] == acc + inbox;
    } else {
      assert inbox[..k] == inbox;
      assert acc'[|acc'| - 1] == LF;
    }
  }

  /** Cutting a line ahead of its LF leaves the LF-free head and a shorter
      line. */
  lemma SplitLineBody(inbox: seq<byte>, k: nat)
    requires 0 < k < |inbox| && LF !in inbox[..|inbox| - 1]
    ensures LF !in inbox[..k] && LF !in inbox[k..][..|inbox[k..]| - 1]
  {
    var body := inbox[..|inbox| - 1];
    assert inbox[..k] == body[..k] && inbox[k..][..|inbox[k..]| - 1] == body[k..];
    assert body == body[..k] + body[k..];
  }

  /** The tokens of the reply lines tagged DEST REPLY, in order. */
  function ReplyTokens(lines: seq<seq<byte>>): seq<seq<byte>>
    decreases |lines|
  {
    if |lines| == 0 then []
    else
      (if StartsWith(lines[0], DestReply) then Words(lines[0], TextSpaces) else [])
        + ReplyTokens(lines[1..])
  }

  /** The token loop of `sam_dest_generate`: a PUB= token sets the public
      value, otherwise a PRIV= token sets the private one; a later token
      overrides an earlier one. The value is what follows the first `=`. */
  function ScanFields(tokens: seq<seq<byte>>, pub: Option<seq<byte>>, priv: Option<seq<byte>>)
    : (Option<seq<byte>>, Option<seq<byte>>)
    decreases |tokens|
  {
    if |tokens| == 0 then (pub, priv)
    else
      var t := tokens[0];
      if StartsWith(t, PubField) then ScanFields(tokens[1..], Some(t[|PubField|..]), priv)
      else if StartsWith(t, PrivField) then ScanFields(tokens[1..], pub, Some(t[|PrivField|..]))
      else ScanFields(tokens[1..], pub, priv)
  }

  /** Reference reading of a field: the value carried by the LAST token that
      starts with `field`. */
  function LastField(tokens: seq<seq<byte>>, field: seq<byte>): Option<seq<byte>>
    decreases |tokens|
  {
    if |tokens| == 0 then None
    else
      var t := tokens[|tokens| - 1];
      if StartsWith(t, field) then Some(t[|field|..]) else LastField(tokens[..|tokens| - 1], field)
  }

  /** The two field prefixes exclude each other, so the `elif` never hides a
      PRIV= token. */
  lemma FieldsDisjoint(t: seq<byte>)
    ensures !(StartsWith(t, PubField) && StartsWith(t, PrivField))
  {
    if StartsWith(t, PubField) {
      assert t[1] == PubField[1] == 'U' as int;
      assert PrivField[1] == 'R' as int;
    }
  }

  /** The left-to-right token loop keeps, for each field, the last token that
      carries it, falling back to the value held before the loop. */
  lemma {:induction false} ScanIsLast(tokens: seq<seq<byte>>, pub: Option<seq<byte>>, priv: Option<seq<byte>>)
    ensures ScanFields(tokens, pub, priv)
         == (OrElse(LastField(tokens, PubField), pub), OrElse(LastField(tokens, PrivField), priv))
    decreases |tokens|
  {
    if |tokens| > 0 {
      var t := tokens[0];
      var tail := tokens[1..];
      FieldsDisjoint(t);
      var pub' := if StartsWith(t, PubField) then Some(t[|PubField|..]) else pub;
      var priv' := if StartsWith(t, PrivField) then Some(t[|PrivField|..]) else priv;
      assert tokens == [t] + tail;
      assert ScanFields(tokens, pub, priv) == ScanFields(tail, pub', priv');
      ScanIsLast(tail, pub', priv');
      LastFieldCons(t, tail, PubField);
      LastFieldCons(t, tail, PrivField);
    }
  }

  /** `LastField` of a token list with one more token in front. */
  lemma {:induction false} LastFieldCons(t: seq<byte>, tail: seq<seq<byte>>, field: seq<byte>)
    ensures LastField([t] + tail, field)
         == OrElse(LastField(tail, field), if StartsWith(t, field) then Some(t[|field|..]) else None)
    decreases |tail|
  {
    var all := [t] + tail;
    if |tail| > 0 {
      assert all[|all| - 1] == tail[|tail| - 1];
      assert all[..|all| - 1] == [t] + tail[..|tail| - 1];
      LastFieldCons(t, tail[..|tail| - 1], field);
    } else {
      assert all[..0] == [];
    }
  }

  /** The tokens `sam_dest_generate` inspects in a decoded reply. */
  function DestTokens(resp: seq<byte>): seq<seq<byte>> {
    ReplyTokens(SplitOn(Strip(resp, TextSpaces), LF))
  }

  /** The parsing half of `sam_dest_generate`: the whole reply must decode,
      and success needs a non-empty public and a non-empty private value, each
      the last one seen. */
  function ParseDest(resp: seq<byte>): (r: Result<Dest, SamError>)
    ensures var pub := LastField(DestTokens(resp), PubField);
            var priv := LastField(DestTokens(resp), PrivField);
            r.Ok? <==> ValidUtf8(resp) && pub.Some? && |pub.value| > 0 && priv.Some? && |priv.value| > 0
    ensures r.Ok? ==> r.value == Dest(LastField(DestTokens(resp), PubField).value,
                                      LastField(DestTokens(resp), PrivField).value)
    ensures r.Err? ==> r.error == (if ValidUtf8(resp) then InvalidDest else NotUtf8)
  {
    if !ValidUtf8(resp) then Err(NotUtf8)
    else
      var tokens := DestTokens(resp);
      var fields := ScanFields(tokens, None, None);
      ScanIsLast(tokens, None, None);
      var (pub, priv) := (fields.0, fields.1);
      if pub.None? || |pub.value| == 0 || priv.None? || |priv.value| == 0 then Err(InvalidDest)
      else Ok(Dest(pub.value, priv.value))
  }

  /** `sam_dest_generate`: send the command, read the reply, parse it. */
  function DestGenerate(c: Conn, hints: seq<nat>): (r: Result<(Conn, Dest), SamError>)
    ensures r.Ok? ==> r.value.0.sent == c.sent + SendLine(DestGenerateCommand)
    ensures r.Ok? ==> |r.value.1.pub| > 0 && |r.value.1.priv| > 0
    ensures r.Ok? <==> ParseDest(ReadReply(c.inbox, [], hints).0).Ok?
    ensures r.Err? ==> r.error in {InvalidDest, NotUtf8}
  {
    var c1 := Send(c, DestGenerateCommand);
    var (resp, rest) := ReadReply(c.inbox, [], hints);
    match ParseDest(resp)
    case Err(e) => Err(e)
    case Ok(d) => Ok((c1.(inbox := rest), d))
  }

  // ---------------------------------------------------------------------
  // Parsing a well-formed DEST REPLY

  /** A field value as the router writes it: non-empty ASCII without
      whitespace (the router's values are base 64). */
  predicate IsFieldValue(v: seq<byte>) {
    |v| > 0 && forall j :: 0 <= j < |v| ==> v[j] < 128 && v[j] !in TextSpaces
  }

  function DestReplyWords(pub: seq<byte>, priv: seq<byte>): seq<seq<byte>> {
    [DestWord, ReplyWord, PubField + pub, PrivField + priv]
  }

  /** `DEST REPLY PUB=<pub> PRIV=<priv>` */
  function DestReplyLine(pub: seq<byte>, priv: seq<byte>): seq<byte> {
    JoinWith(DestReplyWords(pub, priv), Space)
  }

  lemma DestReplyWordsShape(pub: seq<byte>, priv: seq<byte>)
    requires IsFieldValue(pub) && IsFieldValue(priv)
    ensures var w := DestReplyWords(pub, priv);
            forall i, j :: 0 <= i < |w| && 0 <= j < |w[i]| ==> w[i][j] < 128 && w[i][j] !in TextSpaces
    ensures forall i :: 0 <= i < |DestReplyWords(pub, priv)| ==> |DestReplyWords(pub, priv)[i]| > 0
  {
    var w := DestReplyWords(pub, priv);
    forall i, j | 0 <= i < |w| && 0 <= j < |w[i]|
      ensures w[i][j] < 128 && w[i][j] !in TextSpaces
    {
      if i == 2 && j >= |PubField| {
        assert w[i][j] == pub[j - |PubField|];
      } else if i == 3 && j >= |PrivField| {
        assert w[i][j] == priv[j - |PrivField|];
      }
    }
  }

  /** `Strip` leaves a line alone when it neither starts nor ends with
      whitespace, and drops a trailing run of whitespace. */
  lemma StripTrailing(s: seq<byte>, t: seq<byte>)
    requires |s| > 0 && s[0] !in TextSpaces && s[|s| - 1] !in TextSpaces
    requires forall k :: 0 <= k < |t| ==> t[k] in TextSpaces
    ensures Strip(s + t, TextSpaces) == s
  {
    var i, j := StripSlice(s + t, TextSpaces);
    assert (s + t)[0] !in TextSpaces;
    assert i == 0;
    assert (s + t)[|s| - 1] !in TextSpaces;
    assert j >= |s|;
    assert forall k :: |s| <= k < |s + t| ==> (s + t)[k] == t[k - |s|];
    assert j == |s|;
    assert (s + t)[0..|s|] == s;
  }

  /** Non-empty ASCII words free of whitespace. */
  ghost predicate PlainWords(words: seq<seq<byte>>) {
    && (forall i :: 0 <= i < |words| ==> |words[i]| > 0)
    && (forall i, j :: 0 <= i < |words| && 0 <= j < |words[i]| ==>
          words[i][j] < 128 && words[i][j] !in TextSpaces)
  }

  /** The first and last octets of joined words are those of the first and
      last word. */
  lemma {:induction false} JoinEnds(words: seq<seq<byte>>)
    requires |words| > 0 && PlainWords(words)
    ensures |JoinWith(words, Space)| > 0
    ensures JoinWith(words, Space)[0] == words[0][0]
    ensures JoinWith(words, Space)[|JoinWith(words, Space)| - 1] == words[|words| - 1][|words[|words| - 1]| - 1]
    decreases |words|
  {
    if |words| > 1 {
      var tail := words[1..];
      assert PlainWords(tail) by {
        assert forall i :: 0 <= i < |tail| ==> tail[i] == words[i + 1];
      }
      JoinEnds(tail);
    }
  }

  /** No word holds an LF or a non-ASCII octet, so neither does the line. */
  lemma {:induction false} JoinNoLF(words: seq<seq<byte>>)
    requires PlainWords(words)
    ensures LF !in JoinWith(words, Space)
    ensures AsciiOctets(JoinWith(words, Space))
    decreases |words|
  {
    if |words| > 0 {
      assert LF !in words[0] by {
        assert forall j :: 0 <= j < |words[0]| ==> words[0][j] != LF;
      }
    }
    if |words| > 1 {
      var tail := words[1..];
      assert PlainWords(tail) by {
        assert forall i :: 0 <= i < |tail| ==> tail[i] == words[i + 1];
      }
      JoinNoLF(tail);
      var line := JoinWith(words, Space);
      assert line == words[0] + [Space] + JoinWith(tail, Space);
      forall k | 0 <= k < |line|
        ensures line[k] < 128
      {
        if k > |words[0]| {
          assert line[k] == JoinWith(tail, Space)[k - |words[0]| - 1];
        }
      }
    }
  }

  /** The line of words `DEST REPLY ...` starts with the reply tag. */
  lemma DestLineTag(words: seq<seq<byte>>)
    requires |words| >= 2 && words[0] == DestWord && words[1] == ReplyWord
    ensures StartsWith(JoinWith(words, Space), DestReply)
  {
    var line := JoinWith(words, Space);
    var tail := words[1..];
    assert line == words[0] + [Space] + JoinWith(tail, Space);
    assert JoinWith(tail, Space)[..5] == ReplyWord by {
      if |tail| > 1 {
        assert JoinWith(tail, Space) == tail[0] + [Space] + JoinWith(tail[1..], Space);
      }
    }
    assert line[..|DestReply|] == DestReply;
  }

  /** The terminator is stripped from a line that neither starts nor ends
      with whitespace. */
  lemma StripSentLine(line: seq<byte>)
    requires |line| > 0 && line[0] !in TextSpaces && line[|line| - 1] !in TextSpaces
    ensures Strip(SendLine(line), TextSpaces) == line
  {
    assert LF in TextSpaces;
    StripTrailing(line, [LF]);
  }

  /** Sent as one line, words come back as one stripped line. */
  lemma SentWordsLine(words: seq<seq<byte>>)
    requires |words| > 0 && PlainWords(words)
    ensures SplitOn(Strip(SendLine(JoinWith(words, Space)), TextSpaces), LF) == [JoinWith(words, Space)]
  {
    var line: seq<byte> := JoinWith(words, Space);
    JoinEnds(words);
    var first, last := words[0], words[|words| - 1];
    assert first[0] !in TextSpaces && last[|last| - 1] !in TextSpaces;
    StripSentLine(line);
    assert SplitOn(line, LF) == [line] by {
      JoinNoLF(words);
      SplitJoin([line], LF);
    }
  }

  /** A single reply line `DEST REPLY w2 w3 ...` yields its words as tokens. */
  lemma DestTokensOfLine(words: seq<seq<byte>>)
    requires |words| >= 2 && words[0] == DestWord && words[1] == ReplyWord
    requires PlainWords(words)
    ensures DestTokens(SendLine(JoinWith(words, Space))) == words
  {
    var line: seq<byte> := JoinWith(words, Space);
    DestLineTag(words);
    SentWordsLine(words);
    WordsJoin(words, Space, TextSpaces);
    assert ReplyTokens([line]) == words by {
      assert [line][1..] == [];
    }
  }

  /** A line of plain words, sent, decodes. */
  lemma LineDecodes(words: seq<seq<byte>>)
    requires PlainWords(words)
    ensures ValidUtf8(SendLine(JoinWith(words, Space)))
  {
    JoinNoLF(words);
    var line := SendLine(JoinWith(words, Space));
    assert AsciiOctets(line);
    AsciiIsUtf8(line);
  }

  /** A well-formed one-line DEST REPLY parses to the values it carries. */
  lemma ParseWellFormedReply(pub: seq<byte>, priv: seq<byte>)
    requires IsFieldValue(pub) && IsFieldValue(priv)
    ensures ParseDest(SendLine(DestReplyLine(pub, priv))) == Ok(Dest(pub, priv))
  {
    var words := DestReplyWords(pub, priv);
    DestReplyWordsShape(pub, priv);
    DestTokensOfLine(words);
    LineDecodes(words);
    assert words[2][..|PubField|] == PubField && words[2][|PubField|..] == pub;
    assert words[3][..|PrivField|] == PrivField && words[3][|PrivField|..] == priv;
    FieldsDisjoint(words[2]);
    FieldsDisjoint(words[3]);
    assert words[..3][2] == words[2];
    assert LastField(words, PubField) == Some(pub);
    assert LastField(words, PrivField) == Some(priv);
  }

  /** A DEST REPLY that lacks the private field is rejected. */
  lemma ParseReplyWithoutPriv(pub: seq<byte>)
    requires IsFieldValue(pub)
    ensures var words: seq<seq<byte>> := [DestWord, ReplyWord, PubField + pub];
            ParseDest(SendLine(JoinWith(words, Space))) == Err(InvalidDest)
  {
    var words: seq<seq<byte>> := [DestWord, ReplyWord, PubField + pub];
    forall i, j | 0 <= i < |words| && 0 <= j < |words[i]|
      ensures words[i][j] < 128 && words[i][j] !in TextSpaces
    {
      if i == 2 && j >= |PubField| {
        assert words[i][j] == pub[j - |PubField|];
      }
    }
    DestTokensOfLine(words);
    LineDecodes(words);
    assert words[2][..|PubField|] == PubField;
    FieldsDisjoint(words[2]);
    assert !StartsWith(words[0], PrivField) by { assert words[0][0] == 'D' as int; }
    assert !StartsWith(words[1], PrivField) by { assert words[1][0] == 'R' as int; }
    var w2 := words[..2];
    var w1 := w2[..1];
    assert words[..2] == w2 && w2[..1] == w1 && |w1[..0]| == 0;
    assert w2[1] == words[1] && w1[0] == words[0];
    assert LastField(w1, PrivField) == None;
    assert LastField(w2, PrivField) == None;
    assert LastField(words, PrivField) == None;
  }

  // ---------------------------------------------------------------------
  // SESSION CREATE and STREAM CONNECT

  /** `sam_create_session`. A reply line missing at the end of the stream
      fails too (in Python `None.startswith` raises). */
  function CreateSession(c: Conn, token: seq<byte>, priv: seq<byte>): (r: Result<Conn, SamError>)
    ensures r.Ok? <==> && RecvLine(c.inbox).Got?
                       && ValidUtf8(RecvLine(c.inbox).value)
                       && Accepted(RecvLine(c.inbox).value, SessionStatus)
    ensures r.Ok? ==> r.value.sent == c.sent + SendLine(SessionCreateCommand(token, priv))
    ensures r.Ok? ==> c.inbox == RecvLine(c.inbox).value + r.value.inbox
    ensures r.Err? ==> r.error in {SessionCreateFailed, ConnectionClosed, NotUtf8}
  {
    var c1 := Send(c, SessionCreateCommand(token, priv));
    match RecvLine(c.inbox)
    case Eof => Err(ConnectionClosed)
    case Got(line, rest) =>
      if !ValidUtf8(line) then Err(NotUtf8)
      else if Accepted(line, SessionStatus) then Ok(c1.(inbox := rest))
      else Err(SessionCreateFailed)
  }

  /** `sam_stream_connect` (src/ecchat.py): one combined check of tag and result. */
  function StreamConnect(c: Conn, token: seq<byte>, dest: seq<byte>): (r: Result<Conn, SamError>)
    ensures r.Ok? <==> && RecvLine(c.inbox).Got?
                       && ValidUtf8(RecvLine(c.inbox).value)
                       && Accepted(RecvLine(c.inbox).value, StreamStatus)
    ensures r.Ok? ==> r.value.sent == c.sent + SendLine(StreamConnectCommand(token, dest))
    ensures r.Ok? ==> c.inbox == RecvLine(c.inbox).value + r.value.inbox
    ensures r.Err? ==> r.error in {StreamConnectFailed, ConnectionClosed, NotUtf8}
  {
    var c1 := Send(c, StreamConnectCommand(token, dest));
    match RecvLine(c.inbox)
    case Eof => Err(ConnectionClosed)
    case Got(line, rest) =>
      if !ValidUtf8(line) then Err(NotUtf8)
      else if Accepted(line, StreamStatus) then Ok(c1.(inbox := rest))
      else Err(StreamConnectFailed)
  }

  /** The terminator does not change whether a line starts with a tag that
      holds no LF. */
  lemma StartsWithLine(reply: seq<byte>, tag: seq<byte>)
    requires LF !in tag
    ensures StartsWith(SendLine(reply), tag) <==> StartsWith(reply, tag)
  {
    var line := SendLine(reply);
    if StartsWith(line, tag) {
      assert line[|reply|] == LF;
      assert forall k :: 0 <= k < |tag| ==> tag[k] == line[k];
      assert |tag| <= |reply|;
      assert reply[..|tag|] == line[..|tag|];
    }
    if StartsWith(reply, tag) {
      assert line[..|tag|] == reply[..|tag|];
    }
  }

  /** A reply line decodes and passes a status check exactly when the line
      without its terminator decodes, starts with the tag and holds RESULT=OK. */
  lemma StatusReply(reply: seq<byte>, tag: seq<byte>, rest: seq<byte>)
    requires LF !in reply && LF !in tag
    ensures RecvLine(SendLine(reply) + rest) == Got(SendLine(reply), rest)
    ensures ValidUtf8(SendLine(reply)) <==> ValidUtf8(reply)
    ensures Accepted(SendLine(reply), tag) <==> StartsWith(reply, tag) && Contains(reply, ResultOk)
  {
    Utf8DropAscii(reply, LF);
    RecvSentLine(reply, rest);
    ResultOkOneLine();
    ContainsInLine(reply, ResultOk);
    StartsWithLine(reply, tag);
  }

  // ---------------------------------------------------------------------
  // STREAM ACCEPT with a bounded wait

  /** The polling loop of `sam_stream_accept`. `ticks` counts the seconds left
      on the clock; `ready[k]` says whether `select` found the socket readable
      in round k (rounds past the end of `ready` are idle); `closes` says
      whether the router closes the connection once `inbox` is sent.

      An idle round waits out the one-second `select` and costs a tick. So
      does a round with nothing to read on an open connection, which `select`
      cannot report readable, and a round at the closed end of the stream,
      which `select` reports readable at once, round after round, until the
      clock runs out. A readable round that completes a line takes no time: a
      line that does not decode raises, STREAM STATUS with RESULT=OK ends the
      wait successfully, STREAM STATUS without it fails, and any other line is
      ignored. A readable round that finds only part of a line on a connection
      the router keeps open never returns: the socket has no timeout, so
      `recv_line` waits for the rest whatever the budget. On success the
      result is what is left of the stream. */
  function AcceptLoop(inbox: seq<byte>, closes: bool, ready: seq<bool>, ticks: nat)
    : (r: Result<seq<byte>, SamError>)
    ensures ticks == 0 ==> r == Err(AcceptTimeout)
    ensures r.Err? ==> r.error in {AcceptTimeout, StreamAcceptFailed, NotUtf8, Hangs}
    ensures r == Err(Hangs) ==> !closes
    ensures r.Ok? ==> |r.value| < |inbox|
    decreases ticks, |inbox|
  {
    if ticks == 0 then Err(AcceptTimeout)
    else
      var next := if |ready| == 0 then [] else ready[1..];
      if |ready| == 0 || !ready[0] || (|inbox| == 0 && !closes) then
        AcceptLoop(inbox, closes, next, ticks - 1)
      else
        match RecvLine(inbox)
        case Eof => if closes then AcceptLoop([], closes, next, ticks - 1) else Err(Hangs)
        case Got(line, rest) =>
          if !ValidUtf8(line) then Err(NotUtf8)
          else if StartsWith(line, StreamStatus) then
            if Contains(line, ResultOk) then Ok(rest) else Err(StreamAcceptFailed)
          else AcceptLoop(rest, closes, next, ticks)
  }

  /** The loop as its `except socket.timeout` branch and its 30-second
      timeout message say it was meant to behave: reads on the data socket
      time out, so a round that cannot complete a line costs a tick and drops
      the octets it took, whether or not the router keeps the connection
      open. */
  function AcceptLoopBounded(inbox: seq<byte>, closes: bool, ready: seq<bool>, ticks: nat)
    : (r: Result<seq<byte>, SamError>)
    ensures ticks == 0 ==> r == Err(AcceptTimeout)
    ensures r.Err? ==> r.error in {AcceptTimeout, StreamAcceptFailed, NotUtf8}
    ensures r.Ok? ==> |r.value| < |inbox|
    decreases ticks, |inbox|
  {
    if ticks == 0 then Err(AcceptTimeout)
    else
      var next := if |ready| == 0 then [] else ready[1..];
      if |ready| == 0 || !ready[0] || (|inbox| == 0 && !closes) then
        AcceptLoopBounded(inbox, closes, next, ticks - 1)
      else
        match RecvLine(inbox)
        case Eof => AcceptLoopBounded([], closes, next, ticks - 1)
        case Got(line, rest) =>
          if !ValidUtf8(line) then Err(NotUtf8)
          else if StartsWith(line, StreamStatus) then
            if Contains(line, ResultOk) then Ok(rest) else Err(StreamAcceptFailed)
          else AcceptLoopBounded(rest, closes, next, ticks)
  }

  /** Wherever the loop as written returns at all, the bounded loop returns
      the same outcome: the two differ only where the loop as written hangs. */
  lemma {:induction false} AcceptBoundedAgrees(inbox: seq<byte>, closes: bool, ready: seq<bool>, ticks: nat)
    requires AcceptLoop(inbox, closes, ready, ticks) != Err(Hangs)
    ensures AcceptLoopBounded(inbox, closes, ready, ticks) == AcceptLoop(inbox, closes, ready, ticks)
    decreases ticks, |inbox|
  {
    if ticks > 0 {
      var next := if |ready| == 0 then [] else ready[1..];
      if |ready| == 0 || !ready[0] || (|inbox| == 0 && !closes) {
        AcceptBoundedAgrees(inbox, closes, next, ticks - 1);
      } else {
        match RecvLine(inbox)
        case Eof =>
          AcceptBoundedAgrees([], closes, next, ticks - 1);
        case Got(line, rest) =>
          if ValidUtf8(line) && !StartsWith(line, StreamStatus) {
            AcceptBoundedAgrees(rest, closes, next, ticks);
          }
      }
    }
  }

  /** With a read timeout, a stream with no complete line can only time out. */
  lemma {:induction false} BoundedWithoutLine(inbox: seq<byte>, closes: bool, ready: seq<bool>, ticks: nat)
    requires LF !in inbox
    ensures AcceptLoopBounded(inbox, closes, ready, ticks) == Err(AcceptTimeout)
    decreases ticks, |inbox|
  {
    if ticks > 0 {
      var next := if |ready| == 0 then [] else ready[1..];
      if |ready| == 0 || !ready[0] || (|inbox| == 0 && !closes) {
        BoundedWithoutLine(inbox, closes, next, ticks - 1);
      } else {
        BoundedWithoutLine([], closes, next, ticks - 1);
      }
    }
  }

  /** A stream that the router closes, or leaves open with nothing pending,
      without completing a line times out. */
  lemma AcceptWithoutLine(inbox: seq<byte>, closes: bool, ready: seq<bool>, ticks: nat)
    requires LF !in inbox && (closes || |inbox| == 0)
    ensures AcceptLoop(inbox, closes, ready, ticks) == Err(AcceptTimeout)
  {
    if AcceptLoop(inbox, closes, ready, ticks) != Err(Hangs) {
      AcceptBoundedAgrees(inbox, closes, ready, ticks);
      BoundedWithoutLine(inbox, closes, ready, ticks);
    } else {
      OpenEmptyNeverHangs(ready, ticks);
    }
  }

  /** With nothing pending on an open connection every round is idle. */
  lemma {:induction false} OpenEmptyNeverHangs(ready: seq<bool>, ticks: nat)
    ensures AcceptLoop([], false, ready, ticks) == Err(AcceptTimeout)
    decreases ticks
  {
    if ticks > 0 {
      OpenEmptyNeverHangs(if |ready| == 0 then [] else ready[1..], ticks - 1);
    }
  }

  /** The wait the source promises is not bounded: part of a status line on a
      connection the router keeps open stops the loop for good, whatever
      budget is left, where the bounded loop times out. */
  lemma AcceptHangs(inbox: seq<byte>, ready: seq<bool>, ticks: nat)
    requires |inbox| > 0 && LF !in inbox
    requires |ready| > 0 && ready[0] && ticks > 0
    ensures AcceptLoop(inbox, false, ready, ticks) == Err(Hangs)
    ensures AcceptLoopBounded(inbox, false, ready, ticks) == Err(AcceptTimeout)
  {
    BoundedWithoutLine(inbox, false, ready, ticks);
  }

  /** The number of complete lines in a stream. */
  function LineCount(inbox: seq<byte>): nat
    decreases |inbox|
  {
    match RecvLine(inbox)
    case Eof => 0
    case Got(_, rest) => 1 + LineCount(rest)
  }

  /** Reference reading of the accept reply, with no clock: the lines of the
      stream in order, each decoded, up to the first one tagged STREAM STATUS,
      which decides. Without such a line the wait runs out, unless a partial
      line is left pending on an open connection. */
  function AcceptVerdict(inbox: seq<byte>, closes: bool): Result<seq<byte>, SamError>
    decreases |inbox|
  {
    match RecvLine(inbox)
    case Eof => if closes || |inbox| == 0 then Err(AcceptTimeout) else Err(Hangs)
    case Got(line, rest) =>
      if !ValidUtf8(line) then Err(NotUtf8)
      else if StartsWith(line, StreamStatus) then
        if Contains(line, ResultOk) then Ok(rest) else Err(StreamAcceptFailed)
      else AcceptVerdict(rest, closes)
  }

  /** When the socket is readable in a round per line and one more, and the
      clock has not run out, the loop decides as the reference reading says:
      the lines ahead of the status line cost no time. */
  lemma {:induction false} AcceptAllReady(inbox: seq<byte>, closes: bool, ready: seq<bool>, ticks: nat)
    requires forall k :: 0 <= k < |ready| ==> ready[k]
    requires |ready| > LineCount(inbox) && ticks > 0
    ensures AcceptLoop(inbox, closes, ready, ticks) == AcceptVerdict(inbox, closes)
    decreases |inbox|
  {
    var next := ready[1..];
    match RecvLine(inbox)
    case Eof =>
      if closes {
        AcceptWithoutLine([], true, next, ticks - 1);
      } else if |inbox| == 0 {
        OpenEmptyNeverHangs(next, ticks - 1);
      }
    case Got(line, rest) =>
      if ValidUtf8(line) && !StartsWith(line, StreamStatus) {
        assert AcceptLoop(inbox, closes, ready, ticks) == AcceptLoop(rest, closes, next, ticks);
        AcceptAllReady(rest, closes, next, ticks);
      }
  }

  /** Waiting longer never changes a decision reached within the budget. */
  lemma {:induction false} AcceptMonotone(inbox: seq<byte>, closes: bool, ready: seq<bool>, ticks: nat, more: nat)
    requires AcceptLoop(inbox, closes, ready, ticks) != Err(AcceptTimeout)
    ensures AcceptLoop(inbox, closes, ready, ticks + more) == AcceptLoop(inbox, closes, ready, ticks)
    decreases ticks, |inbox|
  {
    var next := if |ready| == 0 then [] else ready[1..];
    if |ready| == 0 || !ready[0] || (|inbox| == 0 && !closes) {
      AcceptMonotone(inbox, closes, next, ticks - 1, more);
    } else {
      match RecvLine(inbox)
      case Eof =>
        if closes {
          AcceptMonotone([], closes, next, ticks - 1, more);
        }
      case Got(line, rest) =>
        if ValidUtf8(line) && !StartsWith(line, StreamStatus) {
          AcceptMonotone(rest, closes, next, ticks, more);
        }
    }
  }

  /** `sam_stream_accept` with the default 30-second budget. */
  function StreamAccept(c: Conn, token: seq<byte>, ready: seq<bool>, closes: bool): (r: Result<Conn, SamError>)
    ensures r.Ok? ==> r.value.sent == c.sent + SendLine(StreamAcceptCommand(token))
    ensures r.Ok? ==> |r.value.inbox| < |c.inbox|
    ensures r.Err? ==> r.error in {AcceptTimeout, StreamAcceptFailed, NotUtf8, Hangs}
    ensures (forall k :: 0 <= k < |ready| ==> !ready[k]) ==> r == Err(AcceptTimeout)
  {
    var c1 := Send(c, StreamAcceptCommand(token));
    assert (forall k :: 0 <= k < |ready| ==> !ready[k]) ==>
             AcceptLoop(c.inbox, closes, ready, AcceptBudget) == Err(AcceptTimeout) by {
      if forall k :: 0 <= k < |ready| ==> !ready[k] {
        AcceptIdle(c.inbox, closes, ready, AcceptBudget);
      }
    }
    match AcceptLoop(c.inbox, closes, ready, AcceptBudget)
    case Err(e) => Err(e)
    case Ok(rest) => Ok(c1.(inbox := rest))
  }

  /** With no readable round the wait runs out. */
  lemma {:induction false} AcceptIdle(inbox: seq<byte>, closes: bool, ready: seq<bool>, ticks: nat)
    requires forall k :: 0 <= k < |ready| ==> !ready[k]
    ensures AcceptLoop(inbox, closes, ready, ticks) == Err(AcceptTimeout)
    decreases ticks
  {
    if ticks > 0 {
      AcceptIdle(inbox, closes, if |ready| == 0 then [] else ready[1..], ticks - 1);
    }
  }

  // ---------------------------------------------------------------------
  // Setup order of join_room and create_room

  datatype Command =
    | HelloCmd
    | DestGenerateCmd
    | SessionCreateCmd(token: seq<byte>)
    | StreamConnectCmd(token: seq<byte>)
    | StreamAcceptCmd(token: seq<byte>)

  /** One control call: on which connection (1 = control, 2 = data), which
      command, and whether it succeeded. */
  datatype Step = Step(socket: nat, command: Command, ok: bool)

  /** What the router will do: the octets it sends on the first and on the
      second connection, how the network chunks the DEST reply, which polling
      rounds find the data connection readable, and whether the router closes
      the data connection once its octets are sent. */
  datatype Router = Router(control: seq<byte>, data: seq<byte>, replyHints: seq<nat>,
                           ready: seq<bool>, dataCloses: bool)

  datatype RoomError = MissingPublicKey | MissingPrivateKey | Protocol(cause: SamError)

  /** The log of control calls and, on success, the data connection. */
  datatype Setup = Setup(log: seq<Step>, outcome: Result<Conn, RoomError>)

  /** Stream commands come only on a second connection right after its own
      successful hello, and only after SESSION CREATE for the same token has
      succeeded on the first connection. */
  ghost predicate StreamAfterSession(log: seq<Step>) {
    forall i :: 0 <= i < |log| && (log[i].command.StreamConnectCmd? || log[i].command.StreamAcceptCmd?) ==>
      && i >= 1
      && log[i].socket == 2
      && log[i - 1] == Step(2, HelloCmd, true)
      && exists j :: 0 <= j < i - 1 && log[j] == Step(1, SessionCreateCmd(log[i].command.token), true)
  }

  /** Every call but the last succeeded: the first failure ends the setup. */
  ghost predicate StopsAtFailure(log: seq<Step>) {
    forall i :: 0 <= i < |log| - 1 ==> log[i].ok
  }

  datatype Bound = Bound(log: seq<Step>, result: Result<Dest, SamError>)

  /** The log of the first half when it stops after `reached` calls, the
      last of them with outcome `lastOk`. */
  function BindLog(reached: nat, lastOk: bool, token: seq<byte>): (log: seq<Step>)
    requires 1 <= reached <= 3
    ensures |log| == reached && StopsAtFailure(log)
    ensures forall i :: 0 <= i < |log| ==> log[i].socket == 1
    ensures log[|log| - 1] == Step(1, SessionCreateCmd(token), true) <==> reached == 3 && lastOk
    ensures forall i :: 0 <= i < |log| ==>
              !log[i].command.StreamConnectCmd? && !log[i].command.StreamAcceptCmd?
  {
    var all := [Step(1, HelloCmd, true), Step(1, DestGenerateCmd, true), Step(1, SessionCreateCmd(token), true)];
    all[..reached - 1] + [Step(1, all[reached - 1].command, lastOk)]
  }

  /** The first half of both room flows on connection 1: hello, generate a
      destination, bind the session token to it. */
  function BindSession(control: seq<byte>, hints: seq<nat>, token: seq<byte>): (b: Bound)
    ensures 1 <= |b.log| <= 3 && StopsAtFailure(b.log)
    ensures forall i :: 0 <= i < |b.log| ==> b.log[i].socket == 1
    ensures b.result.Ok? <==> b.log[|b.log| - 1] == Step(1, SessionCreateCmd(token), true)
    ensures b.result.Ok? ==> |b.log| == 3
    ensures forall i :: 0 <= i < |b.log| ==>
              !b.log[i].command.StreamConnectCmd? && !b.log[i].command.StreamAcceptCmd?
  {
    match Hello(control)
    case Err(e) => Bound(BindLog(1, false, token), Err(e))
    case Ok(s) => BindAfterHello(s, hints, token)
  }

  /** `BindSession` once hello has succeeded. */
  function BindAfterHello(s: Conn, hints: seq<nat>, token: seq<byte>): (b: Bound)
    ensures |b.log| in {2, 3} && b.log == BindLog(|b.log|, b.log[|b.log| - 1].ok, token)
    ensures b.result.Ok? <==> |b.log| == 3 && b.log[2].ok
  {
    match DestGenerate(s, hints)
    case Err(e) => Bound(BindLog(2, false, token), Err(e))
    case Ok((s', d)) =>
      var created := CreateSession(s', token, d.priv);
      if created.Ok? then Bound(BindLog(3, true, token), Ok(d))
      else Bound(BindLog(3, false, token), Err(created.error))
  }

  /** The second half of every setup, once the session is bound: hello on
      connection 2, then the stream command `cmd`, carried out by `open`. */
  function Attach(b: Bound, data: seq<byte>, cmd: Command,
                  open: Conn -> Result<Conn, SamError>): (s: Setup)
    requires cmd.StreamConnectCmd? || cmd.StreamAcceptCmd?
    requires 1 <= |b.log| <= 3 && StopsAtFailure(b.log)
    requires b.result.Ok? <==> b.log[|b.log| - 1] == Step(1, SessionCreateCmd(cmd.token), true)
    requires b.result.Ok? ==> |b.log| == 3
    requires forall i :: 0 <= i < |b.log| ==>
               !b.log[i].command.StreamConnectCmd? && !b.log[i].command.StreamAcceptCmd?
    ensures StreamAfterSession(s.log) && StopsAtFailure(s.log)
    ensures |b.log| <= |s.log| && s.log[..|b.log|] == b.log
    ensures s.outcome.Ok? <==> |s.log| == 5 && s.log[4] == Step(2, cmd, true)
    ensures s.outcome.Ok? ==> b.result.Ok? && Hello(data).Ok? && open(Hello(data).value) == Ok(s.outcome.value)
  {
    match b.result
    case Err(e) => Setup(b.log, Err(Protocol(e)))
    case Ok(_) =>
      match Hello(data)
      case Err(e) => Setup(b.log + [Step(2, HelloCmd, false)], Err(Protocol(e)))
      case Ok(s2) =>
        var c := open(s2);
        var log := b.log + [Step(2, HelloCmd, true), Step(2, cmd, c.Ok?)];
        assert log[2] == Step(1, SessionCreateCmd(cmd.token), true);
        if c.Ok? then Setup(log, Ok(c.value)) else Setup(log, Err(Protocol(c.error)))
  }

  /** `join_room`: check the key files (public first), bind the session on
      connection 1, then hello and STREAM CONNECT on connection 2, which
      becomes the data pipe. */
  function JoinRoom(router: Router, publicExists: bool, privateExists: bool,
                    token: seq<byte>, remote: seq<byte>): (s: Setup)
    ensures !publicExists ==> s == Setup([], Err(MissingPublicKey))
    ensures publicExists && !privateExists ==> s == Setup([], Err(MissingPrivateKey))
    ensures StreamAfterSession(s.log) && StopsAtFailure(s.log)
    ensures s.outcome.Ok? <==> |s.log| == 5 && s.log[4] == Step(2, StreamConnectCmd(token), true)
    ensures s.outcome.Ok? ==>
              s.outcome.value.sent == SendLine(HelloCommand) + SendLine(StreamConnectCommand(token, remote))
  {
    if !publicExists then Setup([], Err(MissingPublicKey))
    else if !privateExists then Setup([], Err(MissingPrivateKey))
    else
      Attach(BindSession(router.control, router.replyHints, token), router.data,
             StreamConnectCmd(token), c => StreamConnect(c, token, remote))
  }

  /** `create_room`: check the key files (private first), bind the session on
      connection 1, then hello and STREAM ACCEPT on connection 2. */
  function CreateRoom(router: Router, privateExists: bool, publicExists: bool, token: seq<byte>): (s: Setup)
    ensures !privateExists ==> s == Setup([], Err(MissingPrivateKey))
    ensures privateExists && !publicExists ==> s == Setup([], Err(MissingPublicKey))
    ensures StreamAfterSession(s.log) && StopsAtFailure(s.log)
    ensures s.outcome.Ok? <==> |s.log| == 5 && s.log[4] == Step(2, StreamAcceptCmd(token), true)
    ensures s.outcome.Ok? ==>
              s.outcome.value.sent == SendLine(HelloCommand) + SendLine(StreamAcceptCommand(token))
  {
    if !privateExists then Setup([], Err(MissingPrivateKey))
    else if !publicExists then Setup([], Err(MissingPublicKey))
    else
      Attach(BindSession(router.control, router.replyHints, token), router.data,
             StreamAcceptCmd(token), c => StreamAccept(c, token, router.ready, router.dataCloses))
  }
}
