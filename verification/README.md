# Argon-client core in Dafny

Argon-client is a terminal chat client. It talks over I2P, and end-to-end
encryption uses PGP. This project models the logic around its I/O as
immutable data and pure functions, and proves properties of that logic.
The model covers:

- **The SAM client** (modules `Stream`, `Sam` and `SamPlain`). This is the
  client side of the I2P SAM v3 control protocol as `src/ecchat.py` speaks
  it:
  - line I/O on a socket that is a sequence of octets still to arrive, with
    the strict UTF-8 decode every reply line goes through;
  - HELLO, DEST GENERATE with its `PUB=`/`PRIV=` token parser, SESSION
    CREATE, and STREAM CONNECT;
  - STREAM ACCEPT, whose polling loop runs on a clock of one-second ticks;
  - the setup order of `join_room` and `create_room`: bind a session on a
    first connection, then hello on a second one and connect or accept
    there.

  `SamPlain` covers what the unencrypted `src/unsafe/chat.py` does
  differently.
- **Binary framing** (`Framing`). Each chat message is framed as a 4-octet
  big-endian length followed by the payload.
- **The key vault** (`Vault`). This is the `salt(16) ++ nonce(12) ++
  ciphertext` layout in which the private key is stored under an
  Argon2i-derived AES-GCM key. It also covers the three decryption attempts
  of `pgp_decrypt_message`. The cryptographic primitives are abstract
  function values. AES-GCM correctness is a hypothesis of the lemmas that
  need it.
- **The keychain register** (`Keychain`). The register is a list of
  `(ID, Type, Filename, Alias)` rows. The module models:
  - ID allocation;
  - synchronisation with the key directories;
  - deleting a key;
  - binding an alias, which keeps at most one key per alias and type;
  - the command dispatch of the keychain prompt.
- **The decisions around the register and the settings** (`Helpers`,
  `Settings`, `Messenger`, `Installer`):
  - the encryption toggle;
  - alias and ID lookups;
  - the `ID/ID` key selection and the routing of misplaced key files;
  - health colouring;
  - the `Section.KEY value` settings command;
  - the installer's choice of release asset and its router-file check.

`Wrappers`, `Text`, `Seqs` and `Decimal` are shared vocabulary:
- `Option` and `Result`;
- octets and ASCII text, well-formed UTF-8, and the ASCII `lower()`;
- prefix, substring, split, join and strip on sequences;
- decimal rendering of register IDs.

## Model

| member | source | states |
|---|---|---|
| Stream.RecvLine | src/ecchat.py:24-34 | The line returned is a prefix of the stream that ends in its first LF, and the rest is what follows it. The result is end-of-stream exactly when no LF arrives. The final `decode()` is checked by each caller. |
| Stream.RecvSentLine | src/ecchat.py:24-40 | A line sent with `send_line` (the line plus one LF) is received back whole, and the following octets stay unread. |
| Stream.RecvLineAppend | src/unsafe/chat.py:22-32 | Once a line is complete, octets arriving later do not change it. |
| Stream.RecvExact | src/ecchat.py:43-51 | `recv_exact(n)` yields exactly n octets and consumes exactly those, or end-of-stream exactly when fewer than n remain. |
| Stream.RecvExactLoop | src/ecchat.py:43-51 | The chunked `recv` loop gives the same result as `RecvExact`, however the network splits the stream. |
| Text.Utf8Length | src/ecchat.py:35 | A well-formed UTF-8 sequence is 1 to 4 octets long. It is one octet exactly when that octet is ASCII, and every later octet of a longer sequence is at least 0x80. |
| Text.AsciiIsUtf8 | src/ecchat.py:35 | ASCII octets always decode. |
| Text.Utf8Concat | src/ecchat.py:35 | Two decodable texts in a row decode. |
| Text.Utf8DropAscii | src/ecchat.py:35 | A text ending in an ASCII octet, such as a line with its LF, decodes exactly when the text without that octet does. |
| Framing.BigEndianRoundTrip | src/ecchat.py:165 | Decoding the 4-octet big-endian header of a length below 2^32 gives back that length. |
| Framing.BigEndianOfHeader | src/ecchat.py:176 | Every 4-octet header is the encoding of the length it decodes to. |
| Framing.SendFramed | src/ecchat.py:159-166 | A payload of fewer than 2^32 octets is sent as 4 header octets that decode to its length, then the payload itself. A longer payload is refused, as `to_bytes(4)` raises. |
| Framing.RecvFramed | src/ecchat.py:168-180 | A frame is received only when the whole header and as many payload octets as the header announces have arrived. Otherwise the result is end-of-stream. |
| Framing.FramingRoundTrip | src/ecchat.py:159-180 | Receiving what `send_framed_message` wrote returns the payload, the empty one included, and leaves the following octets unread. |
| Framing.EmptyFrame | src/ecchat.py:177-178 | A zero length header yields the empty payload, not end-of-stream. |
| Sam.Hello | src/ecchat.py:54-61 | The handshake succeeds exactly when a reply line arrives, decodes as UTF-8 and contains RESULT=OK. A line that does not decode is a decode error, and anything else a failed handshake. It sends the HELLO command and consumes just that line. |
| Sam.HelloReply | src/ecchat.py:58-60 | For a reply line sent by the router, the handshake passes exactly when the line decodes and holds RESULT=OK, and it leaves the rest of the stream unread. |
| Sam.HelloSilent | src/unsafe/chat.py:42-44 | A router that sends nothing fails the handshake. |
| Sam.HelloOk | src/ecchat.py:58-60 | The router's positive answer `HELLO REPLY RESULT=OK` passes the handshake. |
| Sam.ReadReply | src/ecchat.py:68-73 | The `recv(1024)` loop loses no octet. It stops with unread data only once an LF has been read. |
| Sam.ReadReplyOneLine | src/ecchat.py:68-73 | When the router sends one line, the loop reads exactly that line, however the network splits it. |
| Sam.ScanIsLast | src/ecchat.py:76-83 | The token loop ends with, for each of PUB= and PRIV=, the value of the last token that carries it. The value is what follows the prefix. |
| Sam.FieldsDisjoint | src/ecchat.py:80-83 | No token starts with both PUB= and PRIV=, so the `elif` hides nothing. |
| Sam.ParseDest | src/ecchat.py:75-87 | The reply is accepted exactly when it decodes as UTF-8 and its DEST REPLY lines carry a non-empty PUB= and a non-empty PRIV= value, and these are the last ones seen. A reply that does not decode is a decode error, and any other one an invalid destination. Tokens are split at the ASCII whitespace of `str.split()`, 0x1C to 0x1F included. |
| Sam.DestGenerate | src/ecchat.py:63-87 | DEST GENERATE is sent. The call succeeds exactly when the reply read by the loop parses, and then both values are non-empty. It fails as an invalid destination or a decode error. |
| Sam.DestTokensOfLine | src/ecchat.py:75-79 | A single DEST REPLY line of ASCII words yields its words as the tokens the parser inspects. |
| Sam.LineDecodes | src/ecchat.py:75 | A reply line made of ASCII words decodes. |
| Sam.ParseWellFormedReply | src/ecchat.py:63-87 | A one-line `DEST REPLY PUB=p PRIV=q` whose values are non-empty ASCII without whitespace decodes and parses to exactly (p, q). |
| Sam.ParseReplyWithoutPriv | src/unsafe/chat.py:76-79 | A DEST REPLY that lacks the PRIV= field is rejected. |
| Sam.CreateSession | src/ecchat.py:89-96 | SESSION CREATE is sent. It succeeds exactly when the reply line decodes, starts with SESSION STATUS and contains RESULT=OK, and then only that line is consumed. A line that does not decode is a decode error. A missing line is a closed connection. |
| Sam.StreamConnect | src/ecchat.py:98-104 | STREAM CONNECT is sent. It succeeds exactly when the reply line decodes, starts with STREAM STATUS and contains RESULT=OK. |
| Sam.StatusReply | src/ecchat.py:94-96 | For a line sent by the router, the line decodes exactly when it decodes without its terminator. The status check passes exactly when the line starts with the tag and holds RESULT=OK. The terminator plays no part in either. |
| Sam.AcceptLoop | src/ecchat.py:106-125 | The polling loop times out when the clock has run out. Otherwise it ends in a failure verdict, a decode error, or a hang, and a hang happens only on a connection the router keeps open. On success it has consumed input. |
| Sam.AcceptLoopBounded | src/ecchat.py:110-125 | The corrected loop, whose reads time out, ends in a timeout, a failure verdict or a decode error, and never hangs. When the clock has run out it times out. |
| Sam.AcceptBoundedAgrees | src/ecchat.py:110-125 | Wherever the loop as written returns at all, the corrected loop returns the same outcome. |
| Sam.AcceptHangs | src/ecchat.py:115-116 | A partial line on a connection the router keeps open stops the loop as written for good, whatever budget is left. The corrected loop times out instead. |
| Sam.BoundedWithoutLine | src/ecchat.py:110-125 | With reads that time out, a stream without a complete line always times out. |
| Sam.OpenEmptyNeverHangs | src/ecchat.py:110-114 | On an open connection with nothing pending, every round is idle and the wait times out. |
| Sam.AcceptAllReady | src/ecchat.py:110-125 | With one readable round per line and one more, and time left on the clock, the loop decides as the reference reading says, whatever the budget. It takes the lines in order and fails on the first that does not decode. It accepts on the first STREAM STATUS line when that line holds RESULT=OK, and fails when it does not. It skips every other line. |
| Sam.AcceptWithoutLine | src/ecchat.py:110-125 | A stream that the router closes without completing a line times out. So does an open connection with nothing pending. |
| Sam.AcceptIdle | src/ecchat.py:112-114 | When no round finds the socket readable, the wait runs out. |
| Sam.AcceptMonotone | src/ecchat.py:110-125 | A decision reached within the budget stays the same under any longer budget. |
| Sam.StreamAccept | src/ecchat.py:106-125 | STREAM ACCEPT is sent, and the 30-second wait consumes input when it succeeds. It fails only as the loop does. An idle socket times out. |
| Sam.BindSession | src/ecchat.py:276-278 | The first connection carries at most three calls, none of them a stream command, and stops at the first failure. The session is bound exactly when the last call is a successful SESSION CREATE, which is then the third call. |
| Sam.Attach | src/ecchat.py:280-282 | The stream command comes on a second connection, after its own successful hello and after the session was bound. The setup succeeds exactly when that command is the fifth call and succeeded. |
| Sam.JoinRoom | src/ecchat.py:243-282 | The public key file is checked first, then the private one. STREAM CONNECT is issued only after the session was created on connection 1, and only on a fresh connection 2 that has said hello. On success, connection 2 has carried exactly HELLO and STREAM CONNECT. |
| Sam.CreateRoom | src/ecchat.py:292-337 | The private key file is checked first, then the public one. STREAM ACCEPT is issued only after the session was created on connection 1, and only on a fresh connection 2 that has said hello. On success, connection 2 has carried exactly HELLO and STREAM ACCEPT. |
| SamPlain.CheckStatus | src/unsafe/chat.py:94-98 | A reply line that does not decode is a decode error. Otherwise a reply without the STREAM STATUS tag is rejected first, and then one without RESULT=OK. A missing line is a closed connection. |
| SamPlain.StreamConnect | src/unsafe/chat.py:90-99 | The two-step check accepts exactly the replies the one-step check of src/ecchat.py accepts, with the same outcome. |
| SamPlain.StreamAccept | src/unsafe/chat.py:101-109 | STREAM ACCEPT reads a single reply line, with no waiting. It succeeds exactly when the line decodes and carries the tag and RESULT=OK. |
| SamPlain.AcceptVariantsAgree | src/unsafe/chat.py:101-109 | When the first line is a STREAM STATUS reply, the single read and the polling loop of src/ecchat.py reach the same verdict and leave the same input. |
| SamPlain.RunClient | src/unsafe/chat.py:178-196 | The session is bound on connection 1 before STREAM CONNECT on a second connection that has said hello. Success means that fifth call succeeded. |
| SamPlain.RunServer | src/unsafe/chat.py:146-171 | The session is bound on connection 1 before STREAM ACCEPT on a second connection that has said hello. Success means that fifth call succeeded. |
| SamPlain.JoinRoomMatchesRunClient | src/unsafe/chat.py:178-196 | With both key files present, `join_room` issues the same control calls as `run_client`, with the same outcome. |
| Vault.SplitBlob | src/encrypt.py:72-74 | A blob splits into salt [0,16), nonce [16,28) and ciphertext [28,end) that concatenate back to it. Python's clamping applies to short input. |
| Vault.SplitJoinBlob | src/encrypt.py:72-74 | Splitting salt ++ nonce ++ ciphertext, with a 16-octet salt and a 12-octet nonce, recovers the three fields. |
| Vault.JoinSplitBlob | src/encrypt.py:72-74 | Joining the fields of any blob of at least 28 octets gives the blob back. |
| Vault.Protect | src/encrypt.py:99-124 | `argon_protect` writes the fresh salt, then the fresh nonce, then the AES-GCM ciphertext of the key. It uses the key derived with the fixed Argon2i parameters and no associated data. |
| Vault.ProtectLength | src/helpers.py:46-62 | A protected key file is 28 octets of header, the key and a 16-octet tag. |
| Vault.Unlock | src/encrypt.py:67-97 | Unlocking re-derives the key from the stored salt with the same parameters and opens the ciphertext with the stored nonce and no associated data. It succeeds exactly when that decryption does, with its plaintext. |
| Vault.UnlockProtect | src/encrypt.py:78-122 | Given AES-GCM correctness, unlocking a protected key with the same password returns the key, whatever salt and nonce were drawn. |
| Vault.UnlockShortBlob | src/encrypt.py:72-89 | A file too short to hold header and tag never unlocks. |
| Vault.CleanBlob | src/encrypt.py:51 | The cleaned message is a slice of the octets with every NUL removed. Everything cut off on either side is whitespace, and the slice neither starts nor ends with whitespace. It holds no NUL octet. |
| Seqs.RemoveAll | src/encrypt.py:51 | `replace(b'\x00', b'')` leaves no NUL. Every other octet stays, with its multiplicity. |
| Seqs.RemoveAllAppend | src/encrypt.py:51 | Removing distributes over concatenation, so the octets kept stay in input order. |
| Vault.CleanIdempotent | src/encrypt.py:51 | Cleaning a cleaned message changes nothing. |
| Vault.DecryptMessage | src/encrypt.py:23-64 | The raw octets are tried first, then their lossy UTF-8 decoding, then the cleaned octets. The first success decides, with its plaintext. The call fails exactly when all three attempts fail. |
| Vault.DecryptCleanMessage | src/encrypt.py:47-59 | For an already clean message the third attempt adds nothing: success comes only from the first two attempts. |
| Decimal.ParseRender | src/keychain.py:38-39 | An ID written with `str` reads back with `int` as the same number. |
| Decimal.RenderInjective | src/keychain.py:49 | Distinct numbers give distinct ID strings. |
| Keychain.MaxId | src/keychain.py:37-39 | The maximum exists exactly when some row has the type. It bounds every ID of that type and is attained by one of them. |
| Keychain.NextId | src/keychain.py:36-39 | When no row has the type, the next ID is 1001 for private keys and 2001 for any other type. Otherwise it is one more than an existing ID of that type and above all of them. A non-numeric ID of that type makes it fail, as `int()` raises. |
| Keychain.NextIdFresh | src/keychain.py:36-39 | The rendered next ID is carried by no row of that type. |
| Keychain.RegisterFiles | src/keychain.py:46-55 | Scanning one directory only appends rows. Existing rows stay unchanged and in order. |
| Keychain.RegisterFilesNew | src/keychain.py:46-55 | Each appended row has the directory's type and an empty alias. It names a listed file with the right suffix that was not registered before it. |
| Keychain.RegisterFilesCovers | src/keychain.py:46-55 | After the scan every listed file with the suffix is registered. |
| Keychain.RegisterFilesNoop | src/keychain.py:46-55 | When no listed file needs a row, the register is unchanged. |
| Keychain.RegisterFilesFailure | src/keychain.py:36-55 | The scan fails exactly when some file needs a row and the existing IDs of the type are not all numeric. |
| Keychain.RegisterFilesInvariant | src/keychain.py:46-55 | Registering keeps IDs unique within a type and at most one key per alias and type. |
| Keychain.Sync | src/keychain.py:42-57 | Synchronising only appends to the register. |
| Keychain.SyncCovers | src/keychain.py:42-57 | After synchronising, every `.bin` file of the private directory and every `.asc` file of the public directory is registered, and the register invariant is kept. |
| Keychain.SyncIdempotent | src/keychain.py:42-57 | Synchronising again with the same directory listings changes nothing. |
| Keychain.FindId | src/keychain.py:60-62 | The lookup finds the first row with the ID, or reports that no row has it. |
| Keychain.DeleteKey | src/keychain.py:60-71 | Only the first row with the ID is removed, and all others stay in order. Its file in the directory of its type is unlinked only for `d`. An unknown ID changes nothing. |
| Keychain.DeletePreservesInvariant | src/keychain.py:60-71 | Deleting keeps the register invariant. |
| Keychain.BindAlias | src/keychain.py:74-86 | An unknown ID, or an alias already carried by a key of the same type, leaves every row unchanged. Otherwise only the first row with the ID gets the alias. |
| Keychain.BindPreservesInvariant | src/keychain.py:74-86 | Binding keeps at most one key per non-empty alias and type, and keeps IDs unique. |
| Keychain.RebindIsRefused | src/keychain.py:76-81 | Binding a key to the alias it already carries is refused as taken. |
| Keychain.Dispatch | src/keychain.py:137-154 | Empty input is skipped and a quit word leaves. `d`/`r` need exactly two tokens, and only `d` removes the file. `b` needs at least three tokens and binds the rest joined by single spaces. |
| Keychain.ParseBindLine | src/keychain.py:150-151 | A typed `b ID word ...` line binds the alias made of those words. |
| Keychain.ParseDeleteExtraToken | src/keychain.py:137-154 | A `d` or `r` command with an extra token is an unknown command. |
| Keychain.Execute | src/keychain.py:137-152 | Every command keeps the register invariant. Only delete and bind change the register. |
| Helpers.IsEncryptionEnabled | src/helpers.py:17-37 | Encryption is on unless the settings can be read and hold the option with a value that is `true` in no letter case. A missing option or an unreadable file keeps it on. |
| Helpers.DefaultEncrypts | src/settings.py:23-36 | A freshly written settings file has encryption on. |
| Helpers.SettingsCanDisableEncryption | src/settings.py:280-291 | With the corrected parsing, one prompt round on the settings line `I2P Network.encrypt_i2p_comm false` turns encryption off. |
| Helpers.SettingsAsWrittenKeepsEncryption | src/settings.py:280-295 | With the parsing as written, that same line is an invalid format. The prompt goes on with the config unchanged, so encryption stays on. |
| Helpers.DisableLineAsWritten | src/settings.py:283-284 | As written, the update part of that line is an invalid format, because its key stops at `I2P`. |
| Helpers.LastWithAlias | src/helpers.py:75-80 | The reference lookup gives the filename of a row with the alias and type, or nothing when no such row exists. |
| Helpers.ScanIsLastWithAlias | src/helpers.py:75-80 | The row loop keeps, per type, the filename of the last row with the alias. Rows of another type are ignored. |
| Helpers.FindKeysByAlias | src/helpers.py:66-89 | Each result is the last matching row's filename for its type. An unreadable register gives nothing for both. |
| Helpers.FindUniqueKey | src/helpers.py:75-80 | In a register with one key per alias and type, the lookup finds the one key bound to the alias. |
| Helpers.BindThenFind | src/keychain.py:74-86 | After a successful bind, looking the alias up finds the bound key. |
| Settings.ThresholdColor | src/settings.py:99-110 | Green exactly when the value reaches the first threshold. Yellow exactly when it is below that but reaches the second. Red otherwise. |
| Settings.ThresholdMonotone | src/settings.py:99-110 | A larger value never gets a worse colour. |
| Settings.TunnelCountNeverYellow | src/settings.py:142-143 | With thresholds (1,1) a tunnel count is never yellow. It is green exactly from one tunnel on. |
| Settings.StatusColor | src/settings.py:112-120 | A status is green for `ok`/`enabled`, yellow for `firewalled`/`warning`/`warn`, and red otherwise, compared in lower case. |
| Settings.StatusColorIgnoresCase | src/settings.py:114 | The colour of a status does not depend on its letter case. |
| Settings.ParseUpdateAsWritten | src/settings.py:283-284 | As written, an accepted update has a section free of whitespace, because the key ends at the first whitespace. |
| Settings.FirstWordWithoutDotRejected | src/settings.py:283-293 | As written, a command whose first word has no `.` is an invalid format, even when a `.` follows later. |
| Settings.SpacedSectionRejected | src/settings.py:281-284 | The example of the source's own comment, `I2P Network.PERSISTENCE true`, is an invalid format as written. |
| Settings.ParseUpdate | src/settings.py:283-293 | With the corrected parsing, an accepted update has a section without `.` and a value that is non-empty and starts with no whitespace. Any other command is an invalid format. |
| Settings.ParseUpdateOf | src/settings.py:281-284 | The corrected parsing reads `section.setting value` as exactly that update, for a section without `.`, spaces included. |
| Settings.ParseUpdateAsWrittenOf | src/settings.py:283-284 | As written, `section.setting value` is read as that update when the section holds no whitespace. |
| Settings.ParseUpdateAgrees | src/settings.py:283-284 | Both parsings agree on every command whose section holds no whitespace. |
| Settings.ParseSettingsLine | src/settings.py:268-295 | The line leaves the prompt exactly when, trimmed and lower-cased, it is `q`, `quit` or `exit`. Only lines with a `.` are read as updates, by the parsing as written or by the corrected one of the finding below. |
| Settings.ApplyUpdate | src/settings.py:286-291 | An update changes only the named option, and only when both section and option exist. No section or option is added. |
| Settings.ApplyUpdateMissing | src/settings.py:290-291 | An update naming a missing section or option changes nothing. |
| Settings.SettingsStep | src/settings.py:265-295 | One prompt round keeps the config unless the line is an update, which it applies. It stops exactly on a quit word. This holds under either parsing. |
| Messenger.GetKeyFilename | Argon_Messenger.py:101-111 | A filename is found exactly when some row matches both ID and type. It is the filename of the first such row. An unreadable register gives nothing. |
| Messenger.GetKeyFilenameUnique | Argon_Messenger.py:106-108 | With IDs unique within a type, the lookup returns the filename of the row with that ID and type. |
| Messenger.ParseIdPair | Argon_Messenger.py:274-281 | A choice is accepted exactly when it splits at `/` into two parts. The IDs are those parts with whitespace stripped. |
| Messenger.ParseIdPairOf | Argon_Messenger.py:274-281 | `a/b` is read as the stripped pair (a, b). |
| Messenger.ParseIdPairRefuses | Argon_Messenger.py:274-278 | A choice with no `/` or with two of them is refused. |
| Messenger.SelectKeys | Argon_Messenger.py:273-299 | The private key is looked up first and then the public key. A missing or empty filename is reported for the first that fails, and success means both were found. |
| Messenger.ClassifyKeyFile | Argon_Messenger.py:152-180 | Only files with a key extension are handled. An `.asc` naming `public` is moved to the public directory. Otherwise an `.asc` naming `secret` or `private` is protected as `<name>.bin`. A `.bin` is moved to the private directory. `.gpg` and `.key` are not processed. |
| Messenger.ProtectedKeyIsSynced | Argon_Messenger.py:168 | A protected key lands under a name the keychain synchronisation picks up as a private key. |
| Messenger.PublicTakesPrecedence | Argon_Messenger.py:158-164 | A name holding both `public` and `private` is routed to the public directory. |
| Installer.SelectAsset | src/installer.py:36-55 | The chosen asset is the first in list order whose lower-cased name is Windows-like and matches the architecture. Nothing is chosen exactly when no asset qualifies. |
| Installer.WindowsLikeIsExeOrWin | src/installer.py:42-44 | Windows-like means containing `.exe` or `win`, because `windows` contains `win`. |
| Installer.Arch64IsSubstring | src/installer.py:48-49 | For a 64-bit machine, matching means containing `64`, since every other pattern contains it. |
| Installer.DarwinLooksWindowsLike | src/installer.py:42-49 | A macOS archive name such as `i2pd_darwin_x64.tar.gz` passes both tests, because `darwin` contains `win`. |
| Installer.StripVersion | src/installer.py:33 | The version is a suffix of the tag, and everything dropped before it is `v`. It does not start with `v`. |
| Installer.StripVersionIdempotent | src/installer.py:33 | Stripping the leading `v` characters twice is stripping them once. |
| Installer.StripVersionOf | src/installer.py:33 | Any run of leading `v` characters before a version is removed entirely. |
| Installer.ExtractIffZipName | src/installer.py:72-98 | The download is extracted exactly when the asset name ends in `.zip`. |
| Installer.Install | src/installer.py:13-113 | A failed request fails. With no suitable asset the installer reports it with the stripped version. It installs exactly when an asset was chosen and downloaded, and then it has the stripped version, that asset, and extraction exactly for `.zip`. |
| Installer.NoAssetNoInstall | src/installer.py:57-61 | Without a suitable asset the installer returns false. |
| Installer.FindRouter | src/installer.py:141-149 | The router is the first listed file whose lower-cased name contains `i2pd` and ends in `.exe`. There is none exactly when no file qualifies. |
| Installer.CheckRouter | src/installer.py:134-173 | A router present is success. Otherwise success needs a `y`/`yes` answer in any case, a successful install and a successful repeated check. |
| Installer.AnswerCaseIgnored | src/installer.py:156 | `Y`, `YES` and `yEs` all accept the install. |

## Left out

- Sockets, `select`, `time.time()` and `time.sleep` are not modelled. A connection is the sequence of octets the router will send plus the octets sent so far. How `recv` splits the stream is a parameter (`hints`). Readiness per polling round is a parameter (`ready`), and the clock is a budget of one-second ticks.
- Stream.RecvLine: the end of the octets is taken to be the router closing the connection. A router that keeps a connection open without completing a line would leave `sam_hello`, `sam_create_session`, `sam_stream_connect` and the single-read `sam_stream_accept` of src/unsafe/chat.py blocked for good. `Sam.Hello`, `Sam.CreateSession`, `Sam.StreamConnect`, `SamPlain.StreamConnect` and `SamPlain.StreamAccept` report that case as a failed handshake or a closed connection instead. Only the polling accept loop models a connection left open.
- Sam.AcceptLoop: a round that reads a complete line is taken to cost no time. Idle rounds and rounds at the closed end of the stream cost one second each, and the time reads really take is not modelled.
- Sam.ParseDest: multi-octet Unicode whitespace is not modelled. Python's `str.split()` and `str.strip()` also cut at U+0085, U+00A0, U+1680, U+2000 to U+200A, U+2028, U+2029, U+202F, U+205F and U+3000, while the model cuts only at the ASCII whitespace octets.
- Sam.DestGenerate: shares the whitespace gap of `Sam.ParseDest`.
- Sam.DestTokensOfLine: shares the whitespace gap of `Sam.ParseDest`.
- The threaded chat loops (`chat_session` in src/ecchat.py and src/unsafe/chat.py) are concurrency around the framing and PGP calls, and are not modelled.
- `generate_random_id` is nondeterministic. The session token is a parameter.
- Argon2i, AES-GCM and PGPy are left out because they are foreign libraries. They appear as function values, and AES-GCM correctness, tag length and rejection of short ciphertexts are stated as hypotheses. Parsing the recovered octets as a PGP key, and parsing the remote public key in `join_room`/`create_room`, are not modelled.
- The `pgp_decrypt_message` of src/ecchat.py (lines 136-156) is not part of this model. It does one decode and one engine call, with nothing to decide.
- Vault.DecryptMessage: models the octet input of `pgp_decrypt_message` only. Given text, the function makes the same three attempts on characters, which is left out because the messages it decrypts arrive as octets.
- File, CSV and INI I/O, `os.listdir`, `shutil.move`, `os.remove` and `getpass` are left out. The register is a row list, the settings a map, directory listings a sequence of names, and a password or a random salt and nonce a parameter.
- Keychain.DeleteKey: the file to unlink is returned, not removed. `os.path.exists` is not modelled.
- configparser folds option names to lower case when it reads and compares them, and this is not modelled. The default settings are stored with the lower-case names configparser writes.
- Settings.ThresholdColor: takes the value as a real. `float()` of the text, stripping `%`, and the `ValueError` on non-numeric text are not modelled.
- The health scraping (`parse_health`, `get_i2p_status`, `i2p_health`), the browser, the guide, the menus and the coloured output are not modelled, as they are HTTP, HTML and terminal work.
- Text.Lower: is ASCII-only. Non-ASCII letters are not lowered.
- Keychain.NextId: reads IDs as plain ASCII digit strings. Python's `int()` also accepts surrounding whitespace, a sign (`-5`, `+1005`), underscores between digits (`1_005`) and non-ASCII digits. The model reports such an ID as non-numeric, so `Keychain.RegisterFilesFailure` fails on registers that Python would read.
- Keychain.RegisterFilesFailure: "not all numeric" means not all ASCII digit strings, as for `Keychain.NextId`.
- Installer.Install: the HTTP calls, the download progress (floating point), `zipfile` and the manual instructions are left out. Whether the download went through is a parameter.
- Installer.CheckRouter: the repeated `check_router` after an install is a parameter (`recheck`) rather than a recursive call on a changed directory.
- Installer.DownloadPath: joins with `/`, as on POSIX. `os.path.join` on Windows uses `\`, which does not change the `.zip` decision.
- Messenger.ClassifyKeyFile: computes where a file goes. The moves and the protection itself are not modelled.

## Findings

| source | as written | input that shows it | evidently intended | confidence | as-written member | corrected member |
|---|---|---|---|---|---|---|
| src/ecchat.py:106-125 | The wait is bounded by checking the clock between rounds. But a readable round calls the blocking `recv_line`, and the socket opened at line 56 has no timeout, so the `except socket.timeout` branch never fires. | The router sends `STREAM STATUS RESULT=OK` without its LF and keeps the connection open. `recv_line` then waits for good, and the 30-second timeout never fires. | A read that cannot complete a line gives up like an idle round, so the wait ends within the budget. | not executed | Sam.AcceptLoop, Sam.AcceptHangs | Sam.AcceptLoopBounded, Sam.AcceptBoundedAgrees |
| src/settings.py:281-284 | The command is split at the first whitespace before the key is split at `.`, so a section name with a space can never be reached. | `I2P Network.PERSISTENCE true` (the example in the comment on line 281) and `I2P Network.encrypt_i2p_comm false` are both reported as an invalid format. | The section is everything before the first `.`, and the value follows the first whitespace after it. | not executed | Settings.ParseUpdateAsWritten, Settings.FirstWordWithoutDotRejected, Settings.SpacedSectionRejected, Helpers.SettingsAsWrittenKeepsEncryption | Settings.ParseUpdate, Settings.ParseUpdateOf, Settings.ParseUpdateAgrees, Helpers.SettingsCanDisableEncryption |
