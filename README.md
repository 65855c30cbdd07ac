# rulogind in Dafny

A model of the connection handler of `rulogind`, a small rlogin server. It
also models the frame encoder of its Python test client.

For each accepted connection, `handle_client` runs a loop over four states:
Initial, Authenticating, Established and Closing.

- In Authenticating it reads the credentials frame
  `\0client-user\0server-user\0terminal\0` from the connection and decodes it.
  Decoding follows four steps:
  - split the octets after the leading NUL on NUL;
  - keep only the pieces that are well-formed UTF-8;
  - take pieces 0, 1 and 2, with `""` for a missing one;
  - trim each of them.
- The decoded server user is compared with the expected user, and also with
  `root` when the alias is allowed. The reply is either:
  - the greeting `\0Coucou\r\n`, followed by a `/bin/sh` child wired up through
    three pipes;
  - or `Login incorrect.\r\n`.
- In Established it copies octets from the connection to the shell's stdin.
  It then copies the shell's stdout and stderr octets to the connection, and
  polls the shell for its exit.
- In Closing it kills and waits for the shell, if there is one, and returns.

The model has six files:

- `Bytes.dfy`: octets, and an `Option` type.
- `Utf8.dfy`: the text that the decoder sees.
  - Well-formed UTF-8 follows section 4 of RFC 3629, which is what
    `str::from_utf8` accepts.
  - `str::trim` removes characters with the Unicode White_Space property.
    Here it is stated on their UTF-8 encodings.
- `Codec.dfy`: the handshake codec.
  - `Split` and `TextPieces` are the two steps of the parsing pipeline.
  - `Decode` gives the three trimmed fields.
  - `Authorizes` is the identity check, and `Classify` is the decision taken
    on one read.
  - It also holds the two fixed replies.
- `Client.dfy`: `rlogin_client`'s frame, with its default arguments, and the
  round trip through the server's decoder.
- `Handler.dfy`: the handler loop.
  - `Next` gives one loop iteration as a function over a `Snapshot`, and
    `Steps` gives a run of iterations. The snapshot holds:
    - the state;
    - whether a child exists;
    - how the handler returned;
    - the decoded claim;
    - everything written to the connection and to the child's stdin;
    - how often the child was spawned, killed and waited for.
  - The outside world is given as one `Io` record per iteration: the three
    reads, the child's exit poll, and the first `?` call that fails, if any.
  - The class `ConnectionHandler` is the loop itself. It keeps the reused
    1024-octet buffer as an `array`, and its `Step` and `Run` are proved to
    follow `Next` and `Steps`.
  - `Inv` is the invariant that every reachable handler keeps.
- `Session.dfy`: whole connections, from the client's frame to the
  handler's return.

Four behaviours of the code are easy to miss; the model follows the code:

- A failed read during the handshake returns the error at once (`?` on line
  45). It does not go to Closing.
- A failed `kill` or `wait` in Closing is returned as an error. It is not
  merely reported.
- Any `?` error in Established returns at once, bypassing Closing, so the
  shell is neither killed nor waited for. `Handler.RelayErrorSkipsTeardown`
  states this.
- A read that fails during relaying counts as zero octets, and an empty read
  from the connection does not end the session. Only the child's exit, or an
  error, does that.

## Model

| member | source | states |
|---|---|---|
| Utf8.CharLen | src/main.rs:50 | the length of the well-formed character at the front is at most 4 and fits in the input |
| Utf8.AsciiIsValid | src/main.rs:50 | an all-ASCII piece is accepted as text |
| Utf8.ConcatIsValid | src/main.rs:50 | the concatenation of two pieces that are text is text |
| Utf8.IllFormedExamples | src/main.rs:50 | overlong forms, surrogates, stray continuation octets, code points beyond U+10FFFF and truncated characters are not text; a complete three-octet character is |
| Utf8.TrimStartShape | src/main.rs:53-55 | trim_start drops a run of white space from the front and nothing else, and leaves no leading white space |
| Utf8.TrimEndShape | src/main.rs:53-55 | trim_end drops a run of white space from the back and nothing else, and leaves no trailing white space |
| Utf8.TrimShape | src/main.rs:53-55 | trim's result is a contiguous part of its input, preceded and followed only by white space, and neither starts nor ends with white space |
| Utf8.TrimIdempotent | src/main.rs:53-55 | trim leaves a trimmed string unchanged, so trimming twice is trimming once |
| Utf8.TrimEmptyIff | src/main.rs:53-55 | trimming leaves nothing exactly when the input is white space only, so the empty default field stays empty |
| Utf8.SpaceRunTrimsAway | src/main.rs:53-55 | trim_start removes a white-space run entirely |
| Utf8.TrimEndKeepsSomething | src/main.rs:53-55 | trim_end empties a non-empty string only when it starts with white space |
| Utf8.TrimKeepsOctets | src/main.rs:53-55 | trimming introduces no octet that was not in the input |
| Codec.Split | src/main.rs:48-49 | splitting always yields at least one piece |
| Codec.SplitIsNulFree | src/main.rs:48-49 | no piece contains the NUL separator |
| Codec.SplitCount | src/main.rs:48-49 | there is one piece more than there are NUL octets, trailing empty pieces included |
| Codec.JoinSplit | src/main.rs:48-49 | re-joining the pieces with NUL gives back the payload, so the split loses nothing |
| Codec.SplitJoin | src/main.rs:48-49 | NUL-free pieces joined with NUL split back into exactly those pieces |
| Codec.SplitPrefix | src/main.rs:48-49 | a NUL-free prefix becomes part of the first piece of what follows it |
| Codec.TextPiecesSound | src/main.rs:50-51 | the filter keeps only pieces of its input that are well-formed UTF-8, and never more pieces than it was given |
| Codec.TextPiecesAppend | src/main.rs:50-51 | the filter works piece by piece, so the surviving pieces keep their order |
| Codec.TextPiecesKeepsText | src/main.rs:50-51 | no well-formed piece is dropped |
| Codec.TextPiecesAllText | src/main.rs:50-51 | when every piece is text the filter changes nothing |
| Codec.DecodeFields | src/main.rs:47-55 | decoding is total, and every field is NUL-free and trimmed |
| Codec.FieldIsNulFree | src/main.rs:48-54 | each selected field, including the `""` default, is NUL-free |
| Codec.MissingClaimIsEmpty | src/main.rs:54 | with fewer than two surviving pieces, the claimed server user is the empty string |
| Codec.EmptyClaimIff | src/main.rs:48-54 | the claimed server user is empty exactly when the second surviving piece is missing or white space only |
| Codec.NoSeparatorNoClaim | src/main.rs:47-54 | a payload without any NUL claims the empty server user |
| Codec.AcceptedIff | src/main.rs:46-58 | a read is accepted exactly when it is a non-empty frame starting with NUL whose decoded server user is the expected user, or `root` when allowed |
| Codec.VerdictShape | src/main.rs:45-99 | an empty read is a hangup; a read not starting with NUL is not a frame; otherwise the claim is the decoded server user, and it is accepted exactly when it is authorised |
| Codec.RootAlwaysAccepted | src/main.rs:57-58 | with the alias allowed, a claim of `root` is accepted whatever the expected user |
| Codec.ShortFrameRejected | src/main.rs:54-58 | a frame with fewer than two surviving fields is rejected with the empty claim, unless the expected user is empty |
| Codec.ConstantsSpellOut | src/main.rs:58-90 | the alias `root` (line 58), the greeting `\0Coucou\r\n` (line 62) and the rejection `Login incorrect.\r\n` (line 90) are the octets of those texts |
| Client.CredentialsFrame | test-client.py:16 | the frame starts and ends with NUL and is four octets longer than its three fields |
| Client.Defaults | test-client.py:6-8 | without the optional arguments, the login is sent as both users and the terminal is `dumb` |
| Client.FramePieces | test-client.py:16 | with NUL-free fields, the server's split of the frame is exactly login, server user, terminal and a trailing empty piece, and the frame holds four NUL octets |
| Client.FrameClaim | src/main.rs:46-54 | round trip: the server decodes the server user that the client sent, when the login and server user are text and the server user is already trimmed |
| Client.FrameAccepted | src/main.rs:57-59 | a client that sends the expected user is accepted with that claim |
| Client.FrameRejected | src/main.rs:88-90 | a client whose server user is not authorised is rejected with that claim |
| Client.DroppedLoginShiftsFields | src/main.rs:50-54 | a login that is not text is dropped, so the terminal is taken as the claim |
| Handler.StartInv | src/main.rs:29-35 | a fresh handler satisfies the invariant |
| Handler.NextInv | src/main.rs:37-150 | every iteration keeps the invariant |
| Handler.AuthenticateInv | src/main.rs:43-100 | the Authenticating iteration keeps the invariant |
| Handler.RespondInv | src/main.rs:57-92 | answering any verdict keeps the invariant, provided an accepted claim is authorised |
| Handler.RelayInv | src/main.rs:101-140 | the Established iteration keeps the invariant |
| Handler.TeardownInv | src/main.rs:141-149 | the Closing iteration keeps the invariant |
| Handler.StepsInv | src/main.rs:37-151 | every run of iterations keeps the invariant |
| Handler.NextTracesGrow | src/main.rs:37-150 | no iteration takes back octets written to the connection or to the child's stdin |
| Handler.RespondTracesGrow | src/main.rs:57-92 | the handshake reply only appends to the connection |
| Handler.RelayTracesGrow | src/main.rs:106-129 | relaying only appends to the connection and to the child's stdin |
| Handler.StepsTracesGrow | src/main.rs:37-151 | over a run, both traces only grow |
| Handler.RunGuarantees | src/main.rs:28-154 | from a fresh handler: at most one child, spawned only for an authorised claim after the greeting; an `Ok` return happens in Closing, after exactly one kill and one wait if there is a child and none otherwise |
| Handler.ReturnedIsFinal | src/main.rs:148-153 | after the handler returns, nothing more happens, so teardown is never repeated |
| Handler.InitialMoves | src/main.rs:39-42 | Initial does no I/O and always moves to Authenticating |
| Handler.SpawnOnlyAfterAuthentication | src/main.rs:57-87 | a child appears only in an Authenticating iteration whose read was an accepted frame; the greeting is then all the connection has received, and the handler is Established |
| Handler.ChildIsKept | src/main.rs:101-149 | a child, once there, stays, and is never spawned again |
| Handler.AcceptedFrame | src/main.rs:57-87 | an accepted frame with no failing call produces exactly the greeting, a child and Established |
| Handler.RejectedFrame | src/main.rs:88-92 | a rejected frame produces exactly the rejection, Closing, and no child |
| Handler.QuietClose | src/main.rs:93-99 | an empty read, or one whose first octet is not NUL, goes to Closing with nothing written and no child |
| Handler.HandshakeReadError | src/main.rs:45 | a failed handshake read returns an error at once, writes nothing and does not pass through Closing |
| Handler.RelayStep | src/main.rs:106-137 | an undisturbed relay step sends the client's octets to stdin, then stdout and stderr octets to the connection, in that order and unchanged; it goes to Closing exactly when the child has exited |
| Handler.RelayErrorSkipsTeardown | src/main.rs:111-133 | an error in a relay step returns with the child still there, never killed or waited for |
| Handler.TeardownOnce | src/main.rs:141-149 | Closing always returns; it kills exactly when there is a child, waits after a successful kill, writes nothing, and returns `Ok` exactly when there is no child or neither call fails |
| Handler.ConnectionHandler.constructor | src/main.rs:29-35 | the new handler is the fresh snapshot and satisfies the invariant |
| Handler.ConnectionHandler.ReadInto | src/main.rs:45 | a read puts its octets at the front of the reused buffer and leaves the rest as it was |
| Handler.ConnectionHandler.Step | src/main.rs:38-150 | one iteration of the loop does what `Next` says, and keeps the invariant |
| Handler.ConnectionHandler.Handshake | src/main.rs:43-100 | the Authenticating arm, reading through the buffer, does what `Authenticate` says |
| Handler.ConnectionHandler.Answer | src/main.rs:57-99 | the reply to a classified read does what `Respond` says |
| Handler.ConnectionHandler.RelayOnce | src/main.rs:101-140 | the Established arm, copying through the reused buffer, does what `Relay` says |
| Handler.ConnectionHandler.Close | src/main.rs:141-149 | the Closing arm does what `Teardown` says |
| Handler.ConnectionHandler.Run | src/main.rs:37-151 | the loop runs until the handler returns or the answers run out, as `Steps` says, and keeps the invariant |
| Handler.HandleClient | src/main.rs:28-154 | `handle_client` on a fresh connection returns what `Steps` from the fresh snapshot gives |
| Session.ClientLogsIn | src/main.rs:39-87 | a well-formed client frame naming the expected user leads to Established with one child; the connection has received exactly the greeting and the shell nothing |
| Session.ClientTurnedAway | src/main.rs:88-92 | a well-formed frame naming an unauthorised user leads to exactly the rejection, no child, and an `Ok` return |
| Session.ClientHangsUp | src/main.rs:93-95 | a client that closes at once gets nothing, no child is started, and the handler returns `Ok` |
| Session.ShellSession | src/main.rs:101-149 | after a login and one relay step in which the shell exits, the connection has received the greeting and then the shell's output, the shell has received the keystrokes, and it is killed and waited for once before an `Ok` return |
| Session.StepsSplit | src/main.rs:37-151 | running two lists of answers one after the other is running their concatenation |

## Left out

- `main`, the TCP listener, the `--port` argument and the `USER` lookup (src/main.rs:13-18, 167-194) are not modelled. The handler takes the expected user and the alias flag as parameters.
- `create_pipe`, the raw file descriptors and the `/bin/sh` spawn (src/main.rs:66-85, 157-165) are modelled only by their outcome: success, or an error at the `?`. The `pipes` field stands for the three parent ends.
- The connection, the pipes and the child are not modelled as processes. Their answers come as one `Io` record per iteration: the bytes read or a failed read, the exit poll, and the first failing call.
- Blocking behaviour and timing are not modelled. The source's reads block, there is no `select`, and the loop has no timeout (src/main.rs:105, 139).
- `println!` and `eprintln!` logging is not modelled.
- The test client's socket set-up, its `select` loop and its exception handling (test-client.py:10-13, 17-42, 44-52) are not modelled. Only the frame it sends is.
- Handler.Relay: a `write_all` that fails is recorded as writing nothing. The octets it may have sent before failing are not modelled, so the traces are a lower bound on what was sent on an error path.
- Handler.Respond: likewise, a failing greeting or rejection write records nothing.
- Handler.Steps: the loop is bounded by the list of answers given. A loop that never returns is modelled only by its finite prefixes.
- Client.CredentialsFrame: each Python string is given by its UTF-8 encoding. A string that `encode('utf-8')` refuses, such as one holding a lone surrogate, is not modelled.
- Session.ClientLogsIn: the frame is assumed to arrive in one read and to fit the 1024-octet buffer, as the handler itself assumes. A frame split across reads is not modelled.
- Utf8.Trim: trimming is stated on octets, with the White_Space characters written as their UTF-8 encodings. It is only ever applied to pieces that are well-formed UTF-8, where it agrees with `str::trim` on characters.
- Session.ShellSession: it assumes that `child.kill()` succeeds on a shell that `try_wait` has already reaped. Whether it does depends on the Rust standard library version: older versions report `InvalidInput` there, and on those the normal shell-exit path ends in `Err` without calling `wait`. The model covers that outcome only through the `Kill` fault, which any iteration may carry.
