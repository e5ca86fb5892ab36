# unity-basic-multiplayer: the protocol core in Dafny

This project models the protocol of the Unity library unity-basic-multiplayer, with the Unity and socket plumbing taken away. A server and its clients talk over TCP. Every message is one line of ASCII text. A line is a command name followed by space-separated arguments. Each argument is the base64 (section 4 of RFC 4648) of its UTF-16LE bytes.

The model covers four parts:

- **The command codec.** Modules `MultiplayerCommand`, `Base64Helper`, `Base64`, `Utf16`, `Ascii` and `Strings`.
  - `MultiplayerCommand.Parse` and `ToString` are methods with the source's loops. Each is proved against the function spec `ParseLine` or `Format`.
  - The round trip is proved: parsing a printed command gives it back when its name has no space and every argument is well-formed UTF-16.
  - Characters are UTF-16 code units (`Strings.Unit`). `Encoding.Unicode` is modelled with .NET's replacement of lone surrogates by U+FFFD. The unconditional round trip is therefore `Decode(Encode(t)) == Ok(Scrub(t))`.
  - The copies of the codec at the repository root (`RootMultiplayerCommand`, `RootBase64Helper`) are proved to compute what the Runtime copies compute.
- **The line framing** (module `Framer`). The server's and the client's read loops share it.
  - A read is appended to a buffer.
  - When the chunk just read ends in `'\n'`, the whole buffer is `TrimEnd`'d, split on `'\n'` and cleared.
  - The source's quirks are kept and proved:
    - a lone `"\n"` gives one empty line;
    - an interior blank line gives an empty command;
    - a command with one empty last argument (`"msg "`) loses that argument when it is the last line of the buffer.
  - The framing theorem: however the bytes of framable commands are cut into reads, they arrive as exactly those commands.
- **The server** (`ServerLogic`, `Server`).
  - `ServerLogic` describes the session table, the id counter, each connection's heartbeat countdown and buffer, and one iteration of the per-connection routine, as functions on values.
  - The class `Server.Server` holds the same state in fields. Its methods are proved to leave exactly the state those functions describe. They keep an invariant:
    - ids are never reused;
    - every live connection has a routine;
    - a closed connection is gone for good;
    - `OnClientAuthenticated` and `OnMessageReceived` run only for authenticated connections (`OnClientClosed` also runs for a connection that never authenticated);
    - everything written is ASCII.
  - Writes and callbacks become events in a log.
- **The client** (`ClientLogic`, `Client`). It is built the same way, over `_running`, `_authenticated`, the pending password request, the ping countdown and the time of the last ping.

Module `Protocol` joins the two ends. Every command one side writes is framed and parsed intact by the other, and is handled as intended. Both halves of the password handshake are proved end to end.

Time and the outside world are parameters:
- An iteration receives the time elapsed since the last frame (`elapsed`, an integer number of milliseconds) and, on the client, the clock (`now`).
- The stream offers an `Input`: `Idle` (no data available), `Data(chunk)` or `ReadFailed` (the read threw).
- A write throws when the connection's id is in `down` (server) or when `broken` is set (client).

## Model

| member | source | states |
|---|---|---|
| MultiplayerCommand.ToString | Runtime/MultiplayerCommand.cs:34-45 | the StringBuilder loop builds exactly `Format(c)`: the name, then `' '` and the encoding of each argument in order, with no trailing separator |
| MultiplayerCommand.Parse | Runtime/MultiplayerCommand.cs:19-32 | the array-filling loop yields exactly `ParseLine(input)`: FormatException as soon as one token fails to decode |
| MultiplayerCommand.DecodeAll | Runtime/MultiplayerCommand.cs:22-26 | succeeds exactly when every token decodes, and then yields one value per token, each the decoding of its token, in order; otherwise FormatException |
| MultiplayerCommand.ParseName | Runtime/MultiplayerCommand.cs:20-29 | the parsed name is the input up to its first space, taken verbatim (not decoded) |
| MultiplayerCommand.ParseArgs | Runtime/MultiplayerCommand.cs:20-26 | Parse succeeds exactly when every token after the first decodes; it then yields parts-1 arguments, with `args[i-1]` the decoding of `parts[i]` |
| MultiplayerCommand.ParseRejects | Runtime/MultiplayerCommand.cs:25 | one argument token that is not base64 makes the whole Parse fail with the decode error |
| MultiplayerCommand.ParseEmpty | Runtime/MultiplayerCommand.cs:20-31 | `Parse("")` does not fail: it gives the empty name and no arguments |
| MultiplayerCommand.ParseTrailingSpace | Runtime/MultiplayerCommand.cs:20-31 | `Parse("cmd ")` gives `cmd` with one empty argument |
| MultiplayerCommand.FormatNameOnly | Runtime/MultiplayerCommand.cs:9-12 | the one-argument constructor has empty Args, so ToString prints just the name |
| MultiplayerCommand.FormatAppend | Runtime/MultiplayerCommand.cs:39-42 | one more argument adds exactly one separator and its encoding at the end |
| MultiplayerCommand.FormatIsJoin | Runtime/MultiplayerCommand.cs:34-45 | the printed line is the name and the encoded arguments joined by single spaces |
| MultiplayerCommand.RoundTrip | Runtime/MultiplayerCommand.cs:19-45 | for a name without a space, parsing the printed command gives back the name and the arguments with lone surrogates replaced |
| MultiplayerCommand.RoundTripWellFormed | Runtime/MultiplayerCommand.cs:19-45 | `Parse(ToString(c)) == c` when the name has no space and every argument is well-formed UTF-16 |
| MultiplayerCommand.FormatIsLine | Runtime/MultiplayerCommand.cs:34-45 | a printed command holds no `'\n'` when its name holds none, and is ASCII when its name is |
| MultiplayerCommand.FormatLastUnit | Runtime/MultiplayerCommand.cs:39-42 | a line whose last argument is not empty ends in a base64 character, never in white space |
| RootMultiplayerCommand.Parse | MultiplayerCommand.cs:19-32 | the root copy's loop computes the same ParseLine as the Runtime copy: split on `' '`, `parts[0]` verbatim, each later token decoded in order |
| RootMultiplayerCommand.ToString | MultiplayerCommand.cs:34-45 | the root copy's StringBuilder loop computes the same Format as the Runtime copy |
| RootMultiplayerCommand.ConstantsAgree | MultiplayerCommand.cs:47-71 | the nested Constants equal the Runtime names, so they are pairwise distinct, nonempty and free of spaces |
| MultiplayerConstants.CommandNamesAreTokens | Runtime/MultiplayerConstants.cs:9-27 | the six command names are pairwise distinct, nonempty, ASCII, and free of spaces and line feeds |
| MultiplayerConstants.SubStatusesDistinct | Runtime/MultiplayerConstants.cs:12-14 | the three authstatus sub-statuses are pairwise distinct |
| Base64Helper.Encode | Runtime/Base64Helper.cs:7-9 | the base64 of the 2n UTF-16LE bytes of an n-unit string: 4·⌈2n/3⌉ characters, all from `A-Z a-z 0-9 + / =`, well-formed base64 |
| Base64Helper.Decode | Runtime/Base64Helper.cs:11-13 | succeeds exactly on well-formed base64, otherwise FormatException, and always yields well-formed UTF-16 |
| Base64Helper.EncodeIsToken | Runtime/Base64Helper.cs:7-9 | an encoding is ASCII and never contains a space or a line feed |
| Base64Helper.DecodeEncode | Runtime/Base64Helper.cs:7-13 | Decode undoes Encode for every string, up to the replacement of lone surrogates |
| Base64Helper.DecodeEncodeWellFormed | Runtime/Base64Helper.cs:7-13 | `Decode(Encode(s)) == s` for every well-formed UTF-16 string |
| Base64Helper.EncodeDecodeEmpty | Runtime/Base64Helper.cs:7-13 | `Encode("") == ""` and `Decode("") == ""` |
| Base64Helper.DecodeRejects | Runtime/Base64Helper.cs:12 | Decode fails on a length that is not a multiple of 4, or on a character outside the alphabet and `'='` |
| Base64Helper.EncodeInjective | Runtime/Base64Helper.cs:7-9 | different well-formed arguments have different encodings |
| RootBase64Helper.Encode | Base64Helper.cs:5-7 | the root Encode is well-formed base64 with no space and no line feed |
| RootBase64Helper.Decode | Base64Helper.cs:9-11 | the root Decode succeeds exactly on well-formed base64 |
| RootBase64Helper.SameAsRuntime | Base64Helper.cs:5-11 | the root Encode and Decode equal the Runtime Encode and Decode on every input |
| RootBase64Helper.DecodeEncodeWellFormed | Base64Helper.cs:5-11 | the root round trip is exact for well-formed UTF-16 |
| RootBase64Helper.DecodeRejects | Base64Helper.cs:10 | the root Decode rejects malformed base64 with FormatException |
| Base64.Encode | Runtime/Base64Helper.cs:8 | `ToBase64String`: whole groups of four characters, one per three bytes rounded up, only alphabet characters or `'='` |
| Base64.Decode | Runtime/Base64Helper.cs:12 | `FromBase64String`, strict: the only failure is FormatException |
| Base64.ValueChar | Runtime/Base64Helper.cs:7-13 | the value of the character for a 6-bit value is that value (the alphabet of RFC 4648 Table 1) |
| Base64.EncodePadding | Runtime/Base64Helper.cs:8 | an encoding is well formed and ends in `(3 - n % 3) % 3` padding characters: at most two, and only at the end |
| Base64.DecodeEncode | Runtime/Base64Helper.cs:7-13 | decoding an encoding gives back the bytes |
| Base64.DecodeAccepts | Runtime/Base64Helper.cs:12 | the strict decoder accepts exactly the well-formed inputs, and yields 3 bytes per group minus the padding |
| Base64.DecodeRejects | Runtime/Base64Helper.cs:12 | input not in whole groups, or holding a character outside the alphabet and `'='`, is rejected |
| Base64.EncodeEmpty | Runtime/Base64Helper.cs:7-13 | the empty byte string encodes and decodes to empty |
| Utf16.GetBytes | Runtime/Base64Helper.cs:5-8 | `Encoding.Unicode.GetBytes` yields two bytes per code unit |
| Utf16.GetString | Runtime/Base64Helper.cs:5-12 | `Encoding.Unicode.GetString` always yields well-formed UTF-16 |
| Utf16.GetStringGetBytes | Runtime/Base64Helper.cs:5-13 | decoding the bytes of a string gives it back with its lone surrogates replaced, and unchanged when it is well formed |
| Utf16.UnitsLittleEndian | Runtime/Base64Helper.cs:5 | reading little-endian byte pairs back gives the code units |
| Utf16.Scrub | Runtime/Base64Helper.cs:5 | the replacement fallback keeps the length and always yields well-formed UTF-16 |
| Utf16.ScrubIdentity | Runtime/Base64Helper.cs:5 | the fallback changes exactly the strings that are not well formed |
| Utf16.ScrubIdempotent | Runtime/Base64Helper.cs:5 | replacing twice is replacing once |
| Utf16.WellFormedIsPaired | Runtime/Base64Helper.cs:5 | the recursive definition of well-formed UTF-16 is the position-wise one: every high surrogate is followed by a low one, and every low one follows a high one |
| Ascii.GetString | Runtime/MultiplayerConstants.cs:5 | `TcpEncoding.GetString` yields one ASCII unit per byte |
| Ascii.GetBytes | Runtime/MultiplayerConstants.cs:5 | `TcpEncoding.GetBytes` writes only bytes below 0x80 and never more bytes than units; an ASCII text is written byte for byte |
| Ascii.GetBytesSurrogates | Runtime/MultiplayerConstants.cs:5 | the replacement fallback writes one `'?'` for a whole surrogate pair and one for each lone surrogate |
| Ascii.GetStringGetBytes | Runtime/MultiplayerConstants.cs:5 | reading back what was written gives an ASCII string unchanged |
| Ascii.GetStringAppend | Runtime/Server.cs:213-214 | decoding a stream chunk by chunk gives what decoding it whole gives |
| Strings.TrimEnd | Runtime/Server.cs:217 | drops exactly the trailing white space: the result is a prefix, does not end in white space, and all that was cut is white space |
| Strings.Split | Runtime/Server.cs:217 | at least one piece, and no piece holds the separator |
| Strings.JoinSplit | Runtime/Server.cs:217 | joining the pieces of a split with the separator gives the original string |
| Strings.SplitJoin | Runtime/MultiplayerCommand.cs:19-45 | splitting a join of separator-free pieces gives the pieces back |
| Strings.ParseUInt | Runtime/Client.cs:94 | `uint.Parse` of plain digits: fails exactly on the empty string, a non-digit or a value above the uint range, and any value it yields is a uint |
| Strings.ToDecimal | Runtime/Server.cs:299 | `uint.ToString()` yields a nonempty string of decimal digits |
| Strings.ParseUIntToDecimal | Runtime/Server.cs:299 | parsing the id the server prints gives the id back, for every uint |
| Strings.ToDecimalInjective | Runtime/Server.cs:299 | different ids are printed differently |
| Framer.FeedReleases | Runtime/Server.cs:211-268 | a chunk that does not end in `'\n'` is only buffered; one that does clears the buffer and releases `'\n'`-free lines that join back to the trimmed buffer |
| Framer.FeedNewlineOnly | Runtime/Server.cs:216-217 | a buffer of just `"\n"` yields one empty line |
| Framer.FeedAsciiLine | Runtime/Server.cs:213-217 | reading an ASCII text ending in `'\n'` into an empty buffer releases the split of its trimmed text |
| Framer.FeedBlankLine | Runtime/Server.cs:217-222 | an interior blank line is released as an empty line, which parses as the empty command |
| Framer.FeedTrimmed | Runtime/Server.cs:217 | trailing white space before the final `'\n'` is lost |
| Framer.EmptyArgumentLine | Runtime/MultiplayerCommand.cs:20-45 | a command with one empty argument prints as `name + ' '`, and parses back with and without that space |
| Framer.EmptyArgumentAtEnd | Runtime/Server.cs:217 | as the last line of a buffer, `"msg "` loses its trailing space, so it arrives as `msg` with no argument |
| Framer.FeedTrailingSpace | Runtime/Server.cs:217 | a line ending in a space released last loses the space |
| Framer.EmptyArgumentInside | Runtime/Server.cs:217 | followed by another line, `"msg "` keeps its empty argument |
| Framer.FeedTwoLines | Runtime/Server.cs:217 | two lines read at once are released as two lines |
| Framer.WireLineAscii | Runtime/Server.cs:307-309 | a command with an ASCII name is written as ASCII, so the ASCII encoding does not alter it |
| Framer.TrimSplitStream | Runtime/Server.cs:217 | flushing a buffer of whole sendable lines releases exactly those lines |
| Framer.FlushAtBoundary | Runtime/Server.cs:216-268 | a read ending in `'\n'` releases a whole prefix of the lines sent, and what is still to come is the rest of them |
| Framer.Hold | Runtime/Server.cs:214-216 | a read not ending in `'\n'` is held, and the buffer still does not end in `'\n'` |
| Framer.FeedAllStream | Runtime/Server.cs:211-268 | the framing invariant: what has been read and not yet released, followed by what is still to come, is the stream of the lines still owed |
| Framer.FramingDeliversLines | Runtime/Client.cs:70-136 | however the bytes of sendable ASCII lines are cut into reads, exactly those lines are released, in order, and the buffer ends empty |
| Framer.FramableSendable | Runtime/Server.cs:307-309 | a framable command is written as an ASCII line that the framing delivers intact |
| Framer.FramingDeliversCommands | Runtime/Client.cs:162-165 | commands written one per line arrive, however the bytes are cut, as the same number of lines, each parsing back to the command written |
| ServerLogic.ProcessLines | Runtime/Server.cs:219-265 | dispatching a batch never adds or removes a connection, never touches a routine, and never changes the id counter |
| ServerLogic.HeartbeatPart | Runtime/Server.cs:203-209 | the heartbeat step changes no connection flag and no buffer |
| ServerLogic.InitialInv | Runtime/Server.cs:110-166 | the empty session table with the counter at 0 satisfies the invariant |
| ServerLogic.CloseInv | Runtime/Server.cs:278-292 | removing a live connection and calling OnClientClosed keeps the invariant |
| ServerLogic.StepInv | Runtime/Server.cs:195-276 | every iteration of a routine keeps the invariant |
| ServerLogic.HeartbeatPartInv | Runtime/Server.cs:203-209 | the heartbeat step keeps the invariant, and so does closing after it |
| ServerLogic.ReadPartInv | Runtime/Server.cs:211-273 | the read and dispatch of an iteration keep the invariant |
| ServerLogic.RegisterInv | Runtime/Server.cs:168-179 | adding a connection under the next id keeps the invariant and makes that id live |
| ServerLogic.AcceptInv | Runtime/Server.cs:168-188 | accepting a connection keeps the invariant |
| ServerLogic.AdmitInv | Runtime/Server.cs:179-188 | the first write to a new connection, closing it when the write throws, keeps the invariant |
| ServerLogic.WelcomeInv | Runtime/Server.cs:181-188 | the first write keeps the invariant and the connection live, whether or not it throws |
| ServerLogic.KickInv | Runtime/Server.cs:303-305 | Kick keeps the invariant |
| ServerLogic.SendMessageInv | Runtime/Server.cs:312-320 | SendMessageToClient keeps the invariant |
| ServerLogic.BroadcastInv | Runtime/Server.cs:322-326 | SendMessageToEveryone keeps the invariant |
| ServerLogic.AcceptFresh | Runtime/Server.cs:110-130 | the id given to a new connection is not live and no earlier event names it, except a failed send; the counter then grows by one, so later ids are larger |
| ServerLogic.ClosedOnce | Runtime/Server.cs:290-291 | no connection is closed twice |
| ServerLogic.AcceptWithoutPassword | Runtime/Server.cs:179-188 | with an empty password the connection becomes authenticated, is sent `authstatus success <id>`, and then OnClientAuthenticated runs |
| ServerLogic.AcceptWithPassword | Runtime/Server.cs:179-188 | with a password the connection stays unauthenticated and is sent `authstatus required` |
| ServerLogic.AcceptWriteFails | Runtime/Server.cs:168-292 | when the first write throws, the connection is removed again and only OnClientClosed runs |
| ServerLogic.DispatchMalformed | Runtime/Server.cs:222 | a line that does not parse raises the decode error and changes nothing |
| ServerLogic.DispatchUnauthenticated | Runtime/Server.cs:224-237 | before authentication every command but auth raises ClientNotAuthenticatedException and changes nothing; OnMessageReceived is not called |
| ServerLogic.DispatchRightPassword | Runtime/Server.cs:240-241 | the right password authenticates the connection, which is sent its id before OnClientAuthenticated runs |
| ServerLogic.DispatchWrongPassword | Runtime/Server.cs:243-250 | a wrong password is answered with `authstatus error "wrong password"`; Authenticated stays false; ShouldBeKicked is set exactly when kickAfterWrongPassword is set (or it already was) |
| ServerLogic.WrongPasswordEffect | Runtime/Server.cs:244-250 | the same, for the wrong-password branch on its own |
| ServerLogic.DispatchAuthWithoutPassword | Runtime/Server.cs:240 | an auth command without an argument raises IndexOutOfRangeException and changes nothing |
| ServerLogic.DispatchPing | Runtime/Server.cs:226-228 | once authenticated, ping is answered with pong |
| ServerLogic.DispatchMessage | Runtime/Server.cs:229-231 | once authenticated, msg calls OnMessageReceived with its first argument, and raises IndexOutOfRangeException without one |
| ServerLogic.DispatchInvalid | Runtime/Server.cs:232-233 | once authenticated, every other name, auth included, raises InvalidCommandException and changes nothing |
| ServerLogic.PasswordLineAuthenticates | Runtime/Server.cs:222-241 | the auth line a client prints for the right password authenticates the connection and calls OnClientAuthenticated |
| ServerLogic.AuthenticateWriteFails | Runtime/Server.cs:295-301 | when the success message cannot be written the flag is already set, but OnClientAuthenticated never runs |
| ServerLogic.KickIdempotent | Runtime/Server.cs:303-305 | Kick of a live id succeeds and sets ShouldBeKicked; kicking twice is kicking once |
| ServerLogic.KickUnknown | Runtime/Server.cs:304 | Kick of an id that is not live throws KeyNotFoundException and changes nothing |
| ServerLogic.StepKicked | Runtime/Server.cs:198-201 | a marked connection is closed at the top of the next iteration, before any heartbeat or read |
| ServerLogic.KickedBatchContinues | Runtime/Server.cs:219-265 | a kick issued during a batch does not stop it: the lines after it are still dispatched |
| ServerLogic.StepCountdown | Runtime/Server.cs:190-203 | while the heartbeat countdown stays positive, an idle iteration only runs the countdown down, whatever the authentication state |
| ServerLogic.StepHeartbeat | Runtime/Server.cs:203-209 | when the countdown reaches ≤ 0 it is reset to heartbeatInterval and exactly one heartbeat is written |
| ServerLogic.StepHeartbeatFails | Runtime/Server.cs:203-273 | a heartbeat that cannot be written ends the routine and closes the connection |
| ServerLogic.StepReadFails | Runtime/Server.cs:211-273 | a read that throws ends the routine and closes the connection |
| ServerLogic.StepBuffers | Runtime/Server.cs:211-216 | a chunk that does not end in `'\n'` is only appended to the buffer |
| ServerLogic.StepReads | Runtime/Server.cs:195-217 | before the countdown runs out, an iteration is its countdown followed by its read |
| ServerLogic.ProcessLinesIgnoring | Runtime/Server.cs:254-259 | with ignoreMessageHandlerExceptions the routine survives every batch |
| ServerLogic.ProcessLinesSkips | Runtime/Server.cs:254-259 | with it, a failing line is logged and the next line is dispatched |
| ServerLogic.ProcessLinesStops | Runtime/Server.cs:260-263 | without it, the first failing line is logged and ends the batch: no later line is dispatched |
| ServerLogic.ReadClosesOnHandlerFailure | Runtime/Server.cs:254-292 | a batch that ends the routine removes the connection from the table, and OnClientClosed is the last event |
| ServerLogic.SendMessageEffect | Runtime/Server.cs:312-320 | SendMessageToClient writes msg to a live connection whether or not it is authenticated; an unknown id or a failed write is only logged; nothing else changes |
| ServerLogic.BroadcastEffect | Runtime/Server.cs:322-326 | SendMessageToEveryone logs one delivery per id in the order given, and changes nothing else |
| Server.Server.constructor | Runtime/Server.cs:110-166 | a new server has no connections and its counter at 0, and satisfies the invariant |
| Server.Server.SendCommandToClient | Runtime/Server.cs:307-310 | writes the command and `'\n'` to a live connection; KeyNotFoundException for an unknown id; a failed write throws |
| Server.Server.Authenticate | Runtime/Server.cs:295-301 | sets the flag, writes the success message, then calls OnClientAuthenticated |
| Server.Server.Kick | Runtime/Server.cs:303-305 | only marks the connection, and keeps the invariant |
| Server.Server.HandleCommand | Runtime/Server.cs:221-253 | the per-command try block leaves the state that Dispatch describes |
| Server.Server.DispatchLines | Runtime/Server.cs:219-265 | the foreach over a batch ends in the state that ProcessLines describes, and reports whether the routine survives it |
| Server.Server.CloseClient | Runtime/Server.cs:278-292 | removes the connection and calls OnClientClosed |
| Server.Server.Step | Runtime/Server.cs:195-276 | one iteration: kick check, heartbeat, read and dispatch, in that order, as Step describes; keeps the invariant |
| Server.Server.CountDown | Runtime/Server.cs:203-209 | the heartbeat countdown of one connection, as HeartbeatPart describes |
| Server.Server.Read | Runtime/Server.cs:211-268 | appends a chunk to the connection's buffer and dispatches the lines it releases, as ReadPart describes |
| Server.Server.Accept | Runtime/Server.cs:129-188 | accepts a connection under the old counter value, which then grows by one, as Accept describes; keeps the invariant |
| Server.Server.Welcome | Runtime/Server.cs:181-188 | the first write to a new connection: its id when no password is set, otherwise the request for one |
| Server.Server.SendMessageToClient | Runtime/Server.cs:312-320 | writes msg, logging rather than propagating a failure; keeps the invariant |
| Server.Server.SendMessageToEveryone | Runtime/Server.cs:322-326 | sends to every live id exactly once, in the dictionary order it returns; keeps the invariant |
| ClientLogic.InitialInv | Runtime/Client.cs:41-54 | the state at the start of the routine satisfies the invariant |
| ClientLogic.CloseInv | Runtime/Client.cs:146-159 | closing and calling OnServerClosed keeps the invariant |
| ClientLogic.StepInv | Runtime/Client.cs:56-144 | every turn of the loop keeps the invariant: OnServerClosed runs once, at the end; OnAuthenticatedSuccessfully runs at most once, for an authenticated client; everything written is ASCII |
| ClientLogic.SendMessageInv | Runtime/Client.cs:167-179 | SendMessageToServer keeps the invariant |
| ClientLogic.DisconnectInv | Runtime/Client.cs:181-185 | Disconnect keeps the invariant |
| ClientLogic.DispatchRequired | Runtime/Client.cs:86-88 | `authstatus required` only records that the password is wanted |
| ClientLogic.DispatchFirstSuccess | Runtime/Client.cs:90-95 | the first success authenticates, withdraws the pending request and calls OnAuthenticatedSuccessfully with the id sent |
| ClientLogic.DispatchSuccessBadId | Runtime/Client.cs:91-94 | a success without a valid uint id still authenticates, but the callback is not called and the line fails |
| ClientLogic.DispatchLaterSuccess | Runtime/Client.cs:97-99 | a later success changes nothing |
| ClientLogic.DispatchError | Runtime/Client.cs:102-105 | `authstatus error` clears `_running`; only a missing reason also makes the line fail |
| ClientLogic.DispatchUnknownStatus | Runtime/Client.cs:85-106 | an unknown sub-status changes nothing; a missing one raises IndexOutOfRangeException |
| ClientLogic.DispatchPong | Runtime/Client.cs:112-113 | pong sets PingMilliseconds to now minus the time of the last ping |
| ClientLogic.DispatchQuiet | Runtime/Client.cs:109-111 | heartbeat and every unknown name change nothing |
| ClientLogic.DispatchMessage | Runtime/Client.cs:117-119 | msg calls OnMessageReceived with its first argument, and fails without one |
| ClientLogic.StepNotRunning | Runtime/Client.cs:56-159 | once `_running` is false, the next turn leaves the loop and closes |
| ClientLogic.DisconnectCloses | Runtime/Client.cs:181-185 | Disconnect only clears `_running`, and the next turn closes |
| ClientLogic.StepSendsPassword | Runtime/Client.cs:64-68 | a pending request is answered with `auth <password>` once, and the flag is cleared |
| ClientLogic.StepUnauthenticatedIdle | Runtime/Client.cs:58-68 | without a request, an unauthenticated idle turn changes nothing: no password, no ping, the countdown stands still |
| ClientLogic.StepPings | Runtime/Client.cs:58-62 | an authenticated turn whose countdown runs out resets it to pingInterval, records the time and sends one ping |
| ClientLogic.StepCountsDown | Runtime/Client.cs:58 | otherwise an authenticated idle turn only runs the countdown down |
| ClientLogic.StepPingFails | Runtime/Client.cs:58-141 | a ping that cannot be written ends the routine |
| ClientLogic.ProcessLinesKeepsCountdown | Runtime/Client.cs:78-133 | dispatching never touches the ping countdown |
| ClientLogic.StepKeepsCountdownUnauthenticated | Runtime/Client.cs:47-58 | before authentication the countdown stands still, so it is still 0 and the first authenticated turn pings |
| ClientLogic.StepKeepsAuthenticated | Runtime/Client.cs:56-144 | authentication, once gained, is never lost |
| ClientLogic.ProcessLinesIgnoring | Runtime/Client.cs:122-127 | with ignoreMessageHandlerExceptions the routine survives every batch |
| ClientLogic.ProcessLinesStops | Runtime/Client.cs:128-131 | without it, the first failing line is logged and ends the batch and the routine |
| ClientLogic.SendMessageUnauthenticated | Runtime/Client.cs:170-178 | before authentication nothing is written and the refusal is only logged |
| ClientLogic.SendMessageAuthenticated | Runtime/Client.cs:174-178 | afterwards the message is written, or the failed write is logged |
| Client.Client.constructor | Runtime/Client.cs:41-54 | a client that has connected starts running, unauthenticated, with the ping countdown at 0, and satisfies the invariant |
| Client.Client.SendCommandToServer | Runtime/Client.cs:162-165 | writes the command and `'\n'`, or throws on a broken stream |
| Client.Client.HandleCommand | Runtime/Client.cs:80-121 | the per-command try block leaves the state that Dispatch describes |
| Client.Client.HandleAuthStatus | Runtime/Client.cs:84-108 | the inner switch on the sub-status, as AuthStatus describes |
| Client.Client.DispatchLines | Runtime/Client.cs:78-133 | the foreach over a batch ends in the state that ProcessLines describes |
| Client.Client.CloseRoutine | Runtime/Client.cs:146-159 | the finally block: the routine ends and OnServerClosed runs |
| Client.Client.Step | Runtime/Client.cs:56-144 | one turn of the loop, as Step describes; keeps the invariant |
| Client.Client.CountDown | Runtime/Client.cs:58-62 | the ping countdown, only while authenticated |
| Client.Client.AnswerAuthRequest | Runtime/Client.cs:64-68 | the password, sent once when the server asked for it |
| Client.Client.Read | Runtime/Client.cs:70-136 | appends a chunk to the buffer and dispatches the lines it releases |
| Client.Client.SendMessageToServer | Runtime/Client.cs:167-179 | refused before authentication; a failure is logged, not propagated; keeps the invariant |
| Client.Client.Disconnect | Runtime/Client.cs:181-185 | only clears `_running`; keeps the invariant |
| Protocol.ServerCommandsFramable | Runtime/Server.cs:186-299 | every command the server writes survives the codec and the framing |
| Protocol.MessageFramable | Runtime/Server.cs:315 | a message survives exactly when it is well-formed UTF-16 and not empty |
| Protocol.ClientCommandsFramable | Runtime/Client.cs:61-66 | ping always survives; the password does exactly when it is well formed and not empty |
| Protocol.WireDelivers | Runtime/Server.cs:307-309 | a command written as one line, read in however many chunks, arrives as one line that parses back to it |
| Protocol.ClientReadsAuthRequired | Runtime/Client.cs:86-88 | the client reads the server's `authstatus required` as a request for the password |
| Protocol.ClientReadsAuthSuccess | Runtime/Client.cs:90-99 | the id the server sends is the id the client reports, the first time; a repeated success changes nothing |
| Protocol.ClientReadsError | Runtime/Client.cs:102-105 | `authstatus error` with any well-formed reason stops the client |
| Protocol.ClientReadsAuthError | Runtime/Server.cs:245-247 | the server's wrong-password answer stops the client without a handler failure |
| Protocol.ClientReadsHeartbeatAndPong | Runtime/Client.cs:109-116 | the server's heartbeat changes nothing at the client; its pong measures the ping |
| Protocol.ClientReadsMessage | Runtime/Client.cs:117-119 | a well-formed message from the server reaches OnMessageReceived unchanged |
| Protocol.ServerReadsClient | Runtime/Server.cs:226-231 | on an authenticated connection the client's ping is answered with pong, and its message reaches OnMessageReceived unchanged |
| Protocol.ServerReadsPassword | Runtime/Server.cs:240-241 | the password line the client writes authenticates the connection when it is the server's password |
| Protocol.ServerHandshake | Runtime/Server.cs:181-241 | a new connection is asked for the password, and the right password then authenticates it under its id |
| Protocol.ClientHandshake | Runtime/Client.cs:64-96 | the request is answered with the password on the next turn, and the success that follows authenticates the client under the id it carries |

## Left out

- Unity lifecycle: `Awake`, the singleton guard, `DontDestroyOnLoad`, `StartServer`, `StartCoroutine`, `yield` and `Quit` are host scheduling. Each coroutine iteration is an explicit `Step`, and the interleaving of routines is not modelled.
- The command-line parsing in `Start` (`--server-port`, `--server-lifetime`, `--server-password`) is process startup. The password is a field of `ServerLogic.Config`.
- `ServerRoutine` is modelled by its effect on the table, `Server.Server.Accept` (id allocation, `_nextClientId++`). The listener, `Pending`, the `_lifetime` countdown, `Shutdown` and the closing loop in its `finally` are socket and process plumbing.
- Socket I/O: `TcpListener`, `TcpClient`, `NetworkStream`, `DataAvailable` and closing the streams are left out.
  - A read is an `Input`. The 1024-byte read buffer is not modelled, so a chunk may have any length.
  - A write is a log event, or a failure chosen by the caller (`down`, `broken`).
  - That failure is chosen once per iteration and connection, not per write: within one `Step` every write to a connection fails, or every write succeeds. A peer that resets between two writes of the same iteration (a heartbeat that is written, then a pong that fails and is logged while the next line is still dispatched) is not expressed.
  - The client's writes after its stream is closed are modelled as failures.
- `Client.Connect` is left out: the TCP connect and its failure path. `Client.Client.constructor` is the state after a successful Connect. The flags are not reset across a second Connect.
- Time: `Time.unscaledDeltaTime`, `heartbeatInterval`, `pingInterval` and `DateTime.Now` are integers (milliseconds) passed in. PingMilliseconds is an integer difference, not a double. No floating point is modelled.
- Runtime/Logger.cs and `Debug.Log`: log lines are not modelled. Only the observable outcomes are events: writes, callbacks, handler failures and failed sends.
- Callbacks (`OnClientAuthenticated`, `OnMessageReceived`, `OnClientClosed`, `OnAuthenticatedSuccessfully`, `OnServerClosed`) are events. They are assumed not to throw and not to call back into the component.
- An exception that escapes a coroutine outside its catch blocks is modelled as the end of that routine, with its `finally` block. Unity's own reporting of it is not modelled.
- Base64.Decode: strict decoding. `Convert.FromBase64String` also skips white space inside its input; the model rejects such input.
- Strings.ParseUInt: accepts plain decimal digits only. `uint.Parse` also allows leading and trailing white space and a leading sign, which the model rejects as a FormatError.
- Strings.TrimEnd: white space is the set of Unicode white-space code units. `EndsWith("\n")` is modelled as an ordinal comparison, not the culture-sensitive one .NET uses by default.
- Server.Server.Accept: `_nextClientId` is an unbounded natural number. The uint wrap after 2^32 connections, and the duplicate key that `_clients.Add` would then throw on, are not modelled.
- Server.Server.SendMessageToEveryone: the dictionary's enumeration order is not specified by .NET. The method chooses an order and returns it, and the contract holds for every order.
- An empty message sent as the last line of a read arrives without an argument (see `Framer.EmptyArgumentAtEnd`). Its handler then fails with IndexOutOfRangeException. This is the source's behaviour and is kept as it is.
