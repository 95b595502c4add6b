# Tor exit-node rotation client, modelled in Dafny

`TorProxy` is a client for a local Tor daemon. It reads its settings from a
configuration section and counts the identities it has used. On request, it
rotates the exit node over the Tor control port:

1. It reads the exit address as seen from outside.
2. On one connection it sends `AUTHENTICATE "<password>"` and `SIGNAL NEWNYM`.
3. On a second connection it authenticates again, lists the open streams with
   `GETINFO stream-status` and closes each one with `CLOSESTREAM <id> 1`.
4. It polls the exit address once per second until the address changes or
   the timeout runs out.

Each command sent through `SendCommand` (`AUTHENTICATE`, `SIGNAL NEWNYM`,
`CLOSESTREAM`) must be answered by exactly `250 OK` followed by the line
terminator. Any other reply raises a `ProxyException` that quotes the trimmed
reply and the command. `GETINFO` is not checked that way: its reply must match the single-line or the
multi-line shape of section 3.9 of Tor's control-spec.txt. Each row of the reply
is split on single spaces, and a stream-status row with fewer than four fields
is an error.

The model has five modules:

- `Errors`: the exception and the `Option`, `Outcome` and `Result` types.
- `Text`: the prefix scan, `String.Split` and `String.Join` on one character,
  and `String.Trim` with the .NET white-space set.
- `ControlProtocol`: the acknowledgement check and the `GETINFO` reply grammar.
- `ControlChannel`: the three control dialogues. The loops of `GetInfo`,
  `GetStreams` and `CloseStreams` are methods, each proved equal to a reference
  function.
- `SwitchableProxy`: the configuration, the poll bound, and the class
  `TorProxy`. Its `ExitNodesChanged` counter is a mutable field, and
  `ChangeExitNode` updates it.

The network is replaced by two oracles:

- `control: string -> string` gives the control port's reply to each command.
  The command is given without its terminator.
- `probe: nat -> string` gives the exit address the HTTP echo service reports.
  `probe(0)` is the address read before the rotation and `probe(k)` the one read
  by the k-th poll.

The line terminator (`Environment.NewLine`) is a parameter `nl`. The grammar
lemmas assume it is non-empty and made only of control characters, as `"\n"`
and `"\r\n"` are.

## Notes on the code

- **Number of polls.** The loop `for (i = 0; i < TotalSeconds; i++)` runs once
  for each natural number below the timeout. For a positive timeout that is its
  ceiling: 21 polls for 20.5 s, and 60 for the default 60 s. `PollBound` follows
  this.
- **Baseline address.** The exit address is read before the first
  `AUTHENTICATE` is sent, and that reading is `probe(0)`.
- **Trailing newline.** The final `$` of the .NET regular expression also
  matches just before one last `'\n'`. So a `GETINFO` reply with one extra
  trailing `'\n'` is still accepted, and the model keeps that.

## Model

| member | source | states |
|---|---|---|
| ControlProtocol.CheckAck | src/SwitchableProxy/TorProxy.cs:191-201 | the command passes exactly when the reply is `250 OK` followed by the terminator, as an ordinal string comparison; otherwise the error quotes the trimmed reply and the command |
| ControlProtocol.InfoReplyIsNotAck | src/SwitchableProxy/TorProxy.cs:178-199 | a reply that the GETINFO grammar accepts is never taken as a bare acknowledgement |
| ControlProtocol.ParseInfo | src/SwitchableProxy/TorProxy.cs:178-182 | a reply that does not match the grammar fails with the diagnostic for the command `GETINFO <key>` |
| ControlProtocol.ParseInfoAccepts | src/SwitchableProxy/TorProxy.cs:178-182 | GETINFO accepts a reply exactly when it is the rendering of a well-formed single-line or multi-line reply, with or without one extra trailing `'\n'` |
| ControlProtocol.ParseInfoSingleLine | src/SwitchableProxy/TorProxy.cs:178-187 | a single-line reply gives no row for an empty value, and otherwise one row, the value split on spaces |
| ControlProtocol.ParseInfoMultiLine | src/SwitchableProxy/TorProxy.cs:178-187 | a multi-line reply gives one row per data line, in order, each split on spaces |
| ControlProtocol.ParseInfoFields | src/SwitchableProxy/TorProxy.cs:178-185 | every row has at least one field, no field contains a space or a terminator character, and the fields joined with spaces form a line free of terminator characters |
| ControlProtocol.MatchInfoSound | src/SwitchableProxy/TorProxy.cs:178-179 | a successful match has a well-formed shape whose rendering is the reply, or the reply less one final `'\n'` |
| ControlProtocol.MatchInfoComplete | src/SwitchableProxy/TorProxy.cs:178-179 | the rendering of every well-formed shape is matched back to that shape, with or without one extra trailing `'\n'` |
| ControlProtocol.MatchBodySound | src/SwitchableProxy/TorProxy.cs:178 | an exact match is the rendering of the well-formed shape it returns |
| ControlProtocol.MatchBodyComplete | src/SwitchableProxy/TorProxy.cs:178 | an exact match recovers every well-formed shape from its rendering |
| ControlProtocol.SingleLineSound | src/SwitchableProxy/TorProxy.cs:178 | the first alternative accepts only `250-<key>=<value>` NL `250 OK` NL with a value free of terminator characters |
| ControlProtocol.MultiLineSound | src/SwitchableProxy/TorProxy.cs:178 | the second alternative accepts only `250+<key>=` NL, non-empty rows each ended by NL, then `.` NL `250 OK` NL |
| ControlProtocol.MatchedEndsWithAck | src/SwitchableProxy/TorProxy.cs:178 | every exactly matched reply ends with the terminator, right after the final `K` of `250 OK` |
| ControlProtocol.SplitJoinLines | src/SwitchableProxy/TorProxy.cs:178 | lines free of terminator characters, each followed by the terminator, are cut back into the same lines |
| ControlProtocol.JoinSplitLines | src/SwitchableProxy/TorProxy.cs:178 | whatever is cut into lines is rebuilt by putting the terminator back after each line |
| ControlProtocol.SplitLinesAvoid | src/SwitchableProxy/TorProxy.cs:178 | lines cut from a reply contain no terminator character (the `[^NL]+` class) |
| ControlProtocol.SplitRowsLossless | src/SwitchableProxy/TorProxy.cs:184-185 | one field list per captured row, in capture order; the fields of each row, joined with spaces, give the row back, and no field contains a space |
| ControlChannel.GetInfo | src/SwitchableProxy/TorProxy.cs:168-188 | the loop over the captures returns what `ParseInfo` specifies for the reply to `GETINFO <key>` |
| ControlChannel.StreamsFromRowsOk | src/SwitchableProxy/TorProxy.cs:156-162 | the rows convert exactly when each has at least four fields, giving one record per row, in row order, made of the row's first four fields |
| ControlChannel.StreamsFromRowsErr | src/SwitchableProxy/TorProxy.cs:158-159 | a failed conversion reports the first row with fewer than four fields, joined with spaces |
| ControlChannel.GetStreams | src/SwitchableProxy/TorProxy.cs:151-165 | the loop returns what `ReadStreams` specifies: the GETINFO error, or the records of the rows, or the short-row error |
| ControlChannel.SendNewNymCommand | src/SwitchableProxy/TorProxy.cs:120-130 | AUTHENTICATE with the password is sent first, and SIGNAL NEWNYM only when it is acknowledged; the dialogue passes exactly when every command sent is acknowledged, and otherwise fails with the last command's error |
| ControlChannel.CloseEachSent | src/SwitchableProxy/TorProxy.cs:141-144 | the close loop sends `CLOSESTREAM <id> 1` for a prefix of the streams, in order |
| ControlChannel.CloseEachStops | src/SwitchableProxy/TorProxy.cs:141-144 | every close command but the last sent was acknowledged, and a failure is the error of the last one sent |
| ControlChannel.CloseEachPasses | src/SwitchableProxy/TorProxy.cs:141-144 | the close loop passes exactly when it sent one command per stream and all were acknowledged |
| ControlChannel.CloseEachAll | src/SwitchableProxy/TorProxy.cs:141-144 | the close loop passes exactly when every listed stream's close is acknowledged, and then it has sent one close per stream, in list order |
| ControlChannel.CloseStreams | src/SwitchableProxy/TorProxy.cs:133-148 | the method sends and fails exactly as the reference dialogue does: authenticate, GETINFO stream-status, then the close loop |
| ControlChannel.RotationCommandOrder | src/SwitchableProxy/TorProxy.cs:76-80 | the control part of a rotation passes exactly when AUTHENTICATE (whose reply is the same on both connections), SIGNAL NEWNYM and every close are acknowledged and the stream list is well formed; it then sends AUTHENTICATE, SIGNAL NEWNYM, AUTHENTICATE, GETINFO stream-status and one CLOSESTREAM per listed stream |
| SwitchableProxy.TorProxy.constructor | src/SwitchableProxy/TorProxy.cs:35-42 | each setting is the configured value or its default, and the counter starts at zero |
| SwitchableProxy.TestConfigurations | src/SwitchableProxy.Tests.Unit/TorProxyTest.cs:123-146 | an empty configuration gives enabled, 127.0.0.1, 9050, 9051, empty password and 60 s; the non-default one reads back disabled, 127.0.0.100, 19050, 19051, "111" and 20.5 s |
| SwitchableProxy.ConfiguredSettings | src/SwitchableProxy/TorProxy.cs:37-42 | a configuration that sets every key is read back as it is, with Disabled the negation of Enable |
| SwitchableProxy.TorProxy.ProxiesUsed | src/SwitchableProxy/TorProxy.cs:29 | zero exactly when disabled; otherwise one more than the number of successful rotations |
| SwitchableProxy.PollBound | src/SwitchableProxy/TorProxy.cs:82 | the smallest natural number not below the timeout |
| SwitchableProxy.PollBoundCounts | src/SwitchableProxy/TorProxy.cs:82 | the loop runs an iteration i exactly when i is below the bound |
| SwitchableProxy.PollBoundExamples | src/SwitchableProxy/TorProxy.cs:82 | 60 polls for 60 s and 21 for 20.5 s |
| SwitchableProxy.FirstChange | src/SwitchableProxy/TorProxy.cs:82-97 | some poll among the first n sees a new address exactly when one of them is the first to |
| SwitchableProxy.ChangedAtUnique | src/SwitchableProxy/TorProxy.cs:82-97 | only one poll is the first to see a new address |
| SwitchableProxy.PollExitNode | src/SwitchableProxy/TorProxy.cs:82-97 | the loop stops at the first poll, within the bound, that sees an address other than the baseline; when it runs out, every poll up to the bound saw the baseline |
| SwitchableProxy.TorProxy.ChangeExitNode | src/SwitchableProxy/TorProxy.cs:69-100 | disabled: nothing sent, nothing probed, nothing changed; otherwise the commands of the rotation dialogue are sent and its error is raised; after the dialogue, it succeeds at the first changed poll and the counter goes up by one, or it fails with "Failed to change the exit node" after the full bound with the counter unchanged; ProxiesUsed never decreases |
| SwitchableProxy.CountsUsedProxies | src/SwitchableProxy.Tests.Unit/TorProxyTest.cs:99-109 | an enabled proxy counts 1, 2, 3 proxies across two successful rotations |
| SwitchableProxy.DisabledCountsNothing | src/SwitchableProxy.Tests.Unit/TorProxyTest.cs:112-120 | a disabled proxy counts 0 before and after a rotation |
| Text.PrefixAvoidingAt | src/SwitchableProxy/TorProxy.cs:178 | the scan for the `[^NL]+` class ends exactly at the first terminator character |
| Text.JoinSplit | src/SwitchableProxy/TorProxy.cs:185 | `Split(" ")` loses nothing: joining the fields with spaces gives the row back |
| Text.SplitAvoids | src/SwitchableProxy/TorProxy.cs:185 | no field contains the separator |
| Text.SplitJoin | src/SwitchableProxy/TorProxy.cs:159 | splitting the space-join of space-free fields gives the fields back |
| Text.Trim | src/SwitchableProxy/TorProxy.cs:182 | the result is the slice of the reply between its leading and trailing white space, and it neither starts nor ends with white space |

## Left out

- Sockets and HTTP: connecting, sending, receiving and closing are replaced by the `control` and `probe` oracles, so connect, send and receive failures and HTTP errors are not modelled. Every oracle call returns a reply.
- The `control` oracle answers a command the same way every time it is sent. So the model cannot give the second `AUTHENTICATE` (in CloseStreams) a different reply from the first (in SendNewNymCommand), and `RotationCommandOrder` has a single condition for both.
- The connection boundaries: `sent` lists the commands in order but does not record which connection each was sent on (SendNewNymCommand and CloseStreams each open their own).
- Sleeps, wall-clock time, the asynchronous calls and the cancellation token: the model counts polls instead of seconds, and leaves out the 10-second grace sleep.
- `TimeSpan` and `double`: the timeout is a Dafny `real`, so floating-point rounding of `TimeSpan.FromSeconds` and of `TotalSeconds` is not modelled.
- SwitchableProxy.TorProxy.constructor: accepts every `real` timeout. It does not model the exception `TimeSpan.FromSeconds` raises for NaN, for an infinity, or for a timeout beyond the range of `TimeSpan` (about 9.2e11 s).
- SwitchableProxy.TorProxy.ChangeExitNode: does not model wrap-around of the 32-bit loop counter or of the 64-bit `ExitNodesChanged`, because neither can be reached with realistic timeouts or call counts.
- GetCurrentExitNodeAsync: the whole HTTP request, the `Trim` of the body included, is the `probe` oracle, so the model compares the addresses `probe` returns.
- Reading the configuration: `Configuration` holds the values already converted, so conversion errors of `IConfiguration.GetValue` are not modelled.
- The regular-expression engine: the model states the one grammar the client builds for the keys it uses. It does not model what happens when a key contains regex metacharacters, which the client does not escape.
- ASCII encoding and receive-buffer sizing: a reply is the whole text returned for a command, with no partial reads.
- Logging, Dispose and the HttpClient/SOCKS handler set-up: no effect on the modelled state.
- ISwitchableProxy.cs and ProxyException.cs are not part of this model beyond the exception's message, which is `ProxyError.ProxyException`.
