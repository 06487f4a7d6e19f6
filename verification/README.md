# WellnessHub desktop agents, modelled in Dafny

This project models the two command-executing agents of the WellnessHub
system.

**The local agent** (`agent/local_agent.py`) does the following:

- it defines a user-id extractor that reads the `sub` claim of a JWT
  (`get_user_id_from_jwt`). Nothing calls it: `main` takes the token from
  the command line and forwards it unchanged, as the join frame's
  `access_token`;
- it builds the Supabase Realtime URL;
- it connects, sends a Phoenix `phx_join` frame that subscribes to INSERTs
  on `public.commands`, and starts a heartbeat task;
- it handles each inbound frame (subscription replies, and
  `postgres_changes` INSERTs whose action is a key of `ACTION_MAP`);
- it reconnects after a five-second wait, forever.

**The desktop agent** (`desktop_agent.py`) polls a command file every two
seconds. When the file's modification time is newer than the last one acted
on, it plays the stripped path written in the file.

The model is made of pure functions over immutable data. Each Dafny module
covers one part:

| module | covers |
|---|---|
| `Wrappers` | `Option` and `Result` |
| `Json` | JSON values, Python truthiness, `dict.get`, `[]` and their exceptions |
| `PyStr` | `str.split`, `str.replace`, `str.strip`, `str(n)` |
| `Base64` | CPython's non-strict `b64decode`, plus an encoder as its partner |
| `Jwt` | `get_user_id_from_jwt`, which is defined but never called |
| `Realtime` | the URL, the join and heartbeat frames, `ACTION_MAP`, the heartbeat task |
| `Dispatch` | the receive loop |
| `Supervisor` | the reconnect loop and its join-ref counter |
| `Poller` | the desktop agent's watch loop |

Anything the environment decides is an input to the model. This covers:

- how each `websocket.send` goes;
- which frames arrive, and how the stream ends;
- whether an action handler raises;
- what `os.path.exists`, `getmtime` and `read` return.

The model follows the code as written; in particular:

- The JWT's segment count is never checked. Only the piece after the first
  `.` is decoded, with the standard base64 alphabet rather than base64url.
- A frame that is not JSON, a frame that is not an object, a missing key
  and an action handler that raises are not caught per frame. Each one
  leaves the receive loop and ends the session, which is then retried
  after the backoff.
- The join `ref` counter is created once, outside the reconnect loop. It
  is never reset, and it grows only when a join send went through. The
  heartbeat task counts its own refs from 1.
- `heartbeat_task.cancel()` is reached only when the frame stream ends
  cleanly.

## Model

| member | source | states |
|---|---|---|
| PyStr.Split | agent/local_agent.py:125 | `str.split` on a non-empty separator always returns at least one piece |
| PyStr.JoinSplitRoundTrip | agent/local_agent.py:125 | joining the pieces of a split with the same separator gives back the original string |
| PyStr.SplitOnCharPieces | agent/local_agent.py:125 | splitting on a character gives one more piece than the string has occurrences of it, and no piece contains it |
| PyStr.SplitHasSecondPiece | agent/local_agent.py:125 | `split('.')[1]` exists exactly when the string contains a `.` |
| PyStr.SecondPiece | agent/local_agent.py:125 | for `head.mid` followed by nothing or by a `.`-led rest, the piece at index 1 is `mid` |
| PyStr.Replace | agent/local_agent.py:234 | replacing with a longer string never shortens the text, and replacing with a shorter one never lengthens it |
| PyStr.ReplaceIsJoinOfSplit | agent/local_agent.py:234 | `replace` equals splitting on the pattern and joining with the replacement |
| PyStr.ReplaceWithItself | agent/local_agent.py:234 | replacing a pattern with itself changes nothing |
| PyStr.ReplaceAbsent | agent/local_agent.py:234 | a string in which the pattern does not occur is returned unchanged |
| PyStr.ReplaceSkipsPrefix | agent/local_agent.py:234 | a prefix with no match starting inside it is kept as it is |
| PyStr.ReplaceLeading | agent/local_agent.py:234 | a leading occurrence of the pattern is replaced and the rest is processed on |
| PyStr.Strip | desktop_agent.py:47 | the result is a contiguous slice of the input, all cut characters are whitespace, and the result neither starts nor ends with whitespace |
| PyStr.StripEmptyIffAllSpace | desktop_agent.py:47-48 | the stripped text is empty exactly when the file holds only whitespace |
| PyStr.StripIdempotent | desktop_agent.py:47 | stripping twice is the same as stripping once |
| PyStr.DecimalString | agent/local_agent.py:145 | `str(n)` is a non-empty run of digits with no leading zero |
| PyStr.ParseDecimalString | agent/local_agent.py:177 | reading `str(n)` back as a number gives `n` |
| PyStr.DecimalStringInjective | agent/local_agent.py:177 | different counter values give different `ref` strings, and equal ones give equal strings |
| Base64.AlphabetChar | agent/local_agent.py:127 | every 6-bit value has a character that the decoder maps back to that value, and it is ASCII |
| Base64.AlphabetCharOfSextet | agent/local_agent.py:127 | each alphabet character has one value, whose character is that character |
| Base64.DataNext | agent/local_agent.py:127 | a data character keeps the decoder state well formed, clears the pad count and advances the quad position modulo 4 |
| Base64.StepOn | agent/local_agent.py:127 | decoding stops exactly at a pad that completes a quad; characters outside the alphabet write nothing |
| Base64.StepOnAlphabet | agent/local_agent.py:127 | an alphabet character is always treated as data |
| Base64.Decode | agent/local_agent.py:127 | a successful decode keeps at least the bytes already written |
| Base64.DecodeKeepsOutput | agent/local_agent.py:127 | decoding only appends: the bytes written before are kept unchanged at the front |
| Base64.DecodeCons | agent/local_agent.py:127 | decoding a string is one step on its first character followed by decoding the rest |
| Base64.DecodeBoundaryPads | agent/local_agent.py:127 | pads at a quad boundary are skipped and decoding succeeds with what was written |
| Base64.FirstChar | agent/local_agent.py:127 | the first character of a quad carries its six bits and writes nothing yet |
| Base64.SecondChar | agent/local_agent.py:127 | the second character of a quad completes the first byte |
| Base64.ThirdChar | agent/local_agent.py:127 | the third character of a quad completes the second byte |
| Base64.QuadArithmetic | agent/local_agent.py:127 | the four 6-bit groups of three bytes reassemble into those bytes |
| Base64.DecodeQuad | agent/local_agent.py:127 | a full quad decodes to its three bytes and leaves the decoder at a quad boundary |
| Base64.DecodeTwoTail | agent/local_agent.py:127 | three characters for two trailing bytes, then a pad, decode to exactly those bytes |
| Base64.DecodeOneTail | agent/local_agent.py:127 | two characters for one trailing byte, then two pads, decode to exactly that byte |
| Base64.DecodeAfterQuad | agent/local_agent.py:127 | the encoding of three or more bytes decodes its first quad and continues with the rest |
| Base64.DecodeShort | agent/local_agent.py:127 | fewer than three bytes, encoded and followed by two pads, decode back to themselves |
| Base64.EncodeUnpadded | agent/local_agent.py:127 | an unpadded encoding contains only alphabet characters |
| Base64.DecodeEncodeUnpadded | agent/local_agent.py:127 | decoding an unpadded encoding followed by at least two pads appends exactly the encoded bytes |
| Base64.B64Decode | agent/local_agent.py:127 | `b64decode` of a string with a non-ASCII character raises (None) |
| Base64.B64DecodeRoundTrip | agent/local_agent.py:127 | `b64decode(encode(b) + "==")` returns `b` for every byte string |
| Base64.NonAlphabetSkipped | agent/local_agent.py:127 | a character outside the alphabet, other than `=`, is ignored |
| Base64.UrlSafeSpellingRejected | agent/local_agent.py:127 | `+/8==` decodes to 0xFB 0xFF, while the base64url spelling `-_8==` of the same bytes fails |
| Jwt.DecodeClaims | agent/local_agent.py:125-128 | claims are decoded only when the token has a piece at index 1 after splitting on `.`, that piece with `"=="` appended base64-decodes, and its bytes are valid UTF-8 |
| Jwt.UserIdFromJwt | agent/local_agent.py:121-134 | a user id is returned exactly when the decoded claims are an object with a truthy `sub`, and it is that claim's value |
| Jwt.NoDotNoUser | agent/local_agent.py:125 | a token without a `.` yields no user id |
| Jwt.UserIdRoundTrip | agent/local_agent.py:121-131 | a token whose second segment is the unpadded encoding of claims with a truthy `sub` yields that `sub` |
| Jwt.OnlyClaimsSegmentMatters | agent/local_agent.py:125 | the header and any later segments (signature, extra segments) do not affect the result |
| Jwt.NonAsciiClaimsNoUser | agent/local_agent.py:127 | a non-ASCII claims segment yields no user id |
| Realtime.WebSocketUrl | agent/local_agent.py:234-235 | the URL is the base with both scheme replacements applied, each replacement written as split-then-join, followed by the realtime path, the key and `vsn=1.0.0` |
| Realtime.HttpsUrlBecomesWss | agent/local_agent.py:234-235 | an `https://` base becomes `wss://` and nothing else changes |
| Realtime.HttpUrlBecomesWs | agent/local_agent.py:234-235 | an `http://` base becomes `ws://`, not `wss://` |
| Realtime.OtherUrlUnchanged | agent/local_agent.py:234-235 | a base with neither scheme is used unchanged |
| Realtime.JoinFrame | agent/local_agent.py:166-178 | the subscribe frame is a `phx_join` on `realtime:public:commands` whose payload carries the token as `access_token`, with `ref` equal to `str(ref)` |
| Realtime.HeartbeatFrame | agent/local_agent.py:141-146 | the heartbeat frame is a `heartbeat` on `phoenix` with an empty payload object and `ref` equal to `str(ref)` |
| Realtime.HeartbeatTask | agent/local_agent.py:136-152 | the i-th delivered heartbeat carries ref i, counting from 1; the task is still running exactly when every send went through |
| Realtime.JoinFrameReadBack | agent/local_agent.py:166-178 | the join frame reads back as `phx_join` on `realtime:public:commands`, carrying the token and the ref it was built from |
| Realtime.HeartbeatFrameReadBack | agent/local_agent.py:141-146 | the heartbeat frame reads back as `heartbeat` on `phoenix`, with an empty payload and its ref |
| Realtime.FramesDifferByRef | agent/local_agent.py:145 | frames built with different refs differ |
| Realtime.LookupAction | agent/local_agent.py:115-119 | the lookup finds an action exactly when the name is that action's exact key |
| Realtime.HeartbeatFrom | agent/local_agent.py:136-152 | heartbeat frames carry consecutive refs, one per delivered send. The heartbeat task stops quietly at the first closed connection, crashes at the first other send failure, and otherwise keeps running |
| Dispatch.DispatchCommand | agent/local_agent.py:196-204 | an unhashable action raises TypeError from the `in` test. An action that is exactly a key invokes that handler once with the command's payload, raising exactly when the handler raises. Any invocation is of the named action with that payload |
| Dispatch.HandleChange | agent/local_agent.py:195-204 | on a `postgres_changes` frame, an INSERT whose data names a key of `ACTION_MAP` invokes that handler once with the command's payload, raising exactly when the handler raises. Any other such frame invokes no handler |
| Dispatch.HandleFrame | agent/local_agent.py:188-205 | a frame raises unless its text parses to a JSON object. At most one handler runs, and only for the command that frame carries |
| Dispatch.HandleMessage | agent/local_agent.py:188-205 | a command frame invokes its handler once with its payload, raising exactly when the handler raises; any other frame invokes nothing |
| Dispatch.CommandFrameInvokesOnce | agent/local_agent.py:195-202 | a parsed command frame gives exactly one invocation, and the handler's exception is the only way it raises |
| Dispatch.UnknownActionOnlyWarns | agent/local_agent.py:201-204 | an INSERT whose action string is not a key (matching is case-sensitive) only logs the warning |
| Dispatch.MissingActionOnlyWarns | agent/local_agent.py:197-204 | an INSERT without an action logs the warning for None |
| Dispatch.ReplyOnlyLogs | agent/local_agent.py:191-192 | a `phx_reply` never invokes a handler; it logs the subscription exactly on status "ok", and raises exactly when its payload is present but not an object |
| Dispatch.OtherEventIgnored | agent/local_agent.py:191-195 | a frame with any other event, or none, does nothing |
| Dispatch.MalformedChangeRaises | agent/local_agent.py:195-196 | a `postgres_changes` frame that lacks `payload`, `type`, or `data` on an INSERT raises KeyError |
| Dispatch.UndecodableOrNonObjectRaises | agent/local_agent.py:188-191 | text that is not JSON, and JSON that is not an object, raise without effect |
| Dispatch.LoopCons | agent/local_agent.py:187-205 | the loop handles the first frame, and continues with the rest only if that frame did not raise |
| Dispatch.LoopRaisesIffSomeFrameRaises | agent/local_agent.py:187-205 | the loop ends in an exception exactly when some frame raises, and the exception is that frame's |
| Dispatch.LoopAfterQuietFrames | agent/local_agent.py:187-205 | frames that do not raise hand control on; their effects come first, in order |
| Dispatch.Listen | agent/local_agent.py:187-205 | the receive loop ends the session with an exception exactly when one of its frames raises, and the exception is that frame's |
| Dispatch.ListenStopsAtFirstRaise | agent/local_agent.py:187-205 | the first raising frame ends the loop; later frames are never looked at |
| Dispatch.InvocationsAppend | agent/local_agent.py:202 | the handler calls of two effect runs are those of the first, then those of the second |
| Dispatch.ListenInvokesEachCommandOnce | agent/local_agent.py:187-202 | with no exception, the handler calls are exactly the command frames' commands, once each, in arrival order |
| Supervisor.Session | agent/local_agent.py:158-215 | a pass sends a join with the current ref and bumps the counter exactly when the join send went through; only then does it start a heartbeat and handle frames. It cancels the heartbeat exactly on a clean close, and always backs off five seconds. The recorded cause is the connect error, the failed join send, the first raising frame, or how the stream ended, in that order |
| Supervisor.Run | agent/local_agent.py:158-215 | every pass leaves one record, and the counter never decreases |
| Supervisor.JoinsAppend | agent/local_agent.py:180-181 | the joins of two runs of passes are those of the first, then those of the second |
| Supervisor.PrependJoin | agent/local_agent.py:177-181 | a join with ref `n` in front of joins numbered from `n + 1` gives joins numbered from `n` |
| Supervisor.PrependSession | agent/local_agent.py:177-181 | a pass that bumps the counter exactly when it sends a join keeps the join refs consecutive |
| Supervisor.JoinRefsConsecutive | agent/local_agent.py:156-181 | across all reconnections the joins sent carry consecutive refs from the start value, and the counter ends one past the last. The counter is never reset |
| Supervisor.NthJoinCarriesRefN | agent/local_agent.py:156-181 | the n-th join frame ever sent carries ref "n" |
| Supervisor.RunSnoc | agent/local_agent.py:158-215 | one more pass extends the run by exactly that pass's record and counter |
| Supervisor.Supervise | agent/local_agent.py:154-215 | the loop produces the run's records; every pass backs off five seconds; the counter ends at one more than the number of joins sent |
| Poller.InitialLast | desktop_agent.py:36-39 | the agent starts exactly when the startup `getmtime` does not raise, from the file's time, or from 0 when there is no file |
| Poller.PollOnce | desktop_agent.py:42-58 | the last time only grows; it moves to the file's time exactly when a newer file was read. A path is played exactly when that content strips to something non-empty, and the path is the stripped content. The long sleep follows exactly the non-FileNotFoundError failures |
| Poller.PrependCall | desktop_agent.py:45-50 | a call newer than the last time, in front of later calls, keeps the times increasing |
| Poller.Watch | desktop_agent.py:41-58 | played calls have strictly increasing times, each newer than the starting time and no newer than the final one, so no modification time is played twice |
| Poller.PlayedPathsAreStripped | desktop_agent.py:46-49 | every played path is non-empty and already stripped |
| Poller.NothingNewerNothingPlayed | desktop_agent.py:45 | while the file's time never exceeds the last one, nothing is played and the time stays |
| Poller.StartupCommandNeverPlayed | desktop_agent.py:36-45 | the command present at startup is never played while its time does not change |
| Poller.FailedReadIsRetried | desktop_agent.py:45-58 | a failed read leaves the time unconsumed, so the next pass plays the file |
| Poller.BlankContentConsumesTime | desktop_agent.py:46-50 | a whitespace-only file still consumes its time, so later content with the same time is not played |
| Poller.WatchIsPasses | desktop_agent.py:41-58 | the loop run with the real pass function is the watch |
| Poller.WatchLoop | desktop_agent.py:41-58 | the `while True` loop computes the passes played so far |
| Poller.RunWatcher | desktop_agent.py:34-58 | the agent starts unless the startup `getmtime` raises. It then runs the watch loop from the startup time, with increasing call times within the starting and final times |

## Left out

- The action handlers (`change_wallpaper`, `play_music`, `speak_message`), `play_media`, and the desktop-environment detection are OS calls. They are recorded as effects and not run. Whether a handler raises is an input.
- The asyncio scheduling, the 30-second heartbeat sleeps, and the interleaving of heartbeat sends with the receive loop are not modelled. Heartbeats are a per-session log of their own.
- `json.dumps` is not modelled. Frames stay JSON values.
- `json.loads` and UTF-8 decoding are given functions (`Jwt.Decoders`, the `loads` parameter). The model assumes nothing about their inner workings.
- `main`'s environment-variable and argument checks, logging, the KeyboardInterrupt exit, and the 2- and 5-second sleeps are left out. The sleeps appear only as the `sleep`/`backoff` values.
- Binary WebSocket frames are not modelled: every frame is text.
- `api/analyze.py`, `app.py` and `test_actions.py` are not part of this model.
- Poller.PollOnce: modification times are integers rather than floats. The loop only compares them with `>`.
- Jwt.UserIdFromJwt: the token's signature and segment count are not checked, and the standard alphabet is used. This is how the code is written. It is stated as a limitation, through Jwt.OnlyClaimsSegmentMatters and Base64.UrlSafeSpellingRejected, not as a defect.
- Base64.B64DecodeRoundTrip: only the round trip with `"=="` appended, as the code calls it, is proved. Strict-mode decoding (`validate=True`) is not modelled.
