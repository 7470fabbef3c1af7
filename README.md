# ObsidianIRC transport and update helpers, modelled in Dafny

This project models two pieces of sequential logic from the Tauri back end of
the ObsidianIRC desktop client and proves properties about them.

**The IRC connection manager (`src-tauri/src/socket.rs`), without sockets, TLS or tokio.**

- *Address parser* (`address.dfy`). `ParseAddress` and `ParseHostPort` map
  `ircs://host[:port]`, `irc://host[:port]` or a bare `host[:port]` to
  `(tls, host, port)`. The default ports are 6697 for TLS (section 2 of
  RFC 7194) and 6667 otherwise.
- *Frame decoder* (`framing.dfy`, `readloop.dfy`). The line buffer of the read
  task is cut at the first CR LF, again and again, as in the message framing
  of section 2.3 of RFC 1459 and section 2.3.1 of RFC 2812.
  - `SplitFrames` is the specification of that cut.
  - `ReadStep` and `Transcript` are the read loop as a state machine over a
    trace of read outcomes. A read is `Ok(bytes)` (end of stream is
    `Ok([])`) or `Err(text)`.
  - The class `ReadTask` is the loop itself. It has a `lineBuffer` field,
    emits into an `EventSink` (the application handle) and removes its entry
    from the registry. Its methods are proved against `SplitFrames`,
    `ReadStep` and `Transcript`.
- *Outbound normaliser and write task* (`outbound.dfy`).
  - `WithCrlf` appends CR LF unless the line already ends with it.
  - The class `WriteTask` holds the queue, the bytes written, the task status
    and the shutdown receiver's state.
  - Its `Run` loop follows a schedule of completed `select!` arms and is
    proved equal to the specification `WriteRun`.
- *Connection registry* (`registry.dfy`, `commands.dfy`). The class
  `SocketState` holds the map from client id to `ConnectionHandle`.
  - `Insert` (used by `connect`), `Remove` (used by the read task),
    `Disconnect` and `Send` update it in place.
  - `Commands.Connect` is the whole `connect` command. The dial and TLS
    outcomes are parameters.
- *Events* (`events.dfy`). These are the payloads emitted to the front end,
  with the exact field combinations the source builds.

**The release-version helpers (`src-tauri/src/commands/update.rs`)** (`update.dfy`, `semver.dfy`).

- `parse_version`, `parse_build_number`, `is_newer_version` and
  `get_asset_pattern`.
- The download-URL choice, and the decision part of `check_for_updates` once
  the releases have been fetched.
- Versions follow the numeric `MAJOR.MINOR.PATCH` form of Semantic
  Versioning 2.0.0 (section 2), ordered by precedence (section 11).

**Supporting modules.**

- `text.dfy`: `starts_with`, `ends_with`, `trim_start_matches`, `split` and
  `rsplit_once` on strings, and `Join`, the inverse of `split` that the
  proofs use.
- `numeric.dfy`: Rust's `u16`/`u32` `parse` and decimal rendering.
- `wrappers.dfy`: `Option` and `Result`.

**Behaviour worth knowing.**

- `parse_host_port` never fails. An empty host (`irc://`) is accepted:
  `Address.EmptyHostExample`.
- A read error emits ONE event that carries both the text
  `Read error: …` and `connected: false`. There is no separate disconnect
  event.
- When the read task removes an entry, or `connect` overwrites one, the
  stored handle is dropped. Dropping the `oneshot` sender completes the write
  task's shutdown receiver, so the write task is woken exactly as by
  `disconnect`. The model records this as `shutdownReady := true` on that
  writer.

## Model

| member | source | states |
|---|---|---|
| Address.ParseHostPort | src-tauri/src/socket.rs:326-338 | never an error; without a colon the whole input with the default port; if the whole input is the host, the port is the default; otherwise the host is the text before the LAST colon and the port is the `u16` parse of the text after it |
| Address.PortForcesSplit | src-tauri/src/socket.rs:327-332 | a `u16` after the last colon always forces the split there: the host is the text before that colon and the port is that value |
| Address.ParseAddress | src-tauri/src/socket.rs:311-323 | never an error; TLS exactly when the text starts with `ircs://`; a non-default port only when a colon was written; without either scheme, the whole text is parsed by `ParseHostPort` with 6667 and the connection is plain |
| Address.SchemeRoute | src-tauri/src/socket.rs:311-323 | with `ircs://` or `irc://` in front, the rest is parsed by `ParseHostPort` with 6697 or 6667 and the TLS flag of that scheme (`ircs://` is checked first) |
| Address.HostPortRoundTrip | src-tauri/src/socket.rs:326-338 | any host (colons included) followed by `:` and a rendered port parses back to that host and port |
| Address.AddressRoundTrip | src-tauri/src/socket.rs:311-338 | scheme + host + `:` + port parses back to the same endpoint |
| Address.AddressDefaultPort | src-tauri/src/socket.rs:312-317 | a colon-free host after a scheme gets that scheme's default port and is kept whole |
| Address.ExplicitDefaultPort | src-tauri/src/socket.rs:312-317 | for a colon-free host, writing the default port explicitly names the same endpoint as leaving it out |
| Address.BareAddress | src-tauri/src/socket.rs:318-321 | without a scheme the connection is plain, and a port after the last colon is honoured |
| Address.NoSchemeWithPort | src-tauri/src/socket.rs:312-318 | a host that does not start with a scheme still does not after `:` and a digit are appended |
| Address.BadPortKeepsWholeHost | src-tauri/src/socket.rs:331-334 | if the text after the last colon is not a `u16`, the whole input is the host, with the default port |
| Address.LastIndexOfUnique | src-tauri/src/socket.rs:327 | the colon `rsplit_once` splits at is the one with no colon after it |
| Address.TlsDefaultExample | src-tauri/src/socket.rs:312-314 | `ircs://irc.example.net` is TLS on 6697 |
| Address.BareAddressExample | src-tauri/src/socket.rs:318-321 | `host:1234` is plain, host `host`, port 1234 |
| Address.BadPortExample | src-tauri/src/socket.rs:331-334 | `host:notaport` is plain, the whole text is the host, port 6667 |
| Address.EmptyHostExample | src-tauri/src/socket.rs:315-317 | `irc://` is accepted, with an empty host and port 6667 |
| Text.TrimStartMatches | src-tauri/src/commands/update.rs:67 | the result is a suffix of the input that no longer starts with the pattern |
| Text.TrimRepeat | src-tauri/src/commands/update.rs:67 | any number of copies of the pattern in front of a text that does not start with it are all removed, and exactly that text is left |
| Text.LastIndexOf | src-tauri/src/socket.rs:327 | the index holds the character and none follows it; none means the character does not occur |
| Text.IndexOf | src-tauri/src/commands/update.rs:69 | the index holds the character and none precedes it; none means the character does not occur |
| Text.SplitOn | src-tauri/src/commands/update.rs:76 | at least one piece, and no piece contains the separator |
| Text.JoinSplitOn | src-tauri/src/commands/update.rs:76 | joining the pieces of a split with the separator gives the text back |
| Text.SplitOnJoin | src-tauri/src/commands/update.rs:76 | splitting the join of separator-free pieces gives the pieces back |
| Numeric.ParseUnsigned | src-tauri/src/socket.rs:329 | a value exactly when the text after at most one leading `+` is a non-empty run of digits whose value is below the type's limit, and then that value |
| Numeric.ParseUnsignedToDecimal | src-tauri/src/socket.rs:329 | every value's rendering parses back to it below the limit and overflows at or above it; a leading `+` changes nothing |
| Numeric.ToDecimal | src-tauri/src/socket.rs:196 | the rendering is digits only, without a leading zero |
| Numeric.DigitsValueToDecimal | src-tauri/src/socket.rs:196 | reading back the rendering of a number gives the number |
| Numeric.DigitsValueLeadingZero | src-tauri/src/socket.rs:329 | a leading zero does not change a digit string's value (`u16` parsing reads `0080` as 80) |
| Numeric.ParseNumericIdentifier | src-tauri/src/commands/update.rs:89-90 | an accepted identifier is below 2^64 and is exactly the canonical rendering of its value (no leading zero) |
| Numeric.ParseNumericIdentifierToDecimal | src-tauri/src/commands/update.rs:89-90 | every 64-bit value's rendering is accepted with that value |
| Framing.FindCrlf | src-tauri/src/socket.rs:102 | the first index where CR LF starts; none exactly when there is no CR LF |
| Framing.SplitFrames | src-tauri/src/socket.rs:101-122 | the cut lines followed by the remainder are the buffer; every line is a frame (ends with CR LF, no earlier CR LF); no CR LF is left in the remainder |
| Framing.SplitFramesUnique | src-tauri/src/socket.rs:101-122 | the split is the only way to write a buffer as frames plus a CR LF-free remainder |
| Framing.SplitFramesOfFrames | src-tauri/src/socket.rs:101-122 | frames fed back to back come out unchanged, and nothing is left |
| Framing.FirstLineIsFrame | src-tauri/src/socket.rs:102-104 | cutting just after the first CR LF gives a frame |
| Framing.FrameFirstCrlf | src-tauri/src/socket.rs:102 | a frame followed by anything has its first CR LF at the frame's end |
| Framing.SplitOneFrame | src-tauri/src/socket.rs:101-122 | a frame plus a CR LF-free remainder splits into that frame and that remainder |
| Framing.SplitTwoFrames | src-tauri/src/socket.rs:101-122 | two frames plus a CR LF-free remainder split into those two frames and that remainder |
| Framing.CompletedRemainder | src-tauri/src/socket.rs:98-122 | a CR LF-free remainder followed by CR LF is one whole line and nothing is left |
| Framing.TwoLinesAndAPartial | src-tauri/src/socket.rs:98-122 | `A CR LF B CR LF C` gives the lines `A CR LF` and `B CR LF` and keeps `C` |
| Framing.PartialCompleted | src-tauri/src/socket.rs:98-122 | the kept `C` followed by CR LF gives the line `C CR LF` |
| ReadLoop.ReadStep | src-tauri/src/socket.rs:66-140 | one turn of the read loop: it goes on reading exactly after a read of at least one byte; end of stream and a read error stop it |
| ReadLoop.TranscriptReading | src-tauri/src/socket.rs:66-141 | the loop is still reading after a whole trace exactly when every read in it delivered at least one byte |
| ReadLoop.DataStepConserves | src-tauri/src/socket.rs:96-107 | after an `Ok(n)` read with n > 0 the emitted lines followed by the new buffer are the old buffer followed by the chunk; every line is a frame, and the buffer holds no CR LF |
| ReadLoop.StepConserves | src-tauri/src/socket.rs:66-140 | per read: message bytes emitted plus what stays buffered (nothing after the close flush) equal the old buffer plus the bytes read |
| ReadLoop.TranscriptConserves | src-tauri/src/socket.rs:66-141 | the same conservation over a whole trace of reads |
| ReadLoop.EndOfTraceDelivery | src-tauri/src/socket.rs:66-141 | from an empty buffer, a trace ending in close delivers all bytes read as message data; one ending in an error delivers a prefix of them |
| ReadLoop.TranscriptCloses | src-tauri/src/socket.rs:68-138 | every event carries the task's id; exactly one `connected: false` once the loop stops, and it is the last event; an error stops the loop with exactly one event that carries both the error text and `connected: false` |
| ReadLoop.StepFrames | src-tauri/src/socket.rs:66-140 | one read keeps the buffer free of CR LF and emits only frames, apart from the flush on close |
| ReadLoop.TranscriptFrames | src-tauri/src/socket.rs:66-141 | over a whole trace: every message is a frame except at most the flushed remainder, which is second to last and holds no CR LF |
| ReadLoop.TranscriptNext | src-tauri/src/socket.rs:66-140 | while the loop is reading, the events so far followed by the next read's events are the events of the trace one read longer, with that trace's buffer and phase |
| ReadLoop.TranscriptStopped | src-tauri/src/socket.rs:66-141 | once the loop has stopped, the reads after that point change nothing |
| ReadLoop.TranscriptAppend | src-tauri/src/socket.rs:66-141 | the loop over two traces is the loop over the first, then (if still reading) the loop over the second from the buffer it left |
| ReadLoop.MessagesContent | src-tauri/src/socket.rs:110-117 | the message events of cut lines carry exactly those bytes and report no error or close |
| ReadLoop.NoTerminatorAccumulates | src-tauri/src/socket.rs:96-122 | chunks with no CR LF among them emit nothing and only accumulate in the buffer |
| ReadLoop.NoTerminatorThenClose | src-tauri/src/socket.rs:68-94 | a stream without CR LF that then closes yields exactly one message with all its bytes, then the close |
| ReadLoop.TwoDataReads | src-tauri/src/socket.rs:96-122 | two data reads emit the lines of the first, then the lines of what it left joined with the second |
| ReadLoop.PartialLineCompleted | src-tauri/src/socket.rs:96-122 | two whole lines and a partial one emit the two lines; a later CR LF completes the third and empties the buffer |
| ReadLoop.ReadTask.constructor | src-tauri/src/socket.rs:63-64 | a new read task has an empty line buffer and is reading |
| ReadLoop.ReadTask.Feed | src-tauri/src/socket.rs:96-122 | the extraction loop leaves the remainder `SplitFrames` gives and emits one message per cut line, in order |
| ReadLoop.ReadTask.Step | src-tauri/src/socket.rs:66-140 | one turn of the loop does what `ReadStep` says; on close or error the client's entry is removed and its writer's shutdown receiver completes, and nothing else in the map changes |
| ReadLoop.ReadTask.Run | src-tauri/src/socket.rs:66-141 | the whole loop emits what `Transcript` says and leaves its buffer and phase; once stopped, only the client's entry has been removed |
| Outbound.WithCrlf | src-tauri/src/socket.rs:157-161 | the result ends with CR LF and starts with the input; it is the input when that already ends with CR LF, else exactly two characters longer |
| Outbound.WithCrlfIdempotent | src-tauri/src/socket.rs:157-161 | normalising twice is normalising once |
| Outbound.LinesAppend | src-tauri/src/socket.rs:152-172 | the text written for two runs of payloads is the first's followed by the second's |
| Outbound.WriteStep | src-tauri/src/socket.rs:152-179 | one turn of the write loop: a stopped task does nothing; the write task never changes the shutdown receiver's state; only a running task with a queued payload or a completed shutdown receiver moves |
| Outbound.WriteRun | src-tauri/src/socket.rs:152-179 | the write loop over a schedule of completed `select!` arms never changes the shutdown receiver's state; what it does is stated by the lemmas below |
| Outbound.WriteStepMonotone | src-tauri/src/socket.rs:152-179 | one turn takes at most the head of the queue and only appends to the stream |
| Outbound.WriteRunMonotone | src-tauri/src/socket.rs:152-179 | over a schedule the queue only loses payloads from its front, at most one per turn, and the stream only grows |
| Outbound.WriteRunStopped | src-tauri/src/socket.rs:163-176 | a task that has stopped (error or shutdown) stays as it is |
| Outbound.WriteStepShape | src-tauri/src/socket.rs:152-179 | one turn either leaves queue and stream alone, or takes the head and writes its normalised line (unless the write failed and the task stopped) |
| Outbound.WriteRunShutdown | src-tauri/src/socket.rs:173-177 | the loop shuts down only after the shutdown receiver has completed |
| Outbound.WriteRunInOrder | src-tauri/src/socket.rs:152-179 | what is written is a prefix of the queue, in order, each payload normalised once; at most the one payload whose write failed is taken but not written |
| Outbound.DrainWritesAll | src-tauri/src/socket.rs:152-172 | N queued payloads and N successful writes put all of them on the stream in queue order and empty the queue |
| Outbound.WriteTask.constructor | src-tauri/src/socket.rs:199-200 | a fresh task has an empty queue, nothing written, is running, and no shutdown is signalled |
| Outbound.WriteTask.Enqueue | src-tauri/src/socket.rs:381-385 | a running task appends the payload behind the queue; a stopped one rejects it with `Failed to send data: channel closed` and changes nothing |
| Outbound.WriteTask.SignalShutdown | src-tauri/src/socket.rs:346-348 | only the shutdown receiver's state changes |
| Outbound.WriteTask.Run | src-tauri/src/socket.rs:152-179 | the loop ends in the state `WriteRun` gives for the schedule |
| Events.EventSink.Emit | src-tauri/src/socket.rs:110-117 | the event is appended after everything emitted before |
| Registry.SocketState.Insert | src-tauri/src/socket.rs:291-295 | the id maps to the new handle and the rest of the map is unchanged; a replaced handle is dropped, which wakes its writer |
| Registry.SocketState.Remove | src-tauri/src/socket.rs:91-93 | the id's entry goes, whatever it held, and the rest of the map is unchanged; its writer is woken by the drop |
| Registry.SocketState.Disconnect | src-tauri/src/socket.rs:342-353 | a present id loses only its entry and its shutdown is signalled once; an absent id gives `No connection found for client_id: …` and the map is unchanged |
| Registry.SocketState.Send | src-tauri/src/socket.rs:368-389 | the map never changes; an unknown id is an error; otherwise the payload is queued on that id's writer, or the send fails if the writer has stopped |
| Registry.SocketState.DropHandle | src-tauri/src/socket.rs:292-295 | dropping a handle completes its writer's shutdown receiver |
| Registry.DisconnectTwice | src-tauri/src/socket.rs:342-353 | a second disconnect of the same id fails with not-found |
| Commands.ConnectError | src-tauri/src/socket.rs:194-216 | no error exactly when the dial succeeded and, for a TLS endpoint, the connector was built and the handshake succeeded; a failed dial, connector or handshake gives `Failed to connect to …`, `Failed to create TLS connector: …` or `TLS handshake failed: …`, ending in the underlying error's text |
| Commands.Connect | src-tauri/src/socket.rs:184-308 | on a dial or TLS failure: the exact error text, no entry and no event. On success: fresh reader and writer, the entry overwritten with the new handle, the old writer woken, one `connected: true` event |
| Commands.Reconnect | src-tauri/src/socket.rs:291-295 | connecting twice under one id leaves one entry and emits two connected events |
| Update.ParseVersion | src-tauri/src/commands/update.rs:66-71 | always a value: a prefix of the tag with its leading `v`s removed, containing no `-`, followed by `-` or the end, and not starting with `v` |
| Update.ParseBuildNumber | src-tauri/src/commands/update.rs:75-83 | a build number found fits a `u32` |
| Update.BuildValue | src-tauri/src/commands/update.rs:78-79 | the value of a build part, after its `build` prefixes are trimmed, fits a `u32` |
| Update.BuildNumberIn | src-tauri/src/commands/update.rs:77-82 | a build number found by the loop fits a `u32` |
| Update.BuildOrZero | src-tauri/src/commands/update.rs:101-102 | the tag's build number when it has one, and 0 when it has none; either way it fits a `u32` |
| Update.IsNewerVersion | src-tauri/src/commands/update.rs:87-110 | never newer than the same version with the same tag; when either version does not parse, newer exactly when the texts differ; a newer parsed remote never has lower precedence than the current version |
| Update.BuildNumberSearch | src-tauri/src/commands/update.rs:77-82 | without a part starting with `build` there is none; otherwise the FIRST such part alone decides |
| Update.LaterBuildPartsIgnored | src-tauri/src/commands/update.rs:77-80 | for `-`-free parts joined by `-`, the first part starting with `build`, at any position, gives the build number, even when it has none; later parts never matter |
| Update.FirstBuildPartDecides | src-tauri/src/commands/update.rs:77-80 | `v1-buildx-build7` has no build number: `build7` is never looked at |
| Update.BuildPartValue | src-tauri/src/commands/update.rs:78-79 | `build{n}` is a build part whose value is n when n fits a `u32`, none otherwise |
| Update.TagVersion | src-tauri/src/commands/update.rs:66-71 | the tag `v{version}-build{n}` gives back the version text |
| Update.TagBuild | src-tauri/src/commands/update.rs:75-83 | the tag `v{version}-build{n}` gives back n when it fits a `u32` |
| Update.PlainTagRoundTrip | src-tauri/src/commands/update.rs:66-83 | the tag `v{version}` gives back the version text and no build number |
| Update.NewerIsKeyOrder | src-tauri/src/commands/update.rs:92-104 | when both versions parse, newer is exactly the lexicographic order on (major, minor, patch, build), with a missing build counting as 0 |
| Update.LexLessFour | src-tauri/src/commands/update.rs:92-104 | the reference lexicographic order on four fields, written out |
| Update.NewerIrreflexive | src-tauri/src/commands/update.rs:87-110 | nothing is newer than itself, whatever the text and tag |
| Update.NewerAsymmetric | src-tauri/src/commands/update.rs:92-104 | when both parse, newer in one direction excludes newer in the other |
| Update.FallbackIsInequality | src-tauri/src/commands/update.rs:105-108 | when either version does not parse, newer is exactly text inequality: symmetric, and tags are ignored |
| Update.FallbackExample | src-tauri/src/commands/update.rs:105-108 | `nightly` and `beta` are each newer than the other |
| Update.SameVersionByBuild | src-tauri/src/commands/update.rs:100-103 | for one version, build n is newer than build m exactly when n > m |
| Update.ParseVersionPlainExample | src-tauri/src/commands/update.rs:226 | `v0.2.4` gives `0.2.4` |
| Update.ParseVersionBuildExample | src-tauri/src/commands/update.rs:227 | `v0.2.4-build5` gives `0.2.4` |
| Update.ParseVersionBareExample | src-tauri/src/commands/update.rs:228 | `0.2.4` gives `0.2.4` |
| Update.ParseBuildNumberExample | src-tauri/src/commands/update.rs:233 | `v0.2.4-build5` gives 5 |
| Update.ParseBuildNumberLargeExample | src-tauri/src/commands/update.rs:234 | `v0.2.4-build123` gives 123 |
| Update.ParseBuildNumberPlainExample | src-tauri/src/commands/update.rs:235 | `v0.2.4` gives none |
| Update.IsNewerByVersionExample | src-tauri/src/commands/update.rs:241-243 | 0.2.4 is newer than 0.2.3; 0.2.4 is not newer than 0.2.5 |
| Update.IsNewerByBuildExample | src-tauri/src/commands/update.rs:246-247 | on 0.2.4, build 5 is newer than build 4 and not the other way round |
| Update.AssetPattern | src-tauri/src/commands/update.rs:45-62 | the pattern is empty exactly on platforms other than Linux, Windows and Android |
| Update.FirstMatch | src-tauri/src/commands/update.rs:195-198 | the index of the first asset whose name ends with the pattern; none exactly when no asset matches |
| Update.DownloadUrl | src-tauri/src/commands/update.rs:194-200 | the first matching asset's download URL, otherwise the release page |
| Update.OtherPlatformTakesFirstAsset | src-tauri/src/commands/update.rs:194-200 | with the empty pattern, the first asset whenever there is one, otherwise the release page |
| Update.CheckForUpdates | src-tauri/src/commands/update.rs:116-211 | a result exactly when releases were fetched and the list is not empty (`No releases found` otherwise); an update exactly when the first release's version is newer than the running one (configured or `0.0.0`, tag `v{current}`), carrying that release's version, tag, page and platform download |
| Update.BuildOfSameVersionIsNewer | src-tauri/src/commands/update.rs:92-103 | on a version tie, `v{version}-build{n}` with n > 0 is newer than the plain `v{version}`, which counts as build 0 |
| Update.SameVersionWithBuildIsOffered | src-tauri/src/commands/update.rs:116-189 | the running version's tag has no build number, so a release of the same version with any build number is always offered |
| Semver.Parse | src-tauri/src/commands/update.rs:89-90 | what parses is in range and is exactly the canonical text of the version |
| Semver.ParseFormat | src-tauri/src/commands/update.rs:89-90 | every in-range version parses back from its canonical text |
| Semver.Less | src-tauri/src/commands/update.rs:94-99 | precedence on (major, minor, patch): a lower version is a different version and never has a higher major |
| Semver.LessTrichotomy | src-tauri/src/commands/update.rs:94-99 | precedence is a strict total order: exactly one of less, equal, greater |
| Semver.LessTransitive | src-tauri/src/commands/update.rs:94-99 | precedence is transitive |

## Left out

- TCP connection setup, DNS, and TLS through `native_tls`, `tokio_native_tls`,
  `rustls` and `webpki_roots` are foreign libraries and network I/O.
  `Commands.Connect` takes their outcome as a parameter.
  - The Android-only `Invalid DNS name` error is not modelled.
  - The split of the stream into read and write halves is not modelled.
- Task spawning and concurrency are not modelled.
  - The read and write tasks are methods called in sequence.
  - The `tokio::select!` race between the queue and the shutdown receiver is
    a `schedule` parameter.
  - Races between a read task's own removal and a later `connect` or
    `disconnect` under the same id are not explored.
- The `mpsc` channel's capacity of 100 is not modelled. A send that waits for
  room is a plain append.
- The fixed 4096-byte read buffer: a read is any byte sequence.
- Outbound payloads are kept as characters. Their UTF-8 encoding into bytes
  (`as_bytes`) is not modelled.
- Tauri `emit` and serde serialisation: events are appended to a sequence.
- `listen` is an inert placeholder and is not modelled.
- Outbound.WriteStep: a failed `write_all` is modelled as putting nothing of
  that line on the stream. Bytes that a partial write may already have sent
  are not modelled, so `WriteRunInOrder` speaks of whole lines only.
- `Registry.SocketState.Send`: `write_tx.send` waiting for room on a full
  channel is not modelled. The model only says the payload was appended or
  rejected.
- In `check_for_updates`, these are not modelled: the HTTP request, the JSON
  decoding and logging.
  - Their outcomes are the `fetched` parameter.
  - The application's configured version is the `configVersion` parameter.
    `get_app_version` returns the same value as `Update.CurrentVersion`.
  - The error texts carry the underlying error's description as a string.
- In `check_for_updates`, the `Failed to parse version from tag` branch cannot
  happen, because `parse_version` always returns a value
  (`Update.ParseVersion`). It is not modelled.
- Semver.Parse: this is WEAKER than the `semver` crate. Versions with a
  pre-release or build-metadata suffix (`1.2.3-rc.1`, `1.2.3+x`) are
  treated as unparsable. `is_newer_version` then uses its text-inequality
  fallback for them, where the crate would compare precedence.
- `src-tauri/src/lib.rs` (bootstrap and plugin wiring) and
  `docker/echobot.py` (a test fixture) are not part of this model.
