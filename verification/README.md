# Fountain server: a verified model

The Fountain server talks to pump controllers over WebSockets. It signs what it sends, reads the
devices' pressure history and logs back by cursor, watches for silent devices, shows a live chart
in the browser and offers firmware updates. This project models those parts in Dafny and proves
what they keep over every run. `dafny verify dfyconfig.toml` checks all of it.

Code between two awaits is one atomic step. Where the source is an object that changes in place,
there is a class with the same fields; each of its methods is proved equal to a step of a small
state machine or to a function, and the theorems are about all runs of that machine. Ghost fields
(`log`, `trail`, `replaced`, ...) record the past; the program never reads them.

| files | part |
|---|---|
| `wrappers`, `lex`, `decimal`, `utf8`, `json`, `json_reader`, `jcs` | the canonical JSON text: a reader that gets every value back, unique decodability on any trailing input, member order |
| `golden`, `ideal` | fixed points of the wire format (the golden vector of `tests/test_auth_golden.py`, the string sample of RFC 8785); functions that meet the assumption about hash and MAC |
| `auth`, `mac_record`, `channel`, `handshake`, `session` | MAC input, its fields and their positions, sign and verify, replay counter, session proof, request correlation |
| `history`, `history_poll`, `mirror`, `chart` | the bounded sorted store, the ring protocol across reboots, the browser's copy, and the three together |
| `log_drain`, `log_repeats` | the device log: live ring, previous boot's slot, acknowledgement; what the files lack and repeat |
| `registry`, `watchdog` | which connection is current; when a device is declared offline |
| `versions`, `version_names`, `firmware`, `digest` | versions in file names, the two version orders, the offer decision, streaming digests |

## Where the code and its documentation part

The code is modelled as it is. Each of these is a counterexample, with the exact condition where
the code does what is documented:

- `fountain_proto/auth.py:37-38` calls the body text JCS. Python sorts member names by code point,
  RFC 8785 (section 3.2.3) by UTF-16 code unit. `Jcs.JcsOrderDeparture` gives two names that come
  out in the other order; `Jcs.JcsMemberOrder` says exactly which bodies agree.
- The 0x1F-separated record (`fountain_proto/auth.py:51`) is only unambiguous while the message's own
  texts hold no 0x1F. `Auth.TagExactIffUsFree`: in every session a tag admits its own message only,
  if and only if none of the message's six texts holds one; nonces and ids do not matter.
- `server/app.py:307-308` says that a boot change resets the history cursor, and `server/app.py:333`
  that a gap is reported. The batch that shows a boot change was still requested with the old
  cursor, and at cursor 0 nothing is reported (`server/app.py:332`). `HistoryPoll.SilentLoss` and
  `HistoryPoll.EvictedLoss` are runs in which samples vanish without a gap message,
  `HistoryPoll.SilentLossExact` says for every batch of every run which ones do and when there are
  any, `HistoryPoll.LostForever` that they never come.
- `fountain_proto/auth.py:110` says that a replay counter is reset per connection. The simulated
  device keeps one for all its connections (`esp_client_simulator.py:74`): it refuses the first
  signed messages of the next session (`Channel.StaleCounter`). `Channel.InOrderAccepted` says
  exactly which deliveries a counter accepts, wherever it stands.
- `HIST_SEQS` in `server/static/index.html` is never cleared. `Mirror.RebootBreaksMirror` is a
  reboot after which the browser lacks a sample; `Mirror.MirrorExact` says exactly after which polls
  it is in step, `Chart.BrowserExact` the same for every run of device, server and browser.
- "online" can be shown without any session: `Registry.OrphanHook`, with the exact condition in
  `Registry.OnlineExact`.
- The comment at `fountain_proto/server.py:42-43` promises detection in about 20 s. With the default
  numbers the evidence for the fast window has always expired first (`Watchdog.DefaultsAreSlow`);
  `Watchdog.NoFalseOffline` says exactly for which numbers the fast window can decide.
- `FIRMWARE_UPDATES/README.md:6` and `server/ota.py:15` say that the first dotted number of a file
  name is its version; the code takes the last. `VersionNames.LastDottedWins` gives names on which
  they differ, `VersionNames.FirstDottedExact` says exactly when they agree.
- `server/app.py:210` says one file per device and boot. A batch with boot id 0 is not
  recognized as one of another boot (`server/app.py:249`): inside a session that holds an id, the
  server puts its records into that id's file (`LogRepeats.MisfiledBatch`, `LogRepeats.MisfiledRun`;
  `LogDrain.RightFile` is the exact condition over runs). With a device that answers only requests
  of a session opened since its last reboot, as `_verify_s2c` makes it, this never happens, 0 as a
  boot id included: `LogDrain.CheckedFiles`.
- A record can stand in its log file more than once, in three ways. Live records are stored again by
  a later session, which reads from 0: `LogRepeats.ReconnectRepeats` shows it,
  `LogRepeats.LiveRepeatExact` and `LogRepeats.ReconnectRepeatExact` say exactly when. The slot of
  the previous boot is written again while an acknowledgement sent for it has not reached the device
  (`LogRepeats.SlotTwice`), and it brings records that were stored live while its boot ran
  (`LogRepeats.LiveThenSlot`); `LogRepeats.SlotRepeatExact` says exactly when a fetch repeats.

## Model

| member | source | states |
|---|---|---|
| `JsonReader.TreeSplit` | fountain_proto/auth.py:41-42 | The compact text of a value of any depth can be cut off any longer text in only one way: same text in front means same value and same rest. |
| `JsonReader.DumpRead` | fountain_proto/auth.py:41-42 | A reader written from the JSON grammar, with every escape, gets each value back from its compact text, its members in the order chosen, in front of anything that does not prolong a number. |
| `MacRecord.CanonicalBodyRead` | fountain_proto/auth.py:34-42 | The canonical bytes, decoded as UTF-8 and read as JSON, are the object of all non-envelope fields, in ascending order of their names by code point, with nothing behind it. |
| `Utf8.DecodeEncode` | fountain_proto/auth.py:42 | A decoder that takes only shortest forms of scalar values gets every text back from its bytes. |
| `JsonReader.DumpInjective` | fountain_proto/auth.py:41-42 | Different values never give the same text, whichever order the members are put in. |
| `Jcs.JcsMemberOrder` | fountain_proto/auth.py:37-38 | The text has RFC 8785's member order if and only if no object anywhere has two names that first differ in an astral character against one from U+E000 up. |
| `Jcs.JcsOrderDeparture` | fountain_proto/auth.py:41 | A body whose member order is not the one of RFC 8785. |
| `Golden.StringSample` | fountain_proto/auth.py:41-42 | The string sample of RFC 8785, section 3.2.2.2, around any two plain texts. |
| `Auth.CanonicalBodyExact` | fountain_proto/auth.py:34-42 | Two messages have the same canonical bytes if and only if their non-envelope fields are equal as unordered maps. |
| `Auth.JoinSplit` | fountain_proto/auth.py:49-57 | Two joined records of equally many fields are equal only if the fields are, as soon as each field of one of them is shared or holds no separator; nothing is asked of the other. |
| `MacRecord.MessagePositions` | fountain_proto/auth.py:52-56 | Setting one of v, type, serial, ts, msg_id, in_reply_to to a text changes exactly position 0, 1, 4, 5, 6, 7 of the record. |
| `MacRecord.OwnPositions` | fountain_proto/auth.py:52-56 | Setting direction, device id, kid, seq, server nonce, client nonce changes exactly position 2, 3, 8, 9, 10, 11. |
| `MacRecord.OtherValues` | fountain_proto/auth.py:52-57 | What values that are no text become in the record: str() of v and ts, "" for an empty optional field, an exception for any other. |
| `MacRecord.RecordRead` | fountain_proto/auth.py:49-57 | The MAC input, decoded and cut at U+001F, gives the twelve fields and the body hash in order, whenever no field holds that character. |
| `MacRecord.BodyFieldCounts` | fountain_proto/auth.py:30-46 | A change of any field but the seven named ones changes the tag, whatever the fields hold. |
| `MacRecord.TamperedRejected` | fountain_proto/auth.py:80-106 | A signed message with such a field changed on the way is rejected with mac_mismatch. |
| `MacRecord.Verdicts` | fountain_proto/auth.py:88-104 | When each refusal is given, and that an exception is left exactly for fields that cannot be encoded and a mac that is not ASCII. |
| `Auth.TagExact` | fountain_proto/auth.py:49-63 | A tag equals the tag of a message signed without separators in its texts, or in what the two ends do not share, if and only if key and all thirteen fields agree (absent and empty optional fields alike). |
| `Auth.VerifyExact` | fountain_proto/auth.py:80-106 | A message carrying a tag of a cleanly signed one is accepted if and only if its auth object is well formed and it agrees with the signed one on the key, direction, device, both nonces, the sequence number and the whole body. |
| `Auth.SignVerify` | fountain_proto/auth.py:66-106 | Signing raises exactly on messages whose fields cannot be encoded; whatever it signs is accepted in the same context. |
| `Auth.AcceptedSeq` | fountain_proto/auth.py:93-99 | The sequence number of an accepted message is the signed integer itself, not a bool or another value with the same text. |
| `Auth.TagBoundToSession` | fountain_proto/auth.py:80-106 | A tag made for another key, key id, direction, device or nonce is never accepted. |
| `Auth.SeparatorShift` | fountain_proto/auth.py:57 | Moving a separator from one field into its neighbour leaves the record as it is. |
| `Auth.TagExactIffUsFree` | fountain_proto/auth.py:49-106 | In every session, whatever its nonces and ids hold, a tag admits only the message it was made for if and only if that message's six texts hold no separator. |
| `Channel.AntiReplay.Check` | fountain_proto/auth.py:109-120 | Accepts exactly an integer (a bool is one) above the last, and adopts it only then. |
| `Channel.ReplaySafe` | esp_client_simulator.py:98-109 | Under any dropping, repeating, reordering, altering or injecting of messages, other sessions' and the other direction's included, and wherever the counter stands, the accepted ones are a subsequence of those the peer signed in this session, with strictly increasing positions, each genuine in every field. |
| `Channel.InOrderAccepted` | fountain_proto/auth.py:115-120 | When only genuine messages arrive, nothing is refused if and only if they arrive in order without repetition and the first one is above the counter, however many are missing. |
| `Channel.StaleCounter` | esp_client_simulator.py:74 | A counter that stands at k from an earlier session refuses messages 1 to k of the next one. |
| `Channel.NothingAfterError` | fountain_proto/auth.py:96-104 | A message on which verify raises ends the receive loop: nothing behind it is accepted. |
| `Handshake.PickIsFirst` | fountain_proto/devices.py:31-36 | The key chosen is the first offered one that the server knows, if and only if nothing before it is known or raises. |
| `Handshake.Greetings` | fountain_proto/session.py:182-203 | How a hello is answered: refused if and only if it offers not the scheme or no known key id, closed unless it is a hello, else the proof is awaited. |
| `Handshake.TextOffers` | fountain_proto/session.py:194-196 | A text in place of a list: its single characters are the key ids offered, and the scheme counts wherever in the text it stands. |
| `Handshake.BadProofs` | fountain_proto/session.py:213-225 | A proof of another key, or changed on the way, is rejected as mac_mismatch; one numbered below 1 as a replay. |
| `Handshake.ProofShowsKey` | fountain_proto/session.py:182-231 | A device that signs the session proof is let in if and only if it holds the server's key for the key id it offered and numbers the proof 1 or higher. |
| `Handshake.ProofBound` | fountain_proto/session.py:213-231 | Whatever a peer says, a session opens on a tag only if that tag was made with the server's key for this device and this session's nonces: nothing from another session opens it. |
| `Session.DeviceSession.constructor` | fountain_proto/session.py:56-76 | A session starts with no key, nothing pending, all counters 0. |
| `Session.DeviceSession.SignIfNeeded` | fountain_proto/session.py:89-94 | Control messages take consecutive numbers and the session's key and nonces, and raise, their number being spent, exactly when there is no key or a field cannot be encoded; the others change nothing. |
| `Session.DeviceSession.Greeted` | fountain_proto/session.py:182-231 | The negotiated flag is set exactly when the handshake is accepted; then key, key id and nonce are the chosen ones and the replay counter stands at the proof's number. |
| `Session.DeviceSession.BeginRequest` | fountain_proto/session.py:103-110 | A request takes the next id, is signed, and waits; if signing raises, the id is spent and nothing is pending. |
| `Session.DeviceSession.Dispatch` | fountain_proto/session.py:260-276 | A received message completes a future, is swallowed, reaches a callback or nobody: a step of the correlation machine. |
| `Session.DeviceSession.Timeout` | fountain_proto/session.py:113 | A timeout settles only a waiting request. |
| `Session.DeviceSession.EndRequest` | fountain_proto/session.py:114-115 | The finally block removes the request and returns what it was settled with. |
| `Session.MsgIdInjective` | fountain_proto/session.py:79-81 | Ids of different numbers differ. |
| `Session.RunsCorrelated` | fountain_proto/session.py:79-276 | In every interleaving, pending is exactly the requests in flight with the state their history gives them, ids are fresh, and every delivery goes where the history says. |
| `Session.RoutingExact` | fountain_proto/session.py:260-276 | In every run, for each of the five ways a message can go, when it goes there, if and only if: future, swallowed, callback, unhandled, failure. |
| `Session.EventFacts` | fountain_proto/session.py:79-115 | In every run each event has its effect: new ids s-1, s-2, ..., one route per message, expiry of the unsettled only, one return per request. |
| `Session.RequestsMatched` | fountain_proto/session.py:103-115 | An id is issued once, settled at most once, never settled after it returned, and returns once. |
| `Session.ReturnsItsAnswer` | fountain_proto/session.py:260-268 | What a request returns is a message that names its id and arrived while it was in flight. |
| `History.DeviceHistory.HistAdd` | server/app.py:285-302 | Adds one sample with the next insertion id; the list stays what the definition over all samples ever added says. |
| `History.DeviceHistory.InsertSorted` | server/app.py:298-301 | The backward scan inserts behind the last sample that is not later. |
| `History.StoreExact` | server/app.py:285-302 | After any sequence of samples with any timestamps, the store is exactly the last n of all of them in (t, i) order: streaming insert-and-trim is sort-then-trim. |
| `History.StoreShape` | server/app.py:285-302 | The store is ordered, has min(n, k) samples (all with n = 0), and everything dropped precedes everything kept. |
| `History.NeverReturns` | server/app.py:302 | A sample that the store dropped is never in it again. |
| `Mirror.NewerIs` | server/web.py:184-191 | The since_i filter keeps exactly the samples with a larger insertion id, in order. |
| `Mirror.LaterIs` | server/web.py:189-190 | The older filter by time keeps exactly the later samples, so it hides backdated ones. |
| `Mirror.ApiExact` | server/web.py:184-191 | What a request gets: since_i wins over since, and with neither it gets all, in order. |
| `Mirror.Page.InsertSorted` | server/static/index.html:402-404 | The backward scan and splice insert as the server does. |
| `Mirror.Page.PollHistory` | server/static/index.html:388-407 | The loop with dedup, sorted splice and cap computes one poll of the client model. |
| `Mirror.CapOnly` | server/static/index.html:406 | Cutting the list after every poll gives what cutting once at the end gives. |
| `Mirror.MirrorsHistory` | server/static/index.html:388-407 | Whatever was inserted (backdated or not) and trimmed between polls, a client that has dropped nothing ends, right after each poll, in exactly the server's store, in order. |
| `Mirror.MirrorExact` | server/static/index.html:388-407 | For every store size and every sequence of polls: after a poll the client ends in the newest 6000 of the store if and only if none of these was dropped, at this poll or before. |
| `Mirror.DroppedIs` | server/static/index.html:396-399 | Dropped are exactly the samples whose seq an earlier delivered sample carried. |
| `Mirror.RebootBreaksMirror` | server/static/index.html:387 | Two samples with the same seq, polled one after the other: the client lacks the second one. |
| `HistoryPoll.DeviceState.Absorb` | server/app.py:326-362 | What the poller does with a batch: cursor, announced gap and stored samples are those of the protocol step. |
| `HistoryPoll.DeviceState.AddRows` | server/app.py:345-362 | The loop over the rows stores exactly the new ones, skipping malformed and known rows. |
| `HistoryPoll.RunInv` | server/app.py:304-363 | Every run of sampling, eviction, reboots, lost and received answers keeps the protocol invariant. |
| `HistoryPoll.RingPartition` | server/app.py:326-362 | Between two seqs of a boot that were dealt with, each seq was either received or announced as a gap: exactly one of the two, exactly once. |
| `HistoryPoll.AtMostOnce` | server/app.py:321-362 | Over reboots and reconnects, the seqs received from each boot strictly increase and boots are received in order. |
| `HistoryPoll.GapsEvicted` | server/app.py:332-337 | An announced gap names only samples that the device no longer has. |
| `HistoryPoll.NoFalseReset` | server/app.py:328-329 | The cursor restarts on a batch if and only if the batch is from another boot. |
| `HistoryPoll.RestartExact` | server/app.py:328-329 | A device that starts over under the same boot id is read from the start again; a batch that goes on from the cursor is not. |
| `HistoryPoll.AnswerIs` | esp_client_simulator.py:263-278 | The device answers with its boot, next seq, first available seq and clock, and exactly the first 100 of its samples above the cursor. |
| `HistoryPoll.SilentLossExact` | server/app.py:321-352 | In every run, receiving a batch passes over seqs without delivering or announcing them exactly if the batch is of another boot than the cursor, or the cursor is 0, some row arrives, and the cursor was positive or samples were evicted; they are all the seqs before its first row. |
| `HistoryPoll.SilentLoss` | server/app.py:321-331 | A run with a reboot that reaches this case: sample 1 of the new boot is lost. |
| `HistoryPoll.EvictedLoss` | server/app.py:332 | A run in which the very first batch comes after an eviction: sample 1 is lost. |
| `HistoryPoll.LostForever` | server/app.py:328-352 | Nothing later in the run delivers or announces a seq that was lost so. |
| `HistoryPoll.PromptLosesNothing` | server/app.py:70-72 | With at most 100 samples between successive batches of a boot, no gap is announced, received seqs are consecutive, and they reach the end of the last batch. |
| `Chart.AbsorbInStep` | server/app.py:345-361 | The samples a batch adds to the store carry exactly the seqs the protocol received. |
| `Chart.BatchStored` | server/app.py:338-361 | In every run, receiving a batch adds for each seq it delivers exactly one sample, with the pressure the device recorded for it, and its time carried over to the server's clock. |
| `Chart.BrowserExact` | server/static/index.html:388-407 | In every run of device, server, live reports and browser, over any number of boots: after a poll the browser is in step if and only if no sample still in the store carries a seq that a sample delivered before it had carried. |
| `Chart.OneBootMirrors` | server/static/index.html:388-407 | In every such run within one boot the browser is in step after every poll, since no seq is delivered twice. |
| `LogDrain.LogPoller.LogStore` | server/app.py:208-222 | Appends all records to the file; the UI list is the last 200 lines written. |
| `LogDrain.TailShape` | server/app.py:220-222 | The UI list is the last 200 lines written, in order. |
| `LogDrain.LogPoller.OnBatch` | server/app.py:247-276 | A batch of a new boot is discarded and the cursor restarts at 0; any other is stored and moves the cursor to its largest s. |
| `LogDrain.LogPoller.OnPrev` | server/app.py:255-259 | An acknowledgement comes out only when all records of the slot are in its boot's file. |
| `LogDrain.LogPoller.Drain` | server/app.py:277-278 | The undelayed rounds end, and have then stored exactly the rest of the ring, in order, once. |
| `LogDrain.NextRound` | esp_client_simulator.py:241-253 | The cursor moves past exactly what was served, and a short batch means nothing is left. |
| `LogDrain.RunKeeps` | server/app.py:224-282 | Every run with appends, evictions, reboots, reconnects, late acknowledgements and failures at any await keeps the drain's invariant. |
| `LogDrain.RightFile` | server/app.py:247-274 | In a run every stored record is in the file of the boot that made it, if and only if no records of a boot with id 0 are taken while another id is held. |
| `LogDrain.SessionIncreasing` | server/app.py:262-276 | Within a session the live records in a file have strictly increasing s, although each change of boot starts over at 0. |
| `LogDrain.StoredBeforeReleased` | server/app.py:253-261 | Whenever an acknowledgement makes the device give up a slot, it is the one sent for that slot, and all of the slot's records are in its file. |
| `LogDrain.StoreBeforeAck` | server/app.py:253-261 | In every run, with timeouts and disconnects at any await and boot id 0 included, every slot is written before it is given up. |
| `LogDrain.ReleasedKept` | esp_client_simulator.py:280-310 | In every run no record of a slot the device gave up is ever missing from the files. |
| `LogRepeats.SlotGivenUp` | esp_client_simulator.py:300-306 | An acknowledgement that arrives in its session makes the device give the slot up. |
| `LogRepeats.GoesOn` | server/app.py:254-262 | When the previous log cannot be fetched or acknowledged, the poller goes on with the live records. |
| `LogRepeats.EndsThere` | server/app.py:242-246 | When a read fails, nothing is written until the next session. |
| `LogDrain.NonZeroBoots` | server/app.py:249 | A device that never uses boot id 0 meets the condition of RightFile in every run. |
| `LogDrain.CheckedFiles` | esp_client_simulator.py:241-243 | In every run with a device that serves only requests of a session opened since its last reboot, all records are in the right files. |
| `LogRepeats.SkippedIsEvicted` | server/app.py:262-276 | In every run, a record of the running boot that is still in the ring and not beyond the cursor was stored by this session: what a session skips was evicted. |
| `LogRepeats.LiveRepeatExact` | server/app.py:274-276 | In every run, storing a batch repeats a live record if and only if the file has a live line of that boot with s in the batch's range; such a line is an earlier session's. |
| `LogRepeats.ReconnectReads` | server/app.py:230-276 | Without a previous-boot slot, a reconnect appends exactly the oldest 64 records of the ring, for every boot id: with 0 the change of boot and the previous-log step are skipped. |
| `LogRepeats.ReconnectRepeatExact` | server/app.py:230-262 | After any run, one of these is stored already if and only if a live line of the running boot has s from the ring's first up to 63 above it. |
| `LogRepeats.ReconnectRepeats` | server/app.py:230-262 | Two reconnects in a row within a boot store the oldest 64 records of the ring twice. |
| `LogRepeats.SlotRepeatExact` | server/app.py:254-261 | In every run, fetching the slot writes a record its file already holds if and only if the slot was acknowledged before or the s of one of its records was stored live; if acknowledged, it writes all of them again, and none of the acknowledgements has reached the device. |
| `LogRepeats.SlotTwice` | server/app.py:254-261 | Two sessions in a row write the slot twice when the connection breaks before the acknowledgement arrives (boot id not 0, which skips the step). |
| `LogRepeats.LiveThenSlot` | server/app.py:254-276 | A run in which a record stored live is written again from the slot, never acknowledged before. |
| `LogRepeats.MisfiledBatch` | server/app.py:247-274 | The records of a batch that is stored go to the file of its boot if and only if it does not name boot 0 while another id is held. |
| `LogRepeats.MisfiledRun` | server/app.py:247-274 | A run in which the server, holding boot 7, gets a batch of boot 0: its record goes to the file of boot 7. |
| `Registry.FountainServer.Begin` | fountain_proto/server.py:153-159 | The newest connection replaces the registered one. |
| `Registry.FountainServer.OnConnect` | server/app.py:156-160 | The connect hook marks the device online, whichever handler runs it. |
| `Registry.FountainServer.Finish` | fountain_proto/server.py:184-199 | The finally block reports offline if and only if this handler is still the registered one. |
| `Registry.RegistryInvariant` | fountain_proto/server.py:153-199 | In every interleaving the registered session is the latest accepted handler unless that has ended, each handler is current, replaced or reported offline (one of them, once), and a connected current handler is online. |
| `Registry.OnlineChanges` | server/app.py:156-205 | A device goes online exactly by a connect hook of one of its handlers, and offline exactly when its registered handler ends, which is then reported. |
| `Registry.OnlineExact` | server/app.py:156-205 | "Online" implies a session throughout a run if and only if no connect hook runs while its device has no session. |
| `Registry.OrphanHook` | fountain_proto/server.py:161-167 | A run that ends with a device online and without a session. |
| `Watchdog.StampsKept` | server/app.py:145-153 | No evidence stamp is ever later than the merge lag after the last sign of life. |
| `Watchdog.WindowExact` | server/app.py:116-137 | In every run the window is the fast one if and only if both points were merged last with value 0, at most 15000 ms ago, and not reset since. |
| `Watchdog.SilenceIs` | fountain_proto/server.py:121 | In every run the idle time is the time since the last message, or since the session began. |
| `Watchdog.NoFalseOffline` | server/app.py:116-137 | Over every run the watchdog fires only after the slow window, if and only if the fast window is at least 15000 ms plus the lag, or no shorter than the slow one. |
| `Watchdog.DefaultsAreSlow` | fountain_proto/server.py:42-46 | With 20000 and 150000 ms every firing has been silent for more than 150000 ms. |
| `Watchdog.HeartbeatWatchdog` | fountain_proto/server.py:112-125 | Over any run of messages, merges and resets with a check per interval, the task ends at the first check that finds more than the slow window of silence, and within one check interval after that window. |
| `Watchdog.DeviceShadow.DpMerge` | server/app.py:145-153 | Merged points overwrite, the others stay, and exactly the merged ones are stamped. |
| `Versions.ComputeVersionTuple` | server/ota.py:43-54 | The loop computes the tuple of the parts; parts that are no integer count 0. |
| `Versions.PadMore` | server/ota.py:57-63 | Comparing versions gives the same at every padding length that fits both. |
| `Versions.NewerMeans` | server/ota.py:57-63 | One version is newer than another if and only if its field is larger at the first difference, missing fields counting 0. |
| `Versions.PaddedTransitive` | server/ota.py:57-63 | The padded order is transitive although each comparison pads to another length. |
| `Versions.PaddedSplits` | server/ota.py:57-63 | A version between none: if a is below c, every b is above a or below c. |
| `Versions.PaddedIsPlain` | server/ota.py:57-63 | On tuples of naturals the padded comparison implies the sort's unpadded one, so the two orders agree where it matters. |
| `VersionNames.FindAllAppend` | server/ota.py:25-36 | The matches in a prefix that ends in neither digit nor dot do not depend on what follows. |
| `VersionNames.TupleOfRender` | server/ota.py:46-54 | Reading a rendered version of any length gives its fields back. |
| `VersionNames.FourFields` | server/ota.py:25 | Of a version with five fields the first four are found. |
| `VersionNames.NoNumber` | server/ota.py:43-54 | A part holding anything but digits, signs, underscores and whitespace counts 0. |
| `VersionNames.OtherNumbers` | server/ota.py:49-52 | What int() reads besides digits: signs, an underscore between digits, whitespace around; an empty part counts 0. |
| `VersionNames.VersionRoundTrip` | server/ota.py:28-54 | Two to four fields behind any such prefix are read back exactly, whatever numbers the prefix holds. |
| `VersionNames.SingleFieldExact` | server/ota.py:38-40 | A single number is read back if and only if the prefix holds no dotted number. |
| `VersionNames.FirstDottedExact` | server/ota.py:25-40 | Between a prefix and an ending without dotted numbers, v is the first dotted number and the version is w, the last one, whatever stands between; the version is v if and only if v = w. |
| `VersionNames.LastDottedWins` | server/ota.py:39-40 | Any two different dotted numbers joined by a hyphen: the first one is not the version. |
| `Firmware.CollectImages` | server/ota.py:112-122 | The loop lists exactly the files with a recognizable version, then sorts. |
| `Firmware.ListedExact` | server/ota.py:112-122 | Listed are exactly the files with a recognizable version, each as often as it is in the store and under the version in its own name. |
| `Firmware.SortPermutes` | server/ota.py:122 | Sorting keeps every image, as often as it was there. |
| `Firmware.SortDescends` | server/ota.py:122 | After sorting no image is below a later one. |
| `Firmware.ListStable` | server/ota.py:122 | Images of equal versions are listed in directory order. |
| `Firmware.LatestIsNewest` | server/ota.py:124-126 | The first of the list is a file of the store under the version in its own name, and no file's version is newer, in the other order. |
| `Firmware.OfferOptimal` | server/app.py:365-395 | A device is offered a file if and only if it is not held and some file's version is newer than its own, and then one of the store, under its own version, that no file's version is newer than. |
| `Firmware.NotOfferedTwice` | server/ota.py:134-139 | A device that applied an offer gets none from the same store. |
| `Firmware.AppliedIncreases` | server/app.py:365-395 | While stores change arbitrarily and the device applies every offer, each version is newer than all before it. |
| `Digest.CrcContinues` | server/ota.py:100 | Continuing a CRC-32 from a part's value gives the value of the whole, with inversion before and after each piece. |
| `Digest.HashFile` | server/ota.py:92-102 | The chunked size, CRC-32 and SHA-256 are those of the whole content, as the device computes them. |

## Assumptions

- SHA-256 and the truncated HMAC are ideal: injective functions with printable results
  (`Auth.Ideal`); `IdealCrypto.IdealIsPossible` gives two. `Channel.Unforged` says that
  every accepted tag was made by an end of some session; no two sessions share all nonces and keys.
- An acknowledgement of the previous log reaches the device only in the session it was signed for,
  opened since the device's last reboot: the handler verifies it (`esp_client_simulator.py:301`), and
  `Auth.TagBoundToSession` is why it is refused elsewhere. What the flash keeps of a boot are records
  of that boot.
- One poller per device at a time, boot ids that never repeat, browser polls that do not overlap.
- The device's rings behave as the simulator's batches describe (seqs from 1, the oldest evicted
  first); how many entries are evicted, and when, is arbitrary except in `PromptLosesNothing`.
  Any integer can be a boot id, 0 included.
- A history ring that has held a sample never becomes empty: the simulator reads its last sample.
- Clocks are integer milliseconds and do not run backwards within a session. A watchdog check reads
  the clock once; the source reads it twice (`server/app.py:130`, `fountain_proto/server.py:121`),
  which can shift the bound of 15000 ms plus the lag by as much as passes between the two readings.

## Left out

- Transport: WebSocket, TLS, HTTP routes, login and cookies, the firmware download server, Docker and scripts.
- Presentation: everything in `server/static/index.html` but `pollHistory`, event texts, log output, the config and alert shadows.
- Floats: the rounding of mbar to bar (pressure is an integer here), the integral-float guard of `dp_write`, JSON and RFC 8785 number formatting.
- Lone surrogates in strings: Dafny characters are Unicode scalar values; Python raises when it encodes a surrogate.
- Insignificant whitespace and fractions in the JSON reader: the canonical text of this protocol's bodies has neither.
- Non-ASCII digits and whitespace, which Python's `\d` and `int()` also accept, and Python's limit of 4300 digits for `int()`.
- The generated message dataclasses; of the message table only the signed names are kept, as a set.
- `str()` of a list or a dict inside a MAC field is a parameter; an object in place of a list of key ids is taken to raise, while Python would iterate over its names.
- Parsing of batch headers: missing or malformed `boot_id`, `next_seq` and the like are taken as already replaced by their defaults (0 for a boot id).
- Negative `s` in a log record of a misbehaving device: the cursor is a natural number and stops at 0.
- Negative `FOUNTAIN_HIST_MAX_SAMPLES`; 0 is modelled (nothing is trimmed).
- The `min_level` filter of the log requests, and `max_records` of log_read_prev, which the simulator ignores.
- Several history pollers for one device and overlapping browser polls.
- The pause of both pollers during a firmware download, and their sleeps: time passes between steps without changing them.
- Chart.OneBootMirrors: one boot only, as seqs repeat after a reboot; what holds over several boots is `Chart.BrowserExact`.
