# Kerbal LiveFeed server and client, modelled in Dafny

Kerbal LiveFeed (KLF) relays game-state updates between Kerbal Space Program
players. A central server (`KLFServer`) keeps a fixed-size table of client
slots, routes messages between them and sweeps out timed-out connections. A
console client (`KLFClient`) sits between the server and the game plugin.
The client reassembles framed server messages, keeps a bounded chat queue,
strips the file-format version from outgoing plugin updates and writes
incoming updates to the plugin's in-file.

The model is one sequential system:

- Sockets are reduced to a "present and connected" flag (`TcpState`).
- The server's per-slot outgoing queue is an append-only log of
  `(kind, bytes)` messages (`Slot.outbox`).
- Bytes written straight to a socket are a second log (`Slot.wire`).
- The server clock is a parameter `now` (milliseconds).
- The client's socket is two byte sequences: `inbox` holds what the server
  has sent and the client has not yet read, and `sent` holds what the client
  has written.

Modules:

- `Wrappers`: `Option`.
- `Wire`: the 4-byte integer codec (`intToBytes`/`intFromBytes`), as
  little-endian two's complement with 32-bit wrap-around.
- `Text`: the ASCII encoder (non-ASCII becomes `?`), ASCII lower-casing,
  decimal printing and `int.TryParse`.
- `Protocol`: message kinds, the 8-byte header, and the handshake and
  settings payloads.
- `SlotTable`: the slot record, occupancy count, broadcasts and searches.
- `ServerRules`: every server operation as a function on a `Snapshot`
  (slot array plus `numClients`), with lemmas.
- `KLFServer`: class `Server`. It holds the slots in an `array<Slot>` and
  performs each operation with the source's loops. Each method is proved
  equal to its `ServerRules` function.
- `ClientRules`: every client operation as a function on a `Session`, with
  lemmas.
- `KLFClient`: class `ClientMain`. It has the header buffer as an
  `array<byte>`, the read loops, and the queue and config loops. Each method
  is proved equal to its `ClientRules` function.

KLFCommon is not part of this model. Its constants (protocol, file-format
and program versions, screenshot limit, update-interval bounds) are a
`Constants` value passed to both programs. Message kinds are numbered in the
order the protocol lists them.

## Model

| member | source | states |
|---|---|---|
| SlotTable.Occupied | KLFServer/Server.cs:27 | the number of slots with `canBeReplaced` false never exceeds the table size; `WellFormed` ties it to `numClients` |
| SlotTable.OccupiedUpdate | KLFServer/Server.cs:489 | replacing one slot changes the occupancy count by exactly the change in that slot's claimed flag |
| SlotTable.OccupiedSameFlags | KLFServer/Server.cs:634-635 | two tables with the same claimed flags slot by slot have the same occupancy count |
| SlotTable.OccupiedPositive | KLFServer/Server.cs:533 | a table with a claimed slot counts at least one client, so the decrement on release never goes below zero |
| SlotTable.OccupiedNoneClaimed | KLFServer/Server.cs:27 | a table of released slots counts no clients |
| SlotTable.ReleasedTableWellFormed | KLFServer/Server.cs:222-228 | the table hostingLoop sets up, every slot released and unconnected with `numClients` 0, satisfies the invariant `WellFormed` that every server operation keeps |
| SlotTable.ValidSlotCounted | KLFServer/Server.cs:506-509 | in a well-formed table, a slot with a connected socket is claimed, so `numClients` is at least one |
| SlotTable.SendTo | KLFServer/Server.cs:917-922 | queuing on one slot keeps the table's length |
| SlotTable.BroadcastReady | KLFServer/Server.cs:905-915 | the ready-slot broadcast keeps the table's length |
| SlotTable.BroadcastValid | KLFServer/Server.cs:953-962 | the valid-slot broadcast keeps the table's length |
| SlotTable.BroadcastReadyKeepsWellFormed | KLFServer/Server.cs:905-935 | queuing a message on ready slots keeps `numClients` equal to the occupancy count |
| SlotTable.BroadcastValidKeepsWellFormed | KLFServer/Server.cs:953-962 | queuing settings on valid slots keeps the table well formed |
| SlotTable.SendToKeepsWellFormed | KLFServer/Server.cs:917-951 | queuing on a single slot keeps the table well formed |
| SlotTable.FirstHitFrom | KLFServer/Server.cs:614-621 | the result is the lowest index at or after `k` that matches the criterion and is not excluded; `None` exactly when there is none |
| SlotTable.FirstHitSameHits | KLFServer/Server.cs:784-803 | the first-match search depends only on which slots match, so broadcasting first does not change which watcher receives the screenshot |
| SlotTable.ReadyNamesAppend | KLFServer/Server.cs:684-691 | the roster of a concatenated table is the concatenation of the rosters |
| SlotTable.ReadyNamesLists | KLFServer/Server.cs:684-691 | every ready user's name appears in the `!list` roster, followed by a newline, in slot order |
| SlotTable.ReadyNamesEmpty | KLFServer/Server.cs:684-691 | the `!list` roster is empty exactly when no slot is ready |
| SlotTable.FirstFreeFrom | KLFServer/Server.cs:473-503 | the result is the lowest index at or after `k` whose slot is released and unconnected; `None` exactly when there is none |
| ServerRules.RoundHalfEvenNearest | KLFServer/Server.cs:63 | the result is within one half of `p/q`, and on an exact tie it is the even neighbour, as `Math.Round` rounds |
| ServerRules.UpdateInterval | KLFServer/Server.cs:55-74 | the interval always lies in `[MIN_UPDATE_INTERVAL, MAX_UPDATE_INTERVAL]`; it is the minimum when `numClients <= 0`; it is the converted, rounded `1000 * numClients / updatesPerSecond` when that lies in range, the minimum when it lies below and the maximum when it lies above |
| ServerRules.CastToInt32 | KLFServer/Server.cs:63 | the `(int)` conversion keeps a value that fits in 32 bits and always yields a 32-bit int |
| ServerRules.RawInterval | KLFServer/Server.cs:63 | the raw interval is a 32-bit int, and int.MinValue when there are zero updates per second |
| ServerRules.UpdateIntervalOverflow | KLFServer/Server.cs:63-67 | a rounded interval above int.MaxValue converts to int.MinValue, so the interval is the minimum, not the maximum |
| ServerRules.UpdateIntervalOverflowExample | KLFServer/Server.cs:63-67 | one update a second shared by three million clients gives the minimum interval |
| ServerRules.UpdateIntervalExample | KLFServer/Server.cs:63 | ten updates per second shared by five clients gives 500 ms |
| ServerRules.SettingBytes | KLFServer/Server.cs:969-976 | the settings payload is exactly 12 bytes |
| ServerRules.SettingBytesLayout | KLFServer/Server.cs:969-976 | bytes 0-3 decode to the update interval, bytes 4-7 to `(numClients - 1) * 2` and bytes 8-11 to the screenshot interval |
| ServerRules.SettingsBoundNonNegative | KLFServer/Server.cs:973 | while any client is connected, the queue bound sent to clients is not negative |
| ServerRules.Admit | KLFServer/Server.cs:466-504 | the table keeps its length; a refusal (-1) changes nothing; a claim needs a connection, takes a free slot, makes it valid and counts it |
| ServerRules.Claim | KLFServer/Server.cs:478-490 | a claimed slot is valid, no longer free and not handshaken, and keeps its queues; `AdmitClaimsLowestFree` states every reset field |
| ServerRules.AdmitClaimsLowestFree | KLFServer/Server.cs:466-504 | -1 (table unchanged) iff the connection is not up or no slot is released and unconnected; otherwise the lowest such slot is claimed, handshake unset, named "new user", with no watch name or screenshot and both timestamps `now`; `numClients` rises by one and no other slot changes |
| ServerRules.CloseSocket | KLFServer/Server.cs:518-528 | closing the socket keeps the table's length |
| ServerRules.FreeSlot | KLFServer/Server.cs:530-559 | freeing a slot keeps the table's length |
| ServerRules.Release | KLFServer/Server.cs:516-560 | disconnectClient keeps the table's length |
| ServerRules.CloseSocketKeepsWellFormed | KLFServer/Server.cs:518-528 | closing the socket keeps the table well formed and leaves the slot invalid |
| ServerRules.FreeSlotKeepsWellFormed | KLFServer/Server.cs:530-559 | releasing a claimed, closed slot keeps `numClients` equal to the occupancy count |
| ServerRules.ReleaseKeepsWellFormed | KLFServer/Server.cs:516-560 | disconnectClient keeps the table well formed |
| ServerRules.ReleaseOfReleased | KLFServer/Server.cs:516-531 | on a slot that is already released, only the socket is closed; `numClients`, the queues and every other field are unchanged |
| ServerRules.ReleaseIdempotent | KLFServer/Server.cs:516-531 | disconnecting twice equals disconnecting once |
| ServerRules.ReleaseOccupied | KLFServer/Server.cs:516-560 | on a claimed slot: `numClients` drops by one; the slot is released, closed, unhandshaken, with no screenshot or watch name; a connection-end frame with the reason goes on its wire iff it was connected; every other slot gets "User X has disconnected" iff the leaver had handshaken and that slot is ready, then the new settings iff it is valid |
| ServerRules.ReleaseOthers | KLFServer/Server.cs:516-560 | disconnecting one slot only appends to the other slots' queues |
| ServerRules.Accept | KLFServer/Server.cs:355-382 | the table keeps its length; a refusal frame is written exactly when no slot is claimed, and then nothing changes; a claimed slot is valid and counted |
| ServerRules.GreetedSlots | KLFServer/Server.cs:367-373 | queuing the handshake and the optional join message on the new slot appends exactly those, in that order, and touches no other slot |
| ServerRules.AcceptOutcome | KLFServer/Server.cs:355-382 | a table with no free slot is left unchanged and the connection gets the refusal frame "Server is currently full"; otherwise the lowest free slot is claimed, `numClients` rises by one, the new slot is queued the server handshake, then the join message iff it is non-empty, then the new settings, and every other slot is queued the new settings iff it is valid and is otherwise unchanged |
| ServerRules.OccupancyReply | KLFServer/Server.cs:609-632 | with one other user the reply ends with that user's name; with several it ends with " Enter !list to see them."; `OccupancyReplySingular` and `HandshakeOutcome` state the rest |
| ServerRules.OccupancyReplySingular | KLFServer/Server.cs:609-632 | the reply to a new user takes the singular form exactly when `numClients == 2` |
| ServerRules.OnHandshake | KLFServer/Server.cs:575-652 | the handshake fails (the source throws) exactly when the payload is present and cannot be parsed; otherwise the table keeps its length and `numClients` stays or drops by one |
| ServerRules.HandshakeOutcome | KLFServer/Server.cs:575-652 | a name another ready slot already holds (compared lower-cased) disconnects the sender with "Your username is already in use."; otherwise the slot becomes ready under that name with no other field changed, is sent the occupancy reply, and every other ready slot gets the join notice; the table keeps its length and nothing else changes |
| ServerRules.PluginUpdateFanOut | KLFServer/Server.cs:654-668 | an update from a ready slot is queued, bytes unchanged, on every other ready slot and, since `SEND_UPDATES_TO_SENDER` is false, not on the sender; without data or from a non-ready slot nothing changes |
| ServerRules.OnPluginUpdate | KLFServer/Server.cs:654-668 | a plugin update only appends to outgoing queues: every slot keeps all its other fields, and `numClients` is unchanged |
| ServerRules.ChatOutcome | KLFServer/Server.cs:670-719 | exactly "!list" answers the sender alone with the roster; exactly "!quit" disconnects the sender with "Requested quit"; any other text goes to every other ready slot as "[name] text" |
| ServerRules.ChatIgnored | KLFServer/Server.cs:672 | chat without data or from a slot that has not handshaken changes nothing |
| ServerRules.OnTextMessage | KLFServer/Server.cs:670-719 | `numClients` stays or drops by one; any text other than "!quit" only appends to outgoing queues |
| ServerRules.ScreenshotOutcome | KLFServer/Server.cs:766-809 | a screenshot that is missing, too large, or from a non-ready slot changes nothing; otherwise it is cached on the sender, every ready slot is told, and only the lowest-index other ready slot watching the sender's exact name receives it |
| ServerRules.OnScreenshot | KLFServer/Server.cs:766-809 | a screenshot keeps the table's length and `numClients`, and only appends to the other slots' queues |
| ServerRules.WatchOutcome | KLFServer/Server.cs:721-764 | the watch name is recorded; a cached screenshot is queued on the requester only when the name changed, is non-empty, is not the requester's own, and the first other ready user of that name has one; no other slot changes |
| ServerRules.OnWatchPlayer | KLFServer/Server.cs:721-764 | the watch command changes only the requester's slot and keeps `numClients` |
| ServerRules.OnConnectionEnd | KLFServer/Server.cs:811-818 | after CONNECTION_END the sender's slot is not valid; the table keeps its length and `numClients` stays or drops by one |
| ServerRules.Dispatch | KLFServer/Server.cs:564-823 | handleMessage throws exactly on a valid slot's handshake whose payload cannot be parsed; otherwise the table keeps its length and `numClients` stays or drops by one |
| ServerRules.DispatchKeepsWellFormed | KLFServer/Server.cs:564-823 | handleMessage keeps the table well formed; it fails (the source throws) exactly on a handshake from a valid slot whose username length is negative or runs past the payload |
| ServerRules.WatchKeepsWellFormed | KLFServer/Server.cs:721-764 | the watch command keeps the table well formed |
| ServerRules.ScreenshotKeepsWellFormed | KLFServer/Server.cs:766-809 | a screenshot keeps the table well formed |
| ServerRules.SweepStep | KLFServer/Server.cs:420-447 | one step of the sweep keeps the table well formed and its length |
| ServerRules.Sweep | KLFServer/Server.cs:418-449 | a full pass keeps the table well formed and its length |
| ServerRules.SweepStepRelease | KLFServer/Server.cs:420-447 | a valid slot that timed out is disconnected with "Timeout"; an invalid, unreleased slot is disconnected with "Connection lost"; any other slot is left alone |
| ServerRules.SweepStepAt | KLFServer/Server.cs:420-447 | seen from any slot, one step closes, releases and unhandshakes the slot it drops and only queues messages on every other slot |
| ServerRules.SweepPrefix | KLFServer/Server.cs:418-449 | after the first `k` slots, each one the rule drops (judged on the table before the pass) is released, closed and unhandshaken; every other slot has only had messages queued |
| ServerRules.SweepOutcome | KLFServer/Server.cs:411-464 | one pass drops a valid slot iff more than 8000 ms passed since its last message, or it has not handshaken and more than 5000 ms passed since it connected; it drops an invalid slot iff it is not yet released; every other slot only receives messages |
| ServerRules.TimedOutPersists | KLFServer/Server.cs:435-436 | once the timeout test holds for a slot, it keeps holding as time passes without a message |
| ServerRules.StripIllegal | KLFServer/Server.cs:158-167 | the filtered name is no longer than the player name, and each character in it is one of the player's and not one of `\/:*?"<>|` |
| ServerRules.StripIllegalChar | KLFServer/Server.cs:163-168 | a single character is kept iff it is not one of the nine illegal characters |
| ServerRules.StripIllegalAppend | KLFServer/Server.cs:163-168 | filtering works character by character: it distributes over concatenation, so order is kept and each character is judged alone |
| ServerRules.StripIllegalKeepsLegal | KLFServer/Server.cs:158-167 | a name without illegal characters is kept verbatim |
| ServerRules.LegalFileName | KLFServer/Server.cs:169-171 | with a legal filtered name and a legal date stamp, the file name after the directory separator (name, space, stamp, `.png`) holds no illegal character |
| ServerRules.ScreenshotFileName | KLFServer/Server.cs:157-174 | the path starts with `klfScreenshots/` and ends with `.png`, and with a legal date stamp nothing after the directory separator is an illegal file-name character |
| ServerRules.RecordFault | KLFServer/Server.cs:202-211 | after recording, the fault cell is set |
| ServerRules.FirstFaultWins | KLFServer/Server.cs:202-211 | over any sequence of faults, the cell holds the first one recorded and is never overwritten |
| ServerRules.RecordFaults | KLFServer/Server.cs:202-211 | the cell is set iff it was set or a fault was passed, and it only ever holds the starting fault or one of those passed |
| KLFServer.Server.constructor | KLFServer/Server.cs:222-233 | every slot starts vacant, the table has `maxClients` slots, no clients and no fault |
| KLFServer.Server.ClientIsValid | KLFServer/Server.cs:506-509 | true iff the index is in range and the slot's socket is present and connected |
| KLFServer.Server.ClientIsReady | KLFServer/Server.cs:511-514 | true iff the slot is valid and has handshaken |
| KLFServer.Server.PassExceptionToMain | KLFServer/Server.cs:202-211 | records the fault only when none is recorded yet |
| KLFServer.Server.FindFirst | KLFServer/Server.cs:614-621 | the loop returns the lowest other ready slot meeting the criterion, as `FirstHit` gives |
| KLFServer.Server.QueueOnReady | KLFServer/Server.cs:905-915 | the loop queues the message on every ready slot except the excluded one, as `BroadcastReady` gives |
| KLFServer.Server.FreeSlot | KLFServer/Server.cs:530-559 | the state after the freeing half of disconnectClient is `ServerRules.FreeSlot` of the old one, and the fault cell is unchanged |
| KLFServer.Server.AddClient | KLFServer/Server.cs:466-504 | the new slot array, `numClients` and the returned index are those of `Admit` |
| KLFServer.Server.SendServerMessageToAll | KLFServer/Server.cs:905-915 | queues a server message on every ready slot except the excluded one |
| KLFServer.Server.SendTextMessageToAll | KLFServer/Server.cs:924-935 | queues a chat message on every ready slot except the excluded one |
| KLFServer.Server.SendServerSettingsToAll | KLFServer/Server.cs:953-962 | queues the current settings on every valid slot |
| KLFServer.Server.DisconnectClient | KLFServer/Server.cs:516-560 | the new state is `Release` of the old one, and the table stays well formed |
| KLFServer.Server.UsernameTaken | KLFServer/Server.cs:593-604 | true iff another ready slot's lower-cased name equals the given one |
| KLFServer.Server.OccupancyMessage | KLFServer/Server.cs:609-632 | the reply text, built from the first other ready user |
| KLFServer.Server.HandleHandshake | KLFServer/Server.cs:575-652 | the new state is `OnHandshake` of the old one; `ok` is false (state unchanged) where the payload cannot be read |
| KLFServer.Server.HandlePluginUpdate | KLFServer/Server.cs:654-668 | the new state is `OnPluginUpdate` of the old one |
| KLFServer.Server.ConnectedUsers | KLFServer/Server.cs:683-691 | the roster is "Connected users:\n" followed by `ReadyNames` of the whole table, which `SlotTable.ReadyNamesLists` relates to the ready users |
| KLFServer.Server.HandleTextMessage | KLFServer/Server.cs:670-719 | the new state is `OnTextMessage` of the old one |
| KLFServer.Server.HandleWatchPlayer | KLFServer/Server.cs:721-764 | the new state is `OnWatchPlayer` of the old one |
| KLFServer.Server.HandleScreenshot | KLFServer/Server.cs:766-809 | the new state is `OnScreenshot` of the old one |
| KLFServer.Server.HandleMessage | KLFServer/Server.cs:564-823 | the new state is `Dispatch` of the old one; `ok` is false exactly where the source throws |
| KLFServer.Server.AcceptClient | KLFServer/Server.cs:355-382 | the new state, the index and the refusal frame are those of `Accept` |
| KLFServer.Server.HandleDisconnects | KLFServer/Server.cs:418-449 | the new state is one in-order `Sweep` pass over every slot |
| Protocol.ServerIdFromOrdinal | KLFClient/ClientMain.cs:346-351 | a kind number names a server message kind iff it lies in 0..7, and then that kind's ordinal is the number |
| Protocol.DecodeHeader | KLFClient/ClientMain.cs:253-254 | a header's kind and length are 32-bit ints, and writing them back gives the same eight bytes |
| Protocol.HandshakePayload | KLFClient/ClientMain.cs:744-747 | the payload is the 4-byte username length, the ASCII username, then the ASCII version |
| Protocol.HeaderRoundTrip | KLFClient/ClientMain.cs:726-730 | a header decodes to the (32-bit) kind and length it was built from |
| Protocol.ParseHandshake | KLFServer/Server.cs:582-587 | a parsed username and version are ASCII and take up the whole payload after the 4-byte length |
| Protocol.HandshakeRoundTrip | KLFClient/ClientMain.cs:732-756 | the server reads back exactly the username and version the client wrote, and the declared length is the payload's length |
| Protocol.SettingsRoundTrip | KLFServer/Server.cs:969-976 | each settings field is read back from its own four bytes |
| Wire.IntToBytes | KLFServer/Server.cs:969-976 | an int is written as four bytes |
| Wire.IntFromBytes | KLFServer/Server.cs:582 | an int is read iff four bytes are there, and it is a 32-bit value |
| Wire.IntRoundTrip | KLFClient/ClientMain.cs:253-254 | an int written as four bytes, whatever follows, is read back as its 32-bit wrap |
| Text.EncodeAscii | KLFClient/ClientMain.cs:738-740 | the encoding has one byte per character, each below 128 |
| Text.ParseInt | KLFClient/ClientMain.cs:688 | a parsed value is a 32-bit int |
| Text.ToLowerIdempotent | KLFServer/Server.cs:589-596 | lower-casing a lower-cased name changes nothing |
| Text.ParseIntRoundTrip | KLFClient/ClientMain.cs:688-692 | a written port number parses back to itself |
| ClientRules.EnqueueText | KLFClient/ClientMain.cs:650-657 | the chat queue never exceeds 128; the new message is last; the rest is the old queue minus exactly its oldest element when it was full |
| ClientRules.NewestOfNewest | KLFClient/ClientMain.cs:650-657 | keeping the newest `n` before or after appending gives the same queue |
| ClientRules.EnqueueTextIsNewest | KLFClient/ClientMain.cs:650-657 | enqueuing keeps exactly the newest 128 messages in arrival order |
| ClientRules.EnqueueTextsKeepsNewest | KLFClient/ClientMain.cs:650-657 | after any number of enqueues the queue is the newest 128 of everything received, in order |
| ClientRules.ParseFrame | KLFClient/ClientMain.cs:236-277 | a parsed frame leaves a strictly shorter rest of the stream |
| ClientRules.ParseFrameSplit | KLFClient/ClientMain.cs:252-271 | a stream cut after its eight header bytes parses to the header's kind, no payload when the length is not positive, else exactly that many following bytes, and the bytes after them |
| ClientRules.FrameRoundTrip | KLFClient/ClientMain.cs:252-273 | a server frame is read back as its kind number, its payload (null when empty) and exactly the bytes after it |
| ClientRules.HandleServerMessage | KLFClient/ClientMain.cs:346-431 | an unknown kind is ignored; only a null payload or one shorter than eight bytes can throw; an ended session stays ended, sent bytes are only appended to and the chat queue stays within 128 |
| ClientRules.HandshakeAnswer | KLFClient/ClientMain.cs:353-381 | a server handshake with another protocol version ends the session; a matching one appends the client handshake frame to the sent bytes |
| ClientRules.HandshakeRefusalEnds | KLFClient/ClientMain.cs:375-381 | a refusal with any payload ends the session and changes nothing else; a null payload throws |
| ClientRules.ServerHandshakeAccepted | KLFClient/ClientMain.cs:353-373 | the handshake the server sends is answered, not refused |
| ClientRules.TextMessagesQueued | KLFClient/ClientMain.cs:383-409 | a server message is queued with `fromServer` true and a text message with it false, with the same decoded text |
| ClientRules.SettingsApplied | KLFClient/ClientMain.cs:422-429 | the settings message sets the update interval from bytes 0-3 and the queue bound from bytes 4-7, ignoring the rest |
| ClientRules.SettingsReceived | KLFClient/ClientMain.cs:422-429 | the client applies exactly the interval and queue bound the server's settings payload carries |
| ClientRules.ForwardUpdate | KLFClient/ClientMain.cs:457-474 | fewer than four bytes throw; the update is sent iff its leading int is the file format version, and the frame is the header followed by bytes 4 onwards |
| ClientRules.ForwardStripsVersion | KLFClient/ClientMain.cs:457-467 | an update with the right format version is sent as a plugin-update frame declaring `len - 4` and carrying bytes 4 onwards |
| ClientRules.VersionPrefix | KLFClient/ClientMain.cs:457-467 | the stripped version and the sent bytes make up the whole update |
| ClientRules.WrittenUpdates | KLFClient/ClientMain.cs:513-517 | the flush consumes at least one queued update whenever the queue is non-empty |
| ClientRules.FlushWritesAll | KLFClient/ClientMain.cs:502-526 | with no in-file and a non-empty queue, the written file is the format version followed by every queued update in FIFO order, and the queue ends empty |
| ClientRules.WrittenAllUpdates | KLFClient/ClientMain.cs:513-517 | without a null update the flush writes the concatenation of the whole queue |
| ClientRules.PassUpdates | KLFClient/ClientMain.cs:502-542 | the pass throws iff it trims with a negative bound; the in-file is written iff it is missing, the queue is non-empty and it can be created, and then it starts with the format version; the queue never grows |
| ClientRules.TrimKeepsNewest | KLFClient/ClientMain.cs:528-538 | otherwise the queue is cut from the front to its newest `maxQueuedUpdates` entries, order kept |
| ClientRules.RelayedUpdateRoundTrip | KLFClient/ClientMain.cs:457-467 | the payload of the frame a client sends for a correctly versioned update, when it is the only entry of a receiving client's queue and is flushed into an empty in-file, is byte-for-byte the original update |
| ClientRules.ParsePort | KLFClient/ClientMain.cs:688-692 | an accepted port lies in `[0, 65535]` |
| ClientRules.IgnoredSettings | KLFClient/ClientMain.cs:673-692 | an unknown label, or a port that does not parse or is out of range, changes nothing; a valid port is taken |
| ClientRules.ApplySetting | KLFClient/ClientMain.cs:673-692 | each field changes only under its own label: the username to the value line, the address to what the parser accepts, the port to a value in `[0, 65535]` |
| ClientRules.ReadConfig | KLFClient/ClientMain.cs:661-703 | a changed username is one of the file's lines, and a changed port lies in `[0, 65535]` |
| ClientRules.TrailingLabelIgnored | KLFClient/ClientMain.cs:669-698 | a trailing label with no value line changes nothing |
| ClientRules.ConfigLines | KLFClient/ClientMain.cs:705-724 | six lines, the labels at even positions, and a port in range is written so that the reader parses it back |
| ClientRules.ConfigRoundTrip | KLFClient/ClientMain.cs:661-724 | reading back the written config file restores the username, address and port |
| ClientRules.TruncateUsername | KLFClient/ClientMain.cs:104-106 | an entered name is cut to at most 32 characters, as a prefix, and kept whole iff it fits |
| KLFClient.ClientMain.constructor | KLFClient/ClientMain.cs:27-31 | default name "username", loopback address, port 2075, 500 ms interval, 32 queued updates, empty queues |
| KLFClient.ClientMain.SetUsername | KLFClient/ClientMain.cs:104-106 | the stored name is `TruncateUsername` of the entered one; the session, address, port, stream and header buffer are unchanged and the client stays valid |
| KLFClient.ClientMain.ReadConfigFile | KLFClient/ClientMain.cs:661-703 | the loop over the lines leaves the configuration `ReadConfig` gives; the session, stream and header buffer are unchanged and the client stays valid |
| KLFClient.ClientMain.WriteConfigFile | KLFClient/ClientMain.cs:705-724 | the six lines are the three labels, each followed by its value |
| KLFClient.ClientMain.EnqueueTextMessage | KLFClient/ClientMain.cs:650-657 | the queue becomes `EnqueueText` of the old one and stays within 128 |
| KLFClient.ClientMain.SendMessageHeader | KLFClient/ClientMain.cs:726-730 | appends the kind and the length, 4 bytes each |
| KLFClient.ClientMain.SendHandshakeMessage | KLFClient/ClientMain.cs:732-756 | appends exactly the handshake frame for the current name and program version |
| KLFClient.ClientMain.HandleMessage | KLFClient/ClientMain.cs:346-431 | the new session and the crash flag are those of `HandleServerMessage` |
| KLFClient.ClientMain.ReadHeader | KLFClient/ClientMain.cs:248-249 | reads at most the missing header bytes into the buffer after those already there, and consumes exactly them from the stream |
| KLFClient.CopyInto | KLFClient/ClientMain.cs:267 | one read puts the next `n` stream bytes into the payload buffer right after the bytes already read, keeping those |
| KLFClient.ClientMain.ReadPayload | KLFClient/ClientMain.cs:261-271 | the bytes read are the next bytes of the stream, never more than the length; with enough positive reads the payload is complete |
| KLFClient.ClientMain.DispatchFrame | KLFClient/ClientMain.cs:252-276 | with the header complete, the payload it announces is read (or the step stalls), and the handled kind, payload and remaining stream are what `ParseFrame` reads; the header counter returns to zero |
| KLFClient.ClientMain.ConnectionStep | KLFClient/ClientMain.cs:236-277 | a message is handled only once eight header bytes are in; the handled kind, payload and remaining stream are what `ParseFrame` reads from the buffered header and stream; the counter resets to 0; a whole frame in the stream is handled when reads suffice |
| KLFClient.ClientMain.SendOutgoingUpdate | KLFClient/ClientMain.cs:457-474 | the outcome is `ForwardUpdate`, and only a forwarded frame is appended to the sent bytes |
| KLFClient.ClientMain.PassUpdatesToPlugin | KLFClient/ClientMain.cs:502-542 | the queue, the written in-file and the crash flag are those of `PassUpdates` |

## Left out

- Threads, `lock` blocks, `Thread.Sleep`/`Abort` and the client's mutexes are left out. Every operation is one atomic sequential step.
- The listener, the receive threads, `Poll`/`Receive` peeks, stream flushing and all console output are left out.
  - Outgoing sends are appended to per-slot logs.
  - The client socket is the `inbox`/`sent` byte sequences, filled by `KLFClient.ClientMain.Deliver`.
- `ServerClient` is not part of this model. Its outgoing queue bound, its message thread and its update of `lastMessageTime` on receipt are absent. Queues are unbounded logs, and timestamps change only when a slot is claimed.
- ServerRules.UpdateInterval: the interval is computed exactly with rationals, with ties rounded to even as `Math.Round` does. It does not model single-precision float rounding error. A rounded value outside 32 bits, and the infinity from an `updatesPerSecond` of 0, convert to int.MinValue and so count as below the minimum.
- File I/O is left out: the out-file and in-file, the screenshot directory and `File.WriteAllBytes`, the config file's creation and reading, and `DateTime.Now` in screenshot names.
  - Whether the in-file exists and whether it can be created are parameters.
  - The date stamp is a parameter of `ServerRules.ScreenshotFileName`.
  - The config file is given as its lines.
- `IPAddress.TryParse` is a parameter of the config reader. Lower-casing is ASCII-only. The ASCII encoder maps every non-ASCII character to `?`.
- ClientRules.TruncateUsername: lengths count Unicode characters, not the UTF-16 code units C# `String.Length` counts. A name of 20 emoji outside the basic plane is 40 code units, so the source cuts it (possibly inside a surrogate pair) where the model keeps it whole.
- ServerRules.Sweep: one pass judges every slot against a single clock reading `now`. The source reads the stopwatch again for each slot, so a later slot may be judged a few milliseconds later. `ServerRules.TimedOutPersists` shows that a later reading can only add timeouts.
- ClientRules.ConfigRoundTrip: the config file is modelled as its sequence of lines, so a username containing a line break is not split as `WriteLine`/`ReadLine` would split it. Such a name cannot arise, because usernames are read with `ReadLine` and so hold no line break.
- KLFServer.Server.DisconnectClient: requires the slot's socket to be present. In the source, `disconnectClient` on a slot whose socket is null throws.
- KLFClient.ClientMain.ReadPayload: the source loops until the payload is complete, spinning forever if the stream ends with zero-byte reads. The model takes the sequence of read sizes as a parameter. It ends `Stalled` when they run out, and the state after that is not specified.
- Protocol.HandshakeRoundTrip: requires the username and version to fit the 32-bit length field, which would otherwise wrap.
- ClientRules.FrameRoundTrip: requires the payload length to fit the 32-bit length field.
- ClientRules.ForwardStripsVersion: requires the update length to fit the 32-bit length field.
- ClientRules.RelayedUpdateRoundTrip: requires the update length to fit the 32-bit length field.
- A null plugin update in the client's incoming queue makes the flush stop, by the caught `NullReferenceException`. The model keeps the bytes written so far and the rest of the queue. It does not model the in-file stream being left open.
- A client-side exception (missing or short handshake or settings data) ends handling as `crashed`. What the connection loop's catch clauses then do is not modelled.
- These are console and UI code and are not modelled: the server console commands (`/kick`, `/crash`, `/quit`), the client menu, `handleChat` and `sendTextMessage`.
