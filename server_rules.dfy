/**
 * What each operation of KLFServer/Server.cs does to the slot table,
 * stated as functions from one `Snapshot` to the next: claiming a slot
 * (addClient), accepting a connection (the body of listenForClients),
 * releasing a slot (disconnectClient), every case of handleMessage, and
 * one pass of the timeout sweep (handleDisconnects). The class in
 * server.dfy runs the source's loops and is proved to compute exactly
 * these functions; the lemmas here state what the functions guarantee.
 */
module ServerRules {
  import opened Wrappers
  import opened Wire
  import opened Text
  import opened Protocol
  import opened SlotTable

  const SEND_UPDATES_TO_SENDER: bool := false
  const CLIENT_TIMEOUT_DELAY: int := 8000
  const CLIENT_HANDSHAKE_TIMEOUT_DELAY: int := 5000
  const SCREENSHOT_DIR: string := "klfScreenshots"

  /** The ServerSettings fields Server.cs reads. */
  datatype ServerSettings = ServerSettings(
    maxClients: nat,
    updatesPerSecond: int,
    screenshotInterval: int,
    joinMessage: string,
    saveScreenshots: bool)

  datatype Config = Config(settings: ServerSettings, consts: Constants)

  predicate ValidConfig(cfg: Config) {
    ValidConstants(cfg.consts) && IsInt32(cfg.settings.screenshotInterval)
  }

  // ---------------------------------------------------------------- settings

  /** The integer nearest to p / q, halves going to the even neighbour (Math.Round). */
  function RoundHalfEven(p: int, q: int): int
    requires q > 0
  {
    var f := p / q;
    var rem := p % q;
    if 2 * rem < q then f
    else if 2 * rem > q then f + 1
    else if f % 2 == 0 then f
    else f + 1
  }

  /**
   * RoundHalfEven is within one half of p / q, and on an exact tie it is the
   * even neighbour. Stated as a lemma so that the settings payload, which
   * every broadcast carries, does not bring this product into every proof.
   */
  lemma RoundHalfEvenNearest(p: int, q: int)
    requires q > 0
    ensures var r := RoundHalfEven(p, q);
      && q * r - q <= 2 * p - q * r <= q * r + q
      && (2 * (p - q * r) == q || 2 * (p - q * r) == -q ==> r % 2 == 0)
  {
  }

  /**
   * The `(int)` conversion of a rounded double: the value itself when it
   * fits in 32 bits, otherwise int.MinValue, as the conversion yields on
   * the platforms .NET Framework runs on.
   */
  function CastToInt32(v: int): (r: int)
    ensures IsInt32(r)
    ensures IsInt32(v) ==> r == v
  {
    if IsInt32(v) then v else INT32_MIN
  }

  /**
   * `(int)Math.Round(1.0f / (updatesPerSecond / (float)numClients) * 1000)`
   * computed exactly: 1000 * numClients / updatesPerSecond, rounded, then
   * converted. With zero updates per second the float is +infinity, which
   * converts to int.MinValue like any other value out of range.
   */
  function RawInterval(updatesPerSecond: int, numClients: int): (r: int)
    ensures IsInt32(r)
    ensures updatesPerSecond == 0 ==> r == INT32_MIN
  {
    if updatesPerSecond > 0 then CastToInt32(RoundHalfEven(1000 * numClients, updatesPerSecond))
    else if updatesPerSecond < 0 then CastToInt32(-RoundHalfEven(1000 * numClients, -updatesPerSecond))
    else INT32_MIN
  }

  /** The `updateInterval` property: the minimum with no clients, else the raw value clamped. */
  function UpdateInterval(numClients: int, cfg: Config): (r: int)
    requires cfg.consts.minUpdateInterval <= cfg.consts.maxUpdateInterval
    ensures cfg.consts.minUpdateInterval <= r <= cfg.consts.maxUpdateInterval
    ensures numClients <= 0 ==> r == cfg.consts.minUpdateInterval
    ensures (numClients > 0 &&
             cfg.consts.minUpdateInterval <= RawInterval(cfg.settings.updatesPerSecond, numClients) <= cfg.consts.maxUpdateInterval)
      ==> r == RawInterval(cfg.settings.updatesPerSecond, numClients)
    ensures numClients > 0 && RawInterval(cfg.settings.updatesPerSecond, numClients) < cfg.consts.minUpdateInterval
      ==> r == cfg.consts.minUpdateInterval
    ensures numClients > 0 && RawInterval(cfg.settings.updatesPerSecond, numClients) > cfg.consts.maxUpdateInterval
      ==> r == cfg.consts.maxUpdateInterval
  {
    if numClients <= 0 then cfg.consts.minUpdateInterval
    else
      var v := RawInterval(cfg.settings.updatesPerSecond, numClients);
      if v < cfg.consts.minUpdateInterval then cfg.consts.minUpdateInterval
      else if v > cfg.consts.maxUpdateInterval then cfg.consts.maxUpdateInterval
      else v
  }

  /** Ten updates a second shared by five clients: one update every 500 ms each. */
  lemma UpdateIntervalExample(cfg: Config)
    requires cfg.settings.updatesPerSecond == 10
    requires cfg.consts.minUpdateInterval <= 500 <= cfg.consts.maxUpdateInterval
    ensures UpdateInterval(5, cfg) == 500
  {
    assert RoundHalfEven(5000, 10) == 500;
  }
  /**
   * A rounded interval too large for 32 bits converts to int.MinValue and
   * is clamped up to the minimum, not down to the maximum.
   */
  lemma UpdateIntervalOverflow(numClients: int, cfg: Config)
    requires IsInt32(cfg.consts.minUpdateInterval) && cfg.consts.minUpdateInterval <= cfg.consts.maxUpdateInterval
    requires numClients > 0 && cfg.settings.updatesPerSecond > 0
    requires RoundHalfEven(1000 * numClients, cfg.settings.updatesPerSecond) > INT32_MAX
    ensures UpdateInterval(numClients, cfg) == cfg.consts.minUpdateInterval
  {
    var v := RoundHalfEven(1000 * numClients, cfg.settings.updatesPerSecond);
    assert !IsInt32(v);
    assert RawInterval(cfg.settings.updatesPerSecond, numClients) == CastToInt32(v) == INT32_MIN;
  }

  /** One update a second shared by three million clients: the minimum interval. */
  lemma UpdateIntervalOverflowExample(cfg: Config)
    requires IsInt32(cfg.consts.minUpdateInterval) && cfg.consts.minUpdateInterval <= cfg.consts.maxUpdateInterval
    requires cfg.settings.updatesPerSecond == 1
    ensures UpdateInterval(3_000_000, cfg) == cfg.consts.minUpdateInterval
  {
    assert RoundHalfEven(3_000_000_000, 1) == 3_000_000_000;
    UpdateIntervalOverflow(3_000_000, cfg);
  }


  /** The queue bound the server advertises: `(numClients - 1) * 2`. */
  function MaxQueuedUpdates(numClients: int): int {
    (numClients - 1) * 2
  }

  /** serverSettingBytes: update interval, update queue bound, screenshot interval. */
  function SettingBytes(numClients: int, cfg: Config): (b: seq<byte>)
    requires cfg.consts.minUpdateInterval <= cfg.consts.maxUpdateInterval
    ensures |b| == 12
  {
    SettingsPayload(UpdateInterval(numClients, cfg), MaxQueuedUpdates(numClients), cfg.settings.screenshotInterval)
  }

  /** A client reads back each settings field the server wrote. */
  lemma {:induction false} SettingBytesLayout(numClients: int, cfg: Config)
    requires ValidConfig(cfg) && 0 <= numClients <= 0x1000_0000
    ensures IntFromBytes(SettingBytes(numClients, cfg), 0) == Some(UpdateInterval(numClients, cfg))
    ensures IntFromBytes(SettingBytes(numClients, cfg), 4) == Some(MaxQueuedUpdates(numClients))
    ensures IntFromBytes(SettingBytes(numClients, cfg), 8) == Some(cfg.settings.screenshotInterval)
  {
    SettingsRoundTrip(UpdateInterval(numClients, cfg), MaxQueuedUpdates(numClients), cfg.settings.screenshotInterval);
  }

  function SettingsMessage(numClients: int, cfg: Config): Outgoing
    requires cfg.consts.minUpdateInterval <= cfg.consts.maxUpdateInterval
  {
    Outgoing(ServerMessageId.ServerSettings, SettingBytes(numClients, cfg))
  }

  /**
   * Settings are only ever queued on valid slots, and in a well-formed
   * table a valid slot is counted: the queue bound a client receives is
   * never negative.
   */
  lemma SettingsBoundNonNegative(st: Snapshot, j: nat)
    requires WellFormed(st) && j < |st.slots| && IsValid(st.slots[j])
    ensures MaxQueuedUpdates(st.numClients) >= 0
  {
    ValidSlotCounted(st, j);
  }

  // ---------------------------------------------------------------- messages

  /** A SERVER_MESSAGE carrying `text` (sendServerMessage, sendServerMessageToAll, sendTextMessage). */
  function ServerText(text: string): Outgoing {
    Outgoing(ServerMessageId.ServerMessage, EncodeAscii(text))
  }

  /** A TEXT_MESSAGE carrying `text` (sendTextMessageToAll). */
  function ChatText(text: string): Outgoing {
    Outgoing(ServerMessageId.TextMessage, EncodeAscii(text))
  }

  function DisconnectNotice(username: string, reason: string): Outgoing {
    ServerText("User " + username + " has disconnected : " + reason)
  }

  function JoinNotice(username: string): Outgoing {
    ServerText("User " + username + " has joined the server.")
  }

  // ---------------------------------------------------------------- claiming a slot

  /** The fields addClient resets when it claims slot `s` for a new connection. */
  function Claim(s: Slot, now: int): (r: Slot)
    ensures IsValid(r) && !IsFree(r) && !r.receivedHandshake
    ensures r.outbox == s.outbox && r.wire == s.wire
  {
    s.(tcp := Tcp(true), username := "new user", screenshot := None, watchPlayerName := "",
       canBeReplaced := false, lastMessageTime := now, connectionStartTime := now, receivedHandshake := false)
  }

  /** addClient: the new table and the claimed index, -1 when nothing is claimed. */
  function Admit(st: Snapshot, connected: bool, now: int): (r: (Snapshot, int))
    ensures |r.0.slots| == |st.slots|
    ensures r.1 == -1 ==> r.0 == st
    ensures r.1 != -1 ==>
      connected && 0 <= r.1 < |st.slots| && IsFree(st.slots[r.1]) && IsValid(r.0.slots[r.1]) && r.0.numClients == st.numClients + 1
  {
    var refused: int := -1;
    if !connected then (st, refused)
    else match FirstFreeFrom(st.slots, 0)
      case None => (st, refused)
      case Some(i) => (Snapshot(st.slots[i := Claim(st.slots[i], now)], st.numClients + 1), i as int)
  }

  /**
   * addClient refuses exactly when the connection is gone or no slot is
   * free; otherwise it claims the lowest free slot, resets its fields,
   * counts it, and leaves every other slot alone.
   */
  lemma AdmitClaimsLowestFree(st: Snapshot, connected: bool, now: int)
    requires WellFormed(st)
    ensures var (r, i) := Admit(st, connected, now);
      && (i == -1 <==> !connected || forall j :: 0 <= j < |st.slots| ==> !IsFree(st.slots[j]))
      && (i == -1 ==> r == st)
      && (i != -1 ==>
            && 0 <= i < |st.slots| && IsFree(st.slots[i])
            && (forall j :: 0 <= j < i ==> !IsFree(st.slots[j]))
            && |r.slots| == |st.slots|
            && IsValid(r.slots[i]) && !r.slots[i].canBeReplaced && !r.slots[i].receivedHandshake
            && r.slots[i].username == "new user" && r.slots[i].watchPlayerName == ""
            && r.slots[i].screenshot == None
            && r.slots[i].lastMessageTime == now && r.slots[i].connectionStartTime == now
            && r.numClients == st.numClients + 1
            && (forall j :: 0 <= j < |st.slots| && j != i ==> r.slots[j] == st.slots[j]))
      && WellFormed(r)
  {
    var (r, i) := Admit(st, connected, now);
    if i != -1 {
      OccupiedUpdate(st.slots, i, Claim(st.slots[i], now));
    }
  }

  // ---------------------------------------------------------------- releasing a slot

  /** The first part of disconnectClient: send CONNECTION_END directly if still connected, then close the socket. */
  function CloseSocket(st: Snapshot, i: nat, reason: string): (r: Snapshot)
    requires i < |st.slots|
    ensures |r.slots| == |st.slots|
  {
    var s := st.slots[i];
    Snapshot(st.slots[i := s.(tcp := Tcp(false),
                              wire := if IsValid(s) then s.wire + ServerFrame(ServerMessageId.ConnectionEnd, EncodeAscii(reason)) else s.wire)],
             st.numClients)
  }

  /**
   * The rest of disconnectClient for a slot not yet released: uncount it,
   * clear its screenshot and watch name, announce the departure of a
   * handshaken user, clear the handshake flag and send everyone the new
   * settings.
   */
  function FreeSlot(st: Snapshot, cfg: Config, i: nat, reason: string): (r: Snapshot)
    requires i < |st.slots|
    requires cfg.consts.minUpdateInterval <= cfg.consts.maxUpdateInterval
    ensures |r.slots| == |st.slots|
  {
    var s := st.slots[i];
    var n := st.numClients - 1;
    var slots1 := st.slots[i := s.(canBeReplaced := true, screenshot := None, watchPlayerName := "")];
    var slots2 := if s.receivedHandshake then BroadcastReady(slots1, -1, DisconnectNotice(s.username, reason)) else slots1;
    var slots3 := slots2[i := slots2[i].(receivedHandshake := false)];
    Snapshot(BroadcastValid(slots3, SettingsMessage(n, cfg)), n)
  }

  /** disconnectClient: close the socket, and free the slot unless it was already released. */
  function Release(st: Snapshot, cfg: Config, i: nat, reason: string): (r: Snapshot)
    requires i < |st.slots| && st.slots[i].tcp.Tcp?
    requires cfg.consts.minUpdateInterval <= cfg.consts.maxUpdateInterval
    ensures |r.slots| == |st.slots|
    ensures r.slots[i].tcp == Tcp(false)
  {
    var closed := CloseSocket(st, i, reason);
    if st.slots[i].canBeReplaced then closed else FreeSlot(closed, cfg, i, reason)
  }

  /** Closing a socket keeps the table well formed. */
  lemma CloseSocketKeepsWellFormed(st: Snapshot, i: nat, reason: string)
    requires WellFormed(st) && i < |st.slots| && st.slots[i].tcp.Tcp?
    ensures WellFormed(CloseSocket(st, i, reason))
    ensures !IsValid(CloseSocket(st, i, reason).slots[i])
  {
    OccupiedSameFlags(st.slots, CloseSocket(st, i, reason).slots);
  }

  /** Freeing a closed, counted slot uncounts it and keeps the table well formed. */
  lemma FreeSlotKeepsWellFormed(st: Snapshot, cfg: Config, i: nat, reason: string)
    requires WellFormed(st) && i < |st.slots| && !st.slots[i].canBeReplaced && !IsValid(st.slots[i])
    requires cfg.consts.minUpdateInterval <= cfg.consts.maxUpdateInterval
    ensures WellFormed(FreeSlot(st, cfg, i, reason))
  {
    var r := FreeSlot(st, cfg, i, reason);
    var x := r.slots[i];
    assert x.canBeReplaced;
    OccupiedUpdate(st.slots, i, x);
    OccupiedSameFlags(st.slots[i := x], r.slots);
  }

  lemma ReleaseKeepsWellFormed(st: Snapshot, cfg: Config, i: nat, reason: string)
    requires WellFormed(st) && i < |st.slots| && st.slots[i].tcp.Tcp?
    requires cfg.consts.minUpdateInterval <= cfg.consts.maxUpdateInterval
    ensures WellFormed(Release(st, cfg, i, reason))
  {
    CloseSocketKeepsWellFormed(st, i, reason);
    if !st.slots[i].canBeReplaced {
      FreeSlotKeepsWellFormed(CloseSocket(st, i, reason), cfg, i, reason);
    }
  }

  /** On a slot already released, disconnectClient only closes the socket. */
  lemma ReleaseOfReleased(st: Snapshot, cfg: Config, i: nat, reason: string)
    requires WellFormed(st) && i < |st.slots| && st.slots[i].tcp.Tcp? && st.slots[i].canBeReplaced
    requires cfg.consts.minUpdateInterval <= cfg.consts.maxUpdateInterval
    ensures Release(st, cfg, i, reason) == Snapshot(st.slots[i := st.slots[i].(tcp := Tcp(false))], st.numClients)
  {
  }

  /** A second disconnectClient changes nothing: disconnecting is idempotent. */
  lemma ReleaseIdempotent(st: Snapshot, cfg: Config, i: nat, reason1: string, reason2: string)
    requires i < |st.slots| && st.slots[i].tcp.Tcp?
    requires cfg.consts.minUpdateInterval <= cfg.consts.maxUpdateInterval
    ensures Release(Release(st, cfg, i, reason1), cfg, i, reason2) == Release(st, cfg, i, reason1)
  {
    var r := Release(st, cfg, i, reason1);
    assert !IsValid(r.slots[i]) && r.slots[i].canBeReplaced && r.slots[i].tcp == Tcp(false);
    assert r.slots[i := r.slots[i].(tcp := Tcp(false))] == r.slots;
  }

  /**
   * Releasing a claimed slot uncounts it, resets it, and gives every other
   * slot exactly the departure notice (if the user had handshaken and the
   * slot is ready) and the new settings (if the slot is valid).
   */
  lemma ReleaseOccupied(st: Snapshot, cfg: Config, i: nat, reason: string)
    requires WellFormed(st) && i < |st.slots| && !st.slots[i].canBeReplaced
    requires cfg.consts.minUpdateInterval <= cfg.consts.maxUpdateInterval
    ensures st.slots[i].tcp.Tcp?
    ensures var r := Release(st, cfg, i, reason); var s := st.slots[i];
      && r.numClients == st.numClients - 1
      && r.slots[i].canBeReplaced && !r.slots[i].receivedHandshake && r.slots[i].tcp == Tcp(false)
      && r.slots[i].screenshot == None && r.slots[i].watchPlayerName == ""
      && r.slots[i].outbox == s.outbox
      && r.slots[i].wire == (if s.tcp.connected then s.wire + ServerFrame(ServerMessageId.ConnectionEnd, EncodeAscii(reason)) else s.wire)
      && forall j :: 0 <= j < |st.slots| && j != i ==>
           r.slots[j] == st.slots[j].(outbox := st.slots[j].outbox
             + (if s.receivedHandshake && IsReady(st.slots[j]) then [DisconnectNotice(s.username, reason)] else [])
             + (if IsValid(st.slots[j]) then [SettingsMessage(st.numClients - 1, cfg)] else []))
  {
  }

  /** Releasing slot `i` only appends to the other slots' queues. */
  lemma ReleaseOthers(st: Snapshot, cfg: Config, i: nat, reason: string, j: nat)
    requires i < |st.slots| && st.slots[i].tcp.Tcp? && j < |st.slots| && j != i
    requires cfg.consts.minUpdateInterval <= cfg.consts.maxUpdateInterval
    ensures SameExceptOutbox(st.slots[j], Release(st, cfg, i, reason).slots[j])
  {
  }

  // ---------------------------------------------------------------- accepting a connection

  /**
   * One accepted, connected client in listenForClients: claim a slot, queue
   * the handshake and the join message on it, and send everyone the new
   * settings; with no free slot, write a HANDSHAKE_REFUSAL frame directly
   * on the new connection (the third component) and change nothing.
   */
  function Accept(st: Snapshot, cfg: Config, now: int): (r: (Snapshot, int, seq<byte>))
    requires cfg.consts.minUpdateInterval <= cfg.consts.maxUpdateInterval
    ensures |r.0.slots| == |st.slots|
    ensures r.1 == -1 <==> r.2 != []
    ensures r.1 == -1 ==> r.0 == st
    ensures r.1 != -1 ==> 0 <= r.1 < |st.slots| && IsValid(r.0.slots[r.1]) && r.0.numClients == st.numClients + 1
  {
    var (st1, i) := Admit(st, true, now);
    if i >= 0 then
      var greeted :=
        if IsValid(st1.slots[i]) then
          var h := SendTo(st1.slots, i, Outgoing(ServerMessageId.Handshake, ServerHandshakePayload(cfg.consts)));
          if |cfg.settings.joinMessage| > 0 then SendTo(h, i, ServerText(cfg.settings.joinMessage)) else h
        else st1.slots;
      (Snapshot(BroadcastValid(greeted, SettingsMessage(st1.numClients, cfg)), st1.numClients), i, [])
    else
      (st, -1, ServerFrame(HandshakeRefusal, EncodeAscii("Server is currently full")))
  }

  /**
   * A connection that finds a free slot is handshaken on it; one that does
   * not gets the refusal frame and leaves the table as it was.
   */
  lemma AcceptOutcome(st: Snapshot, cfg: Config, now: int)
    requires WellFormed(st) && cfg.consts.minUpdateInterval <= cfg.consts.maxUpdateInterval
    ensures var (r, i, refusal) := Accept(st, cfg, now);
      && WellFormed(r)
      && (i == -1 <==> forall j :: 0 <= j < |st.slots| ==> !IsFree(st.slots[j]))
      && (i == -1 ==> r == st && refusal == ServerFrame(HandshakeRefusal, EncodeAscii("Server is currently full")))
      && (i != -1 ==>
            && 0 <= i < |st.slots| && IsFree(st.slots[i])
            && (forall j :: 0 <= j < i ==> !IsFree(st.slots[j]))
            && refusal == [] && r.numClients == st.numClients + 1 && |r.slots| == |st.slots|
            && r.slots[i].(outbox := st.slots[i].outbox) == Claim(st.slots[i], now)
            && r.slots[i].outbox == st.slots[i].outbox
                 + [Outgoing(ServerMessageId.Handshake, ServerHandshakePayload(cfg.consts))]
                 + (if |cfg.settings.joinMessage| > 0 then [ServerText(cfg.settings.joinMessage)] else [])
                 + [SettingsMessage(st.numClients + 1, cfg)]
            && (forall j :: 0 <= j < |st.slots| && j != i ==>
                  r.slots[j] == if IsValid(st.slots[j]) then Enqueue(st.slots[j], SettingsMessage(st.numClients + 1, cfg))
                                else st.slots[j]))
  {
    var (st1, i) := Admit(st, true, now);
    AdmitClaimsLowestFree(st, true, now);
    if i >= 0 {
      AcceptClaimed(st, cfg, now);
    }
  }

  /** The claimed case of AcceptOutcome: the greeting frames in order, then the settings to every valid slot. */
  lemma AcceptClaimed(st: Snapshot, cfg: Config, now: int)
    requires WellFormed(st) && cfg.consts.minUpdateInterval <= cfg.consts.maxUpdateInterval
    requires Admit(st, true, now).1 >= 0
    ensures var (r, i, refusal) := Accept(st, cfg, now);
      && WellFormed(r)
      && i == Admit(st, true, now).1
      && refusal == [] && r.numClients == st.numClients + 1
      && r.slots[i].(outbox := st.slots[i].outbox) == Claim(st.slots[i], now)
      && r.slots[i].outbox == st.slots[i].outbox
           + [Outgoing(ServerMessageId.Handshake, ServerHandshakePayload(cfg.consts))]
           + (if |cfg.settings.joinMessage| > 0 then [ServerText(cfg.settings.joinMessage)] else [])
           + [SettingsMessage(st.numClients + 1, cfg)]
      && (forall j :: 0 <= j < |st.slots| && j != i ==>
            r.slots[j] == if IsValid(st.slots[j]) then Enqueue(st.slots[j], SettingsMessage(st.numClients + 1, cfg))
                          else st.slots[j])
  {
    var (st1, i) := Admit(st, true, now);
    AdmitClaimsLowestFree(st, true, now);
    var hs := Outgoing(ServerMessageId.Handshake, ServerHandshakePayload(cfg.consts));
    var join: seq<Outgoing> := if |cfg.settings.joinMessage| > 0 then [ServerText(cfg.settings.joinMessage)] else [];
    var settings := SettingsMessage(st1.numClients, cfg);
    var h := SendTo(st1.slots, i, hs);
    SendToKeepsWellFormed(st1, i, hs);
    var greeted := if |cfg.settings.joinMessage| > 0 then SendTo(h, i, ServerText(cfg.settings.joinMessage)) else h;
    if |cfg.settings.joinMessage| > 0 {
      SendToKeepsWellFormed(Snapshot(h, st1.numClients), i, ServerText(cfg.settings.joinMessage));
    }
    BroadcastValidKeepsWellFormed(Snapshot(greeted, st1.numClients), settings);
    var r := BroadcastValid(greeted, settings);
    assert Accept(st, cfg, now) == (Snapshot(r, st1.numClients), i, []);
    assert st1.slots[i] == Claim(st.slots[i], now);
    GreetedSlots(st, st1.slots, i, hs, join, greeted);
    SettingsAfterGreeting(st.slots, st1.slots[i], i, hs, join, greeted, settings);
  }

  /** The new settings, broadcast after the greeting, land on the claimed slot and on every other valid slot. */
  lemma SettingsAfterGreeting(slots: seq<Slot>, claimed: Slot, i: nat, hs: Outgoing, join: seq<Outgoing>,
                              greeted: seq<Slot>, settings: Outgoing)
    requires i < |slots| == |greeted| && IsValid(claimed)
    requires greeted[i] == claimed.(outbox := slots[i].outbox + [hs] + join)
    requires forall j :: 0 <= j < |slots| && j != i ==> greeted[j] == slots[j]
    ensures var r := BroadcastValid(greeted, settings);
      && r[i].(outbox := slots[i].outbox) == claimed.(outbox := slots[i].outbox)
      && r[i].outbox == slots[i].outbox + [hs] + join + [settings]
      && forall j :: 0 <= j < |slots| && j != i ==>
           r[j] == if IsValid(slots[j]) then Enqueue(slots[j], settings) else slots[j]
  {
  }

  /** The claimed slot's queue after the handshake and the optional join message. */
  lemma GreetedSlots(st: Snapshot, claimed: seq<Slot>, i: nat, hs: Outgoing, join: seq<Outgoing>, greeted: seq<Slot>)
    requires i < |st.slots| == |claimed|
    requires claimed[i].outbox == st.slots[i].outbox
    requires forall j :: 0 <= j < |st.slots| && j != i ==> claimed[j] == st.slots[j]
    requires |join| <= 1
    requires greeted == if |join| == 1 then SendTo(SendTo(claimed, i, hs), i, join[0]) else SendTo(claimed, i, hs)
    ensures |greeted| == |st.slots|
    ensures greeted[i] == claimed[i].(outbox := st.slots[i].outbox + [hs] + join)
    ensures forall j :: 0 <= j < |st.slots| && j != i ==> greeted[j] == st.slots[j]
  {
    if |join| == 0 {
      assert st.slots[i].outbox + [hs] + join == st.slots[i].outbox + [hs];
    }
  }



  // ---------------------------------------------------------------- handleMessage

  /** The hint the occupancy reply ends with when several others are connected. */
  const LIST_HINT: string := " Enter !list to see them."

  /** The occupancy reply to a new user; `other` is the first other ready user's name. */
  function OccupancyReply(numClients: int, other: Option<string>): (r: string)
    ensures numClients == 2 && other.Some? ==> |r| >= |other.value| && r[|r| - |other.value|..] == other.value
    ensures numClients > 2 ==> |r| >= |LIST_HINT| && r[|r| - |LIST_HINT|..] == LIST_HINT
  {
    if numClients == 2 then
      var head := "There is currently 1 other user on this server: ";
      var name := if other.Some? then other.value else "";
      assert (head + name)[|head|..] == name;
      head + name
    else
      var head := "There are currently " + IntToString(numClients - 1) + " other users on this server.";
      var hint := if numClients > 1 then LIST_HINT else "";
      assert (head + hint)[|head|..] == hint;
      head + hint
  }

  /** The reply uses the singular form exactly when `numClients` is two. */
  lemma OccupancyReplySingular(numClients: int, other: Option<string>)
    ensures var reply := OccupancyReply(numClients, other);
      (|reply| >= 16 && reply[..16] == "There is current") <==> numClients == 2
  {
    var reply := OccupancyReply(numClients, other);
    if numClients == 2 {
      var head := "There is currently 1 other user on this server: ";
      assert reply[..16] == head[..16];
    } else if |reply| >= 16 {
      assert reply[..16][6] == 'a' != "There is current"[6];
    }
  }

  /** HANDSHAKE; `None` where reading the payload throws. */
  function OnHandshake(st: Snapshot, cfg: Config, i: nat, data: Option<seq<byte>>): (r: Option<Snapshot>)
    requires i < |st.slots| && IsValid(st.slots[i])
    requires cfg.consts.minUpdateInterval <= cfg.consts.maxUpdateInterval
    ensures r.None? <==> data.Some? && ParseHandshake(data.value).None?
    ensures r.Some? ==> |r.value.slots| == |st.slots|
    ensures r.Some? ==> r.value.numClients == st.numClients || r.value.numClients == st.numClients - 1
  {
    if data.None? then Some(st)
    else match ParseHandshake(data.value)
      case None => None
      case Some((name, _)) =>
        if NameTaken(st.slots, i, ToLowerAscii(name)) then Some(Release(st, cfg, i, "Your username is already in use."))
        else
          var other := FirstHit(st.slots, i, AnyUser);
          var reply := OccupancyReply(st.numClients, if other.Some? then Some(st.slots[other.value].username) else None);
          var named := st.slots[i := st.slots[i].(username := name, receivedHandshake := true)];
          Some(Snapshot(BroadcastReady(SendTo(named, i, ServerText(reply)), i, JoinNotice(name)), st.numClients))
  }

  /** PLUGIN_UPDATE: from a ready slot, the same bytes to every other ready slot. */
  function OnPluginUpdate(st: Snapshot, i: nat, data: Option<seq<byte>>): (r: Snapshot)
    requires i < |st.slots|
    ensures |r.slots| == |st.slots| && r.numClients == st.numClients
    ensures forall j :: 0 <= j < |st.slots| ==> SameExceptOutbox(st.slots[j], r.slots[j])
  {
    if data.Some? && IsReady(st.slots[i]) then
      Snapshot(BroadcastReady(st.slots, if SEND_UPDATES_TO_SENDER then -1 else i,
                              Outgoing(ServerMessageId.PluginUpdate, data.value)), st.numClients)
    else st
  }

  /** TEXT_MESSAGE: the `!list` and `!quit` commands, else chat prefixed with the sender's name. */
  function OnTextMessage(st: Snapshot, cfg: Config, i: nat, data: Option<seq<byte>>): (r: Snapshot)
    requires i < |st.slots| && IsValid(st.slots[i])
    requires cfg.consts.minUpdateInterval <= cfg.consts.maxUpdateInterval
    ensures |r.slots| == |st.slots|
    ensures r.numClients == st.numClients || r.numClients == st.numClients - 1
    ensures (data.None? || DecodeAscii(data.value) != "!quit") ==>
      r.numClients == st.numClients && forall j :: 0 <= j < |st.slots| ==> SameExceptOutbox(st.slots[j], r.slots[j])
  {
    if data.None? || !IsReady(st.slots[i]) then st
    else
      var text := DecodeAscii(data.value);
      if |text| > 0 && text[0] == '!' && text == "!list" then
        Snapshot(SendTo(st.slots, i, ServerText("Connected users:\n" + ReadyNames(st.slots))), st.numClients)
      else if |text| > 0 && text[0] == '!' && text == "!quit" then
        Release(st, cfg, i, "Requested quit")
      else
        Snapshot(BroadcastReady(st.slots, i, ChatText("[" + st.slots[i].username + "] " + text)), st.numClients)
  }

  /**
   * SCREEN_WATCH_PLAYER: record the name; if it changed, is not empty and
   * is not the requester's own, queue the first ready user of that name's
   * cached screenshot on the requester.
   */
  function OnWatchPlayer(st: Snapshot, i: nat, data: Option<seq<byte>>): (r: Snapshot)
    requires i < |st.slots|
    ensures |r.slots| == |st.slots| && r.numClients == st.numClients
    ensures forall j :: 0 <= j < |st.slots| && j != i ==> r.slots[j] == st.slots[j]
  {
    if !IsReady(st.slots[i]) then st
    else
      var name := if data.Some? then DecodeAscii(data.value) else "";
      var changed := name != st.slots[i].watchPlayerName;
      var slots1 := if changed then st.slots[i := st.slots[i].(watchPlayerName := name)] else st.slots;
      if changed && |name| > 0 && name != st.slots[i].username then
        match FirstHit(slots1, i, Named(name))
        case Some(t) =>
          if slots1[t].screenshot.Some? then
            Snapshot(SendTo(slots1, i, Outgoing(ServerMessageId.ScreenshotShare, slots1[t].screenshot.value)), st.numClients)
          else Snapshot(slots1, st.numClients)
        case None => Snapshot(slots1, st.numClients)
      else Snapshot(slots1, st.numClients)
  }

  /**
   * SCREENSHOT_SHARE: from a ready slot and within the size limit, cache
   * the bytes, announce the share to every ready slot, and queue the bytes
   * on the first other ready slot watching the sender.
   */
  function OnScreenshot(st: Snapshot, cfg: Config, i: nat, data: Option<seq<byte>>): (r: Snapshot)
    requires i < |st.slots|
    ensures |r.slots| == |st.slots| && r.numClients == st.numClients
    ensures forall j :: 0 <= j < |st.slots| && j != i ==> SameExceptOutbox(st.slots[j], r.slots[j])
  {
    if data.Some? && |data.value| <= cfg.consts.maxScreenshotBytes && IsReady(st.slots[i]) then
      var name := st.slots[i].username;
      var cached := st.slots[i := st.slots[i].(screenshot := Some(data.value))];
      var announced := BroadcastReady(cached, -1, ChatText(name + " has shared a screenshot."));
      match FirstHit(announced, i, Watching(name))
      case Some(t) => Snapshot(SendTo(announced, t, Outgoing(ServerMessageId.ScreenshotShare, data.value)), st.numClients)
      case None => Snapshot(announced, st.numClients)
    else st
  }

  /** CONNECTION_END: disconnect with the reason the client sent. */
  function OnConnectionEnd(st: Snapshot, cfg: Config, i: nat, data: Option<seq<byte>>): (r: Snapshot)
    requires i < |st.slots| && st.slots[i].tcp.Tcp?
    requires cfg.consts.minUpdateInterval <= cfg.consts.maxUpdateInterval
    ensures |r.slots| == |st.slots| && !IsValid(r.slots[i])
    ensures r.numClients == st.numClients || r.numClients == st.numClients - 1
  {
    Release(st, cfg, i, if data.Some? then DecodeAscii(data.value) else "")
  }

  /** handleMessage: nothing for an invalid slot, else the case for the kind. */
  function Dispatch(st: Snapshot, cfg: Config, i: int, id: ClientMessageId, data: Option<seq<byte>>): (r: Option<Snapshot>)
    requires cfg.consts.minUpdateInterval <= cfg.consts.maxUpdateInterval
    ensures r.None? <==> 0 <= i < |st.slots| && IsValid(st.slots[i]) && id == ClientMessageId.Handshake
                         && data.Some? && ParseHandshake(data.value).None?
    ensures r.Some? ==> |r.value.slots| == |st.slots|
    ensures r.Some? ==> r.value.numClients == st.numClients || r.value.numClients == st.numClients - 1
  {
    if !(0 <= i < |st.slots| && IsValid(st.slots[i])) then Some(st)
    else match id
      case Handshake => OnHandshake(st, cfg, i, data)
      case PluginUpdate => Some(OnPluginUpdate(st, i, data))
      case TextMessage => Some(OnTextMessage(st, cfg, i, data))
      case ScreenWatchPlayer => Some(OnWatchPlayer(st, i, data))
      case ScreenshotShare => Some(OnScreenshot(st, cfg, i, data))
      case ConnectionEnd => Some(OnConnectionEnd(st, cfg, i, data))
  }

  /**
   * A parsed handshake whose name matches another ready user's once both
   * are lower-cased is answered by a disconnect. Otherwise the slot becomes
   * ready under the new name, is sent the occupancy reply, and every other
   * ready slot, and only those, is sent the join notice.
   */
  lemma HandshakeOutcome(st: Snapshot, cfg: Config, i: nat, data: seq<byte>, name: string, version: string)
    requires WellFormed(st) && i < |st.slots| && IsValid(st.slots[i])
    requires cfg.consts.minUpdateInterval <= cfg.consts.maxUpdateInterval
    requires ParseHandshake(data) == Some((name, version))
    ensures var r := OnHandshake(st, cfg, i, Some(data));
      && r.Some? && WellFormed(r.value)
      && (NameTaken(st.slots, i, ToLowerAscii(name)) ==> r.value == Release(st, cfg, i, "Your username is already in use."))
      && (!NameTaken(st.slots, i, ToLowerAscii(name)) ==>
            var other := FirstHit(st.slots, i, AnyUser);
            && r.value.numClients == st.numClients && |r.value.slots| == |st.slots|
            && IsReady(r.value.slots[i]) && r.value.slots[i].username == name
            && r.value.slots[i].(outbox := st.slots[i].outbox) == st.slots[i].(username := name, receivedHandshake := true)
            && r.value.slots[i].outbox == st.slots[i].outbox
                 + [ServerText(OccupancyReply(st.numClients, if other.Some? then Some(st.slots[other.value].username) else None))]
            && (forall j :: 0 <= j < |st.slots| && j != i ==>
                  r.value.slots[j] == if IsReady(st.slots[j]) then Enqueue(st.slots[j], JoinNotice(name)) else st.slots[j]))
  {
    var r := OnHandshake(st, cfg, i, Some(data));
    if NameTaken(st.slots, i, ToLowerAscii(name)) {
      ReleaseKeepsWellFormed(st, cfg, i, "Your username is already in use.");
    } else {
      var named := st.slots[i := st.slots[i].(username := name, receivedHandshake := true)];
      OccupiedSameFlags(st.slots, named);
      var other := FirstHit(st.slots, i, AnyUser);
      var reply := OccupancyReply(st.numClients, if other.Some? then Some(st.slots[other.value].username) else None);
      SendToKeepsWellFormed(Snapshot(named, st.numClients), i, ServerText(reply));
      BroadcastReadyKeepsWellFormed(Snapshot(SendTo(named, i, ServerText(reply)), st.numClients), i, JoinNotice(name));
    }
  }

  /**
   * A plugin update from a slot that is not ready, or without data, changes
   * nothing; otherwise the identical bytes are queued on every ready slot
   * except the sender, and nothing else changes.
   */
  lemma PluginUpdateFanOut(st: Snapshot, i: nat, data: Option<seq<byte>>)
    requires i < |st.slots|
    ensures var r := OnPluginUpdate(st, i, data);
      && r.numClients == st.numClients && |r.slots| == |st.slots|
      && (data.None? || !IsReady(st.slots[i]) ==> r == st)
      && (forall j :: 0 <= j < |st.slots| ==>
            r.slots[j] == if data.Some? && IsReady(st.slots[i]) && j != i && IsReady(st.slots[j])
                          then Enqueue(st.slots[j], Outgoing(ServerMessageId.PluginUpdate, data.value))
                          else st.slots[j])
  {
  }

  /**
   * Chat from a ready slot: exactly "!list" answers the sender alone with
   * the roster, exactly "!quit" disconnects the sender, and any other text
   * (other commands included) goes to every other ready slot prefixed with
   * the sender's name.
   */
  lemma ChatOutcome(st: Snapshot, cfg: Config, i: nat, data: seq<byte>)
    requires i < |st.slots| && IsReady(st.slots[i])
    requires cfg.consts.minUpdateInterval <= cfg.consts.maxUpdateInterval
    ensures var text := DecodeAscii(data); var r := OnTextMessage(st, cfg, i, Some(data));
      && (text == "!list" ==>
            r == Snapshot(SendTo(st.slots, i, ServerText("Connected users:\n" + ReadyNames(st.slots))), st.numClients))
      && (text == "!quit" ==> r == Release(st, cfg, i, "Requested quit"))
      && (text != "!list" && text != "!quit" ==>
            && r.numClients == st.numClients && |r.slots| == |st.slots|
            && forall j :: 0 <= j < |st.slots| ==>
                 r.slots[j] == if j != i && IsReady(st.slots[j])
                               then Enqueue(st.slots[j], ChatText("[" + st.slots[i].username + "] " + text))
                               else st.slots[j])
  {
  }

  /** Chat from a slot that is not ready, or without data, changes nothing. */
  lemma ChatIgnored(st: Snapshot, cfg: Config, i: nat, data: Option<seq<byte>>)
    requires i < |st.slots| && IsValid(st.slots[i]) && (data.None? || !IsReady(st.slots[i]))
    requires cfg.consts.minUpdateInterval <= cfg.consts.maxUpdateInterval
    ensures OnTextMessage(st, cfg, i, data) == st
  {
  }

  /**
   * A screenshot that is too large, missing, or from a slot that is not
   * ready changes nothing. Otherwise it is cached on the sender, the share
   * is announced to every ready slot, and the bytes go to one slot at most:
   * the lowest-index other ready slot watching exactly the sender's name.
   */
  lemma ScreenshotOutcome(st: Snapshot, cfg: Config, i: nat, data: Option<seq<byte>>)
    requires i < |st.slots|
    ensures var r := OnScreenshot(st, cfg, i, data);
      && (!(data.Some? && |data.value| <= cfg.consts.maxScreenshotBytes && IsReady(st.slots[i])) ==> r == st)
      && (data.Some? && |data.value| <= cfg.consts.maxScreenshotBytes && IsReady(st.slots[i]) ==>
            var name := st.slots[i].username;
            var notice := ChatText(name + " has shared a screenshot.");
            var watcher := FirstHit(st.slots, i, Watching(name));
            && r.numClients == st.numClients && |r.slots| == |st.slots|
            && r.slots[i] == Enqueue(st.slots[i].(screenshot := Some(data.value)), notice)
            && (forall j :: 0 <= j < |st.slots| && j != i ==>
                  && SameExceptOutbox(st.slots[j], r.slots[j])
                  && r.slots[j].outbox == st.slots[j].outbox
                       + (if IsReady(st.slots[j]) then [notice] else [])
                       + (if watcher == Some(j) then [Outgoing(ServerMessageId.ScreenshotShare, data.value)] else [])))
  {
    if data.Some? && |data.value| <= cfg.consts.maxScreenshotBytes && IsReady(st.slots[i]) {
      var name := st.slots[i].username;
      var cached := st.slots[i := st.slots[i].(screenshot := Some(data.value))];
      var announced := BroadcastReady(cached, -1, ChatText(name + " has shared a screenshot."));
      FirstHitSameHits(st.slots, announced, i, Watching(name), 0);
    }
  }

  /**
   * The watch command records the name and queues a screenshot on the
   * requester exactly when the name changed, is not empty, is not the
   * requester's own, and the first other ready user of that name has one
   * cached; no other slot changes.
   */
  lemma WatchOutcome(st: Snapshot, i: nat, data: Option<seq<byte>>)
    requires i < |st.slots|
    ensures var r := OnWatchPlayer(st, i, data);
      var name := if data.Some? then DecodeAscii(data.value) else "";
      var target := FirstHit(st.slots, i, Named(name));
      var sends := name != st.slots[i].watchPlayerName && |name| > 0 && name != st.slots[i].username
                   && target.Some? && st.slots[target.value].screenshot.Some?;
      && r.numClients == st.numClients && |r.slots| == |st.slots|
      && (!IsReady(st.slots[i]) ==> r == st)
      && (IsReady(st.slots[i]) ==>
            && (forall j :: 0 <= j < |st.slots| && j != i ==> r.slots[j] == st.slots[j])
            && r.slots[i].(outbox := st.slots[i].outbox) == st.slots[i].(watchPlayerName := name)
            && (!sends ==> r.slots[i].outbox == st.slots[i].outbox)
            && (sends ==>
                  r.slots[i].outbox == st.slots[i].outbox
                    + [Outgoing(ServerMessageId.ScreenshotShare, st.slots[target.value].screenshot.value)]))
  {
    if IsReady(st.slots[i]) {
      var name := if data.Some? then DecodeAscii(data.value) else "";
      var slots1 := if name != st.slots[i].watchPlayerName then st.slots[i := st.slots[i].(watchPlayerName := name)] else st.slots;
      FirstHitSameHits(st.slots, slots1, i, Named(name), 0);
    }
  }

  /**
   * handleMessage keeps the table well formed; it fails only on a
   * handshake from a valid slot whose payload cannot be read.
   */
  lemma DispatchKeepsWellFormed(st: Snapshot, cfg: Config, i: int, id: ClientMessageId, data: Option<seq<byte>>)
    requires WellFormed(st) && cfg.consts.minUpdateInterval <= cfg.consts.maxUpdateInterval
    ensures var r := Dispatch(st, cfg, i, id, data);
      && (r.None? <==> 0 <= i < |st.slots| && IsValid(st.slots[i]) && id.Handshake? && data.Some?
                        && ParseHandshake(data.value).None?)
      && (r.Some? ==> WellFormed(r.value))
  {
    if 0 <= i < |st.slots| && IsValid(st.slots[i]) {
      match id
      case Handshake =>
        if data.Some? && ParseHandshake(data.value).Some? {
          var (name, version) := ParseHandshake(data.value).value;
          HandshakeOutcome(st, cfg, i, data.value, name, version);
        }
      case PluginUpdate =>
        if data.Some? && IsReady(st.slots[i]) {
          BroadcastReadyKeepsWellFormed(st, i, Outgoing(ServerMessageId.PluginUpdate, data.value));
        }
      case TextMessage =>
        if data.Some? && IsReady(st.slots[i]) {
          var text := DecodeAscii(data.value);
          if text == "!list" {
            SendToKeepsWellFormed(st, i, ServerText("Connected users:\n" + ReadyNames(st.slots)));
          } else if text == "!quit" {
            ReleaseKeepsWellFormed(st, cfg, i, "Requested quit");
          } else {
            BroadcastReadyKeepsWellFormed(st, i, ChatText("[" + st.slots[i].username + "] " + text));
          }
        }
      case ScreenWatchPlayer =>
        WatchKeepsWellFormed(st, i, data);
      case ScreenshotShare =>
        ScreenshotKeepsWellFormed(st, cfg, i, data);
      case ConnectionEnd =>
        ReleaseKeepsWellFormed(st, cfg, i, if data.Some? then DecodeAscii(data.value) else "");
    }
  }

  lemma WatchKeepsWellFormed(st: Snapshot, i: nat, data: Option<seq<byte>>)
    requires WellFormed(st) && i < |st.slots|
    ensures WellFormed(OnWatchPlayer(st, i, data))
  {
    var r := OnWatchPlayer(st, i, data);
    WatchOutcome(st, i, data);
    OccupiedSameFlags(st.slots, r.slots);
  }

  lemma ScreenshotKeepsWellFormed(st: Snapshot, cfg: Config, i: nat, data: Option<seq<byte>>)
    requires WellFormed(st) && i < |st.slots|
    ensures WellFormed(OnScreenshot(st, cfg, i, data))
  {
    var r := OnScreenshot(st, cfg, i, data);
    ScreenshotOutcome(st, cfg, i, data);
    OccupiedSameFlags(st.slots, r.slots);
  }

  // ---------------------------------------------------------------- timeout sweep

  /** The timeout rule of handleDisconnects for a valid slot. */
  predicate TimedOut(s: Slot, now: int) {
    now - s.lastMessageTime > CLIENT_TIMEOUT_DELAY
      || (!s.receivedHandshake && now - s.connectionStartTime > CLIENT_HANDSHAKE_TIMEOUT_DELAY)
  }

  /**
   * A slot times out once more than 8000 ms have passed since its last
   * message, or, before its handshake, more than 5000 ms since it
   * connected; having timed out, it stays timed out while no message arrives.
   */
  lemma TimedOutPersists(s: Slot, now: int, later: int)
    requires now <= later
    ensures TimedOut(s, now) ==> TimedOut(s, later)
  {
  }

  /** The sweep disconnects a valid slot that timed out and an invalid slot not yet released. */
  predicate SweepDrops(s: Slot, now: int) {
    if IsValid(s) then TimedOut(s, now) else !s.canBeReplaced
  }

  function SweepReason(s: Slot): string {
    if IsValid(s) then "Timeout" else "Connection lost"
  }

  /** The loop body of handleDisconnects for slot `i`. */
  function SweepStep(st: Snapshot, cfg: Config, now: int, i: nat): (r: Snapshot)
    requires WellFormed(st) && i < |st.slots|
    requires cfg.consts.minUpdateInterval <= cfg.consts.maxUpdateInterval
    ensures WellFormed(r) && |r.slots| == |st.slots|
  {
    var s := st.slots[i];
    if SweepDrops(s, now) then
      ReleaseKeepsWellFormed(st, cfg, i, SweepReason(s));
      Release(st, cfg, i, SweepReason(s))
    else st
  }

  /** The sweep over slots 0 .. k-1, in order. */
  function Sweep(st: Snapshot, cfg: Config, now: int, k: nat): (r: Snapshot)
    requires WellFormed(st) && k <= |st.slots|
    requires cfg.consts.minUpdateInterval <= cfg.consts.maxUpdateInterval
    ensures WellFormed(r) && |r.slots| == |st.slots|
  {
    if k == 0 then st else SweepStep(Sweep(st, cfg, now, k - 1), cfg, now, k - 1)
  }

  lemma SameExceptOutboxTrans(a: Slot, b: Slot, c: Slot)
    requires SameExceptOutbox(a, b) && SameExceptOutbox(b, c)
    ensures SameExceptOutbox(a, c)
  {
  }

  /** The step for slot `i` is disconnectClient with the sweep's reason for it, or nothing. */
  lemma SweepStepRelease(st: Snapshot, cfg: Config, now: int, i: nat)
    requires WellFormed(st) && i < |st.slots|
    requires cfg.consts.minUpdateInterval <= cfg.consts.maxUpdateInterval
    ensures SweepDrops(st.slots[i], now) ==>
      SweepStep(st, cfg, now, i) == Release(st, cfg, i, if IsValid(st.slots[i]) then "Timeout" else "Connection lost")
    ensures !SweepDrops(st.slots[i], now) ==> SweepStep(st, cfg, now, i) == st
  {
  }

  /** One step of the sweep, seen from slot `j`: a dropped slot is closed and released, any other only gets messages. */
  lemma SweepStepAt(st: Snapshot, cfg: Config, now: int, i: nat, j: nat)
    requires WellFormed(st) && i < |st.slots| && j < |st.slots|
    requires cfg.consts.minUpdateInterval <= cfg.consts.maxUpdateInterval
    ensures var r := SweepStep(st, cfg, now, i);
      if j == i && SweepDrops(st.slots[i], now) then
        r.slots[j].canBeReplaced && r.slots[j].tcp == Tcp(false) && !r.slots[j].receivedHandshake
      else SameExceptOutbox(st.slots[j], r.slots[j])
  {
    var s := st.slots[i];
    if SweepDrops(s, now) {
      if j == i {
        ReleaseOccupied(st, cfg, i, SweepReason(s));
      } else {
        ReleaseOthers(st, cfg, i, SweepReason(s), j);
      }
    }
  }

  /**
   * After sweeping the first `k` slots, each of them that the sweep rule
   * drops (judged on the slot as it was before the sweep) is released and
   * closed, each other one has only had messages queued, and the slots not
   * yet reached have only had messages queued.
   */
  lemma {:induction false} SweepPrefix(st: Snapshot, cfg: Config, now: int, k: nat, j: nat)
    requires WellFormed(st) && k <= |st.slots| && j < |st.slots|
    requires cfg.consts.minUpdateInterval <= cfg.consts.maxUpdateInterval
    ensures var r := Sweep(st, cfg, now, k);
      if j < k && SweepDrops(st.slots[j], now) then
        r.slots[j].canBeReplaced && r.slots[j].tcp == Tcp(false) && !r.slots[j].receivedHandshake
      else SameExceptOutbox(st.slots[j], r.slots[j])
  {
    if k > 0 {
      var prev := Sweep(st, cfg, now, k - 1);
      var r := SweepStep(prev, cfg, now, k - 1);
      assert r == Sweep(st, cfg, now, k);
      var a, b, c := st.slots[j], prev.slots[j], r.slots[j];
      SweepPrefix(st, cfg, now, k - 1, j);
      assert if j < k - 1 && SweepDrops(a, now) then b.canBeReplaced && b.tcp == Tcp(false) && !b.receivedHandshake
             else SameExceptOutbox(a, b);
      SweepStepAt(prev, cfg, now, k - 1, j);
      assert if j == k - 1 && SweepDrops(b, now) then c.canBeReplaced && c.tcp == Tcp(false) && !c.receivedHandshake
             else SameExceptOutbox(b, c);
      SweepSlotStep(a, b, c, now, j < k - 1, j == k - 1);
    }
  }

  /**
   * Slot `j` across one more step of the sweep, from its first version `a`
   * through `b` to `c`: `before` says the step for `j` was already taken,
   * `here` that it is this one.
   */
  lemma SweepSlotStep(a: Slot, b: Slot, c: Slot, now: int, before: bool, here: bool)
    requires !(before && here)
    requires if before && SweepDrops(a, now) then b.canBeReplaced && b.tcp == Tcp(false) && !b.receivedHandshake
             else SameExceptOutbox(a, b)
    requires if here && SweepDrops(b, now) then c.canBeReplaced && c.tcp == Tcp(false) && !c.receivedHandshake
             else SameExceptOutbox(b, c)
    ensures if (before || here) && SweepDrops(a, now) then c.canBeReplaced && c.tcp == Tcp(false) && !c.receivedHandshake
            else SameExceptOutbox(a, c)
  {
    if here {
      // slot j was not reached before, so its sweep rule is judged on the same flags
      assert SweepDrops(a, now) == SweepDrops(b, now);
    } else if !(before && SweepDrops(a, now)) {
      SameExceptOutboxTrans(a, b, c);
    }
  }

  /**
   * One full pass of handleDisconnects: a valid slot is disconnected
   * exactly when it timed out, an invalid one exactly when it was never
   * released; every other slot only receives messages.
   */
  lemma SweepOutcome(st: Snapshot, cfg: Config, now: int, j: nat)
    requires WellFormed(st) && j < |st.slots|
    requires cfg.consts.minUpdateInterval <= cfg.consts.maxUpdateInterval
    ensures var r := Sweep(st, cfg, now, |st.slots|);
      && (SweepDrops(st.slots[j], now) ==>
            r.slots[j].canBeReplaced && r.slots[j].tcp == Tcp(false) && !r.slots[j].receivedHandshake)
      && (!SweepDrops(st.slots[j], now) ==> SameExceptOutbox(st.slots[j], r.slots[j]))
  {
    SweepPrefix(st, cfg, now, |st.slots|, j);
  }

  // ---------------------------------------------------------------- screenshot file name

  /** The characters saveScreenshot removes from a player name. */
  const ILLEGAL_FILE_CHARS: string := "\\/:*?\"<>|"

  /** The player name with every illegal character dropped, order kept. */
  function StripIllegal(s: string): (r: string)
    ensures |r| <= |s|
    ensures forall c :: c in r ==> c in s && c !in ILLEGAL_FILE_CHARS
  {
    if |s| == 0 then ""
    else (if s[0] in ILLEGAL_FILE_CHARS then "" else [s[0]]) + StripIllegal(s[1..])
  }

  /** One character is kept exactly when it is legal. */
  lemma StripIllegalChar(c: char)
    ensures StripIllegal([c]) == if c in ILLEGAL_FILE_CHARS then "" else [c]
  {
    assert [c][1..] == [];
  }

  /** Stripping works character by character: it distributes over concatenation. */
  lemma {:induction false} StripIllegalAppend(a: string, b: string)
    ensures StripIllegal(a + b) == StripIllegal(a) + StripIllegal(b)
    decreases |a|
  {
    if |a| == 0 {
      assert a + b == b;
    } else {
      var kept: string := if a[0] in ILLEGAL_FILE_CHARS then "" else [a[0]];
      assert (a + b)[0] == a[0];
      assert (a + b)[1..] == a[1..] + b;
      StripIllegalAppend(a[1..], b);
      var rest, tail := StripIllegal(a[1..]), StripIllegal(b);
      calc {
        StripIllegal(a + b);
        kept + StripIllegal(a[1..] + b);
        kept + (rest + tail);
        { assert kept + (rest + tail) == (kept + rest) + tail; }
        (kept + rest) + tail;
        StripIllegal(a) + StripIllegal(b);
      }
    }
  }

  /** A name without illegal characters is kept whole. */
  lemma {:induction false} StripIllegalKeepsLegal(s: string)
    requires forall c :: c in s ==> c !in ILLEGAL_FILE_CHARS
    ensures StripIllegal(s) == s
  {
    if |s| > 0 {
      assert s[0] in s;
      forall c | c in s[1..] ensures c !in ILLEGAL_FILE_CHARS {
        assert c in s;
      }
      StripIllegalKeepsLegal(s[1..]);
      assert [s[0]] + s[1..] == s;
    }
  }

  /** The separators and extension saveScreenshot adds are legal, so only the stamp can bring an illegal character in. */
  lemma LegalFileName(stripped: string, stamp: string)
    requires forall c :: c in stripped ==> c !in ILLEGAL_FILE_CHARS
    ensures (forall c :: c in stamp ==> c !in ILLEGAL_FILE_CHARS) ==>
      forall c :: c in stripped + " " + stamp + ".png" ==> c !in ILLEGAL_FILE_CHARS
  {
    forall c | c in " .png" ensures c !in ILLEGAL_FILE_CHARS {
    }
  }

  /** The screenshot's path; `stamp` is the formatted date and time. */
  function ScreenshotFileName(player: string, stamp: string): (r: string)
    ensures |r| >= |SCREENSHOT_DIR| + 6
    ensures r[..|SCREENSHOT_DIR| + 1] == SCREENSHOT_DIR + "/" && r[|r| - 4..] == ".png"
    ensures (forall c :: c in stamp ==> c !in ILLEGAL_FILE_CHARS) ==>
      forall c :: c in r[|SCREENSHOT_DIR| + 1..] ==> c !in ILLEGAL_FILE_CHARS
  {
    var dir := SCREENSHOT_DIR + "/";
    var name := StripIllegal(player) + " " + stamp + ".png";
    assert (dir + name)[..|dir|] == dir;
    assert (dir + name)[|dir|..] == name;
    assert name[|name| - 4..] == ".png";
    LegalFileName(StripIllegal(player), stamp);
    dir + name
  }

  // ---------------------------------------------------------------- fault cell

  /** passExceptionToMain: the cell keeps the first fault written to it. */
  function RecordFault(cell: Option<string>, fault: string): (r: Option<string>)
    ensures r.Some?
  {
    if cell.None? then Some(fault) else cell
  }

  /** The cell after the given faults are passed in order. */
  function RecordFaults(cell: Option<string>, faults: seq<string>): (r: Option<string>)
    ensures r.Some? <==> cell.Some? || |faults| > 0
    ensures r.Some? ==> r == cell || r.value in faults
    decreases |faults|
  {
    if |faults| == 0 then cell
    else
      var r := RecordFaults(RecordFault(cell, faults[0]), faults[1..]);
      assert r.Some? && r.value in faults[1..] ==> r.value in faults;
      r
  }

  /** Whatever follows, an empty cell ends up holding the first fault and a full one is never overwritten. */
  lemma {:induction false} FirstFaultWins(cell: Option<string>, faults: seq<string>)
    ensures cell.Some? ==> RecordFaults(cell, faults) == cell
    ensures cell.None? && |faults| > 0 ==> RecordFaults(cell, faults) == Some(faults[0])
    ensures cell.None? && |faults| == 0 ==> RecordFaults(cell, faults) == None
    decreases |faults|
  {
    if |faults| > 0 {
      FirstFaultWins(RecordFault(cell, faults[0]), faults[1..]);
    }
  }
}
