/**
 * The server object of KLFServer/Server.cs: the slot array, the client
 * counter and the fault cell, updated in place by the source's own loops.
 * Every method is proved to leave exactly the state the matching function
 * of ServerRules describes, and to keep the table well formed.
 */
module KLFServer {
  import opened Wrappers
  import opened Wire
  import opened Text
  import opened Protocol
  import opened SlotTable
  import opened ServerRules

  class Server {
    const cfg: Config
    const clients: array<Slot>
    var numClients: int
    var threadException: Option<string>

    /** The slot array and the counter as a value. */
    function State(): Snapshot
      reads this, clients
    {
      Snapshot(clients[..], numClients)
    }

    ghost predicate Valid()
      reads this, clients
    {
      && WellFormed(State())
      && clients.Length == cfg.settings.maxClients
      && cfg.consts.minUpdateInterval <= cfg.consts.maxUpdateInterval
    }

    /** The state hostingLoop sets up: every slot released and unconnected, no clients, no fault. */
    constructor (settings: ServerSettings, consts: Constants)
      requires consts.minUpdateInterval <= consts.maxUpdateInterval
      ensures Valid() && fresh(clients)
      ensures cfg == Config(settings, consts) && numClients == 0 && threadException == None
      ensures clients.Length == settings.maxClients
      ensures forall i :: 0 <= i < clients.Length ==> clients[i] == Vacant
    {
      cfg := Config(settings, consts);
      clients := new Slot[settings.maxClients](_ => Vacant);
      numClients := 0;
      threadException := None;
      new;
      ReleasedTableWellFormed(clients[..]);
    }

    /** clientIsValid: an index in range whose slot is connected. */
    method ClientIsValid(index: int) returns (b: bool)
      ensures b <==> 0 <= index < clients.Length && IsValid(clients[index])
    {
      b := 0 <= index < clients.Length && clients[index].tcp.Tcp? && clients[index].tcp.connected;
    }

    /** clientIsReady: valid and handshaken. */
    method ClientIsReady(index: int) returns (b: bool)
      ensures b <==> 0 <= index < clients.Length && IsReady(clients[index])
    {
      b := ClientIsValid(index);
      b := b && clients[index].receivedHandshake;
    }

    /** passExceptionToMain: only the first fault is kept. */
    method PassExceptionToMain(fault: string)
      modifies this
      ensures threadException == RecordFault(old(threadException), fault)
      ensures old(threadException).Some? ==> threadException == old(threadException)
      ensures numClients == old(numClients)
    {
      if threadException.None? {
        threadException := Some(fault);
      }
    }

    /** addClient: claim the lowest free slot for a connected client, or return -1. */
    method AddClient(connected: bool, now: int) returns (index: int)
      requires Valid()
      modifies this, clients
      ensures Valid()
      ensures (State(), index) == Admit(old(State()), connected, now)
      ensures threadException == old(threadException)
    {
      AdmitClaimsLowestFree(State(), connected, now);
      if !connected {
        return -1;
      }
      var i := 0;
      while i < clients.Length
        invariant 0 <= i <= clients.Length
        invariant FirstFreeFrom(clients[..], i) == FirstFreeFrom(clients[..], 0)
      {
        if clients[i].canBeReplaced && !(clients[i].tcp.Tcp? && clients[i].tcp.connected) {
          clients[i] := Claim(clients[i], now);
          numClients := numClients + 1;
          return i;
        }
        i := i + 1;
      }
      return -1;
    }

    /** The loop of sendServerMessageToAll, sendTextMessageToAll and the plugin-update fan-out. */
    method QueueOnReady(exclude: int, m: Outgoing)
      modifies clients
      ensures clients[..] == BroadcastReady(old(clients[..]), exclude, m)
    {
      ghost var before := clients[..];
      for i := 0 to clients.Length
        invariant forall j :: 0 <= j < i ==> clients[j] == BroadcastReady(before, exclude, m)[j]
        invariant forall j :: i <= j < clients.Length ==> clients[j] == before[j]
      {
        if i != exclude && clients[i].tcp.Tcp? && clients[i].tcp.connected && clients[i].receivedHandshake {
          clients[i] := Enqueue(clients[i], m);
        }
      }
    }

    /** sendServerMessageToAll: a server message to every ready slot but `exclude`. */
    method SendServerMessageToAll(message: string, exclude: int)
      modifies clients
      ensures clients[..] == BroadcastReady(old(clients[..]), exclude, ServerText(message))
    {
      QueueOnReady(exclude, ServerText(message));
    }

    /** sendTextMessageToAll: a chat line to every ready slot but `exclude`. */
    method SendTextMessageToAll(message: string, exclude: int)
      modifies clients
      ensures clients[..] == BroadcastReady(old(clients[..]), exclude, ChatText(message))
    {
      QueueOnReady(exclude, ChatText(message));
    }

    /** sendServerSettingsToAll: the current settings to every valid slot. */
    method SendServerSettingsToAll()
      requires cfg.consts.minUpdateInterval <= cfg.consts.maxUpdateInterval
      modifies clients
      ensures clients[..] == BroadcastValid(old(clients[..]), SettingsMessage(numClients, cfg))
    {
      var m := Outgoing(ServerMessageId.ServerSettings, SettingBytes(numClients, cfg));
      ghost var before := clients[..];
      for i := 0 to clients.Length
        invariant forall j :: 0 <= j < i ==> clients[j] == BroadcastValid(before, m)[j]
        invariant forall j :: i <= j < clients.Length ==> clients[j] == before[j]
      {
        if clients[i].tcp.Tcp? && clients[i].tcp.connected {
          clients[i] := Enqueue(clients[i], m);
        }
      }
    }

    /** disconnectClient. */
    method DisconnectClient(index: nat, message: string)
      requires Valid() && index < clients.Length && clients[index].tcp.Tcp?
      modifies this, clients
      ensures Valid()
      ensures State() == Release(old(State()), cfg, index, message)
      ensures threadException == old(threadException)
    {
      ReleaseKeepsWellFormed(State(), cfg, index, message);
      var s := clients[index];
      if s.tcp.connected {
        s := s.(wire := s.wire + ServerFrame(ServerMessageId.ConnectionEnd, EncodeAscii(message)));
      }
      clients[index] := s.(tcp := Tcp(false));
      if !s.canBeReplaced {
        FreeSlot(index, message);
      }
    }

    /** The part of disconnectClient that frees a slot not yet released. */
    method FreeSlot(index: nat, message: string)
      requires index < clients.Length
      requires cfg.consts.minUpdateInterval <= cfg.consts.maxUpdateInterval
      modifies this, clients
      ensures State() == ServerRules.FreeSlot(old(State()), cfg, index, message)
      ensures threadException == old(threadException)
    {
      ghost var st := State();
      var s := clients[index];
      numClients := numClients - 1;
      clients[index] := s.(canBeReplaced := true, screenshot := None, watchPlayerName := "");
      ghost var released := clients[..];
      if s.receivedHandshake {
        SendServerMessageToAll("User " + s.username + " has disconnected : " + message, -1);
      }
      ghost var notified := if s.receivedHandshake then BroadcastReady(released, -1, DisconnectNotice(s.username, message)) else released;
      assert clients[..] == notified;
      clients[index] := clients[index].(receivedHandshake := false);
      ghost var cleared := notified[index := notified[index].(receivedHandshake := false)];
      assert clients[..] == cleared;
      SendServerSettingsToAll();
    }

    /** The source's `for ... break` searches: the first other ready slot matching `c`. */
    method FindFirst(exclude: int, c: Criterion) returns (r: Option<nat>)
      ensures r == FirstHit(clients[..], exclude, c)
    {
      var i := 0;
      while i < clients.Length
        invariant 0 <= i <= clients.Length
        invariant FirstHitFrom(clients[..], exclude, c, i) == FirstHit(clients[..], exclude, c)
      {
        if i != exclude && clients[i].tcp.Tcp? && clients[i].tcp.connected && clients[i].receivedHandshake
           && Matches(clients[i], c) {
          return Some(i);
        }
        i := i + 1;
      }
      return None;
    }

    /** The duplicate-name loop of the handshake: another ready user with this lower-cased name. */
    method UsernameTaken(index: nat, lower: string) returns (taken: bool)
      ensures taken <==> NameTaken(clients[..], index, lower)
    {
      var i := 0;
      while i < clients.Length
        invariant 0 <= i <= clients.Length
        invariant forall j :: 0 <= j < i ==>
          !(j != index && IsReady(clients[j]) && ToLowerAscii(clients[j].username) == lower)
      {
        if i != index && clients[i].tcp.Tcp? && clients[i].tcp.connected && clients[i].receivedHandshake
           && ToLowerAscii(clients[i].username) == lower {
          assert clients[..][i] == clients[i];
          return true;
        }
        i := i + 1;
      }
      return false;
    }

    /** The active user count sent to the client in slot `index`. */
    method OccupancyMessage(index: nat) returns (reply: string)
      ensures var other := FirstHit(clients[..], index, AnyUser);
        reply == OccupancyReply(numClients, if other.Some? then Some(clients[other.value].username) else None)
    {
      if numClients == 2 {
        reply := "There is currently 1 other user on this server: ";
        var other := FindFirst(index, AnyUser);
        if other.Some? {
          reply := reply + clients[other.value].username;
        }
      } else {
        reply := "There are currently " + IntToString(numClients - 1) + " other users on this server.";
        if numClients > 1 {
          reply := reply + " Enter !list to see them.";
        }
      }
    }

    /** HANDSHAKE; `ok` is false where reading the payload throws. */
    method HandleHandshake(index: nat, data: Option<seq<byte>>) returns (ok: bool)
      requires Valid() && index < clients.Length && IsValid(clients[index])
      modifies this, clients
      ensures Valid()
      ensures var r := OnHandshake(old(State()), cfg, index, data);
        && ok == r.Some?
        && (ok ==> State() == r.value)
        && (!ok ==> State() == old(State()))
      ensures threadException == old(threadException)
    {
      if data.None? {
        return true;
      }
      var parsed := ParseHandshake(data.value);
      if parsed.None? {
        return false;
      }
      var (username, version) := parsed.value;
      ghost var st := State();
      HandshakeOutcome(st, cfg, index, data.value, username, version);
      var taken := UsernameTaken(index, ToLowerAscii(username));
      if taken {
        DisconnectClient(index, "Your username is already in use.");
        return true;
      }
      var reply := OccupancyMessage(index);
      clients[index] := clients[index].(username := username, receivedHandshake := true);
      clients[index] := Enqueue(clients[index], ServerText(reply));
      ghost var named := st.slots[index := st.slots[index].(username := username, receivedHandshake := true)];
      assert clients[..] == SendTo(named, index, ServerText(reply));
      SendServerMessageToAll("User " + username + " has joined the server.", index);
      return true;
    }

    /** PLUGIN_UPDATE: fan the bytes out to the other ready slots. */
    method HandlePluginUpdate(index: nat, data: Option<seq<byte>>)
      requires Valid() && index < clients.Length
      modifies clients
      ensures Valid()
      ensures State() == OnPluginUpdate(old(State()), index, data)
    {
      var ready := ClientIsReady(index);
      if data.Some? && ready {
        PluginUpdateFanOut(State(), index, data);
        BroadcastReadyKeepsWellFormed(State(), index, Outgoing(ServerMessageId.PluginUpdate, data.value));
        QueueOnReady(if SEND_UPDATES_TO_SENDER then -1 else index, Outgoing(ServerMessageId.PluginUpdate, data.value));
      }
    }

    /** TEXT_MESSAGE: the `!list` and `!quit` commands, or chat. */
    method HandleTextMessage(index: nat, data: Option<seq<byte>>)
      requires Valid() && index < clients.Length && IsValid(clients[index])
      modifies this, clients
      ensures Valid()
      ensures State() == OnTextMessage(old(State()), cfg, index, data)
      ensures threadException == old(threadException)
    {
      var ready := ClientIsReady(index);
      if data.None? || !ready {
        return;
      }
      ghost var st := State();
      var text := DecodeAscii(data.value);
      if |text| > 0 && text[0] == '!' {
        if text == "!list" {
          var roster := ConnectedUsers();
          SendToKeepsWellFormed(st, index, ServerText(roster));
          clients[index] := Enqueue(clients[index], ServerText(roster));
          return;
        } else if text == "!quit" {
          DisconnectClient(index, "Requested quit");
          return;
        }
      }
      BroadcastReadyKeepsWellFormed(st, index, ChatText("[" + clients[index].username + "] " + text));
      SendTextMessageToAll("[" + clients[index].username + "] " + text, index);
    }

    /** The `!list` reply: a header line, then every ready user's name on its own line, in slot order. */
    method ConnectedUsers() returns (roster: string)
      requires Valid()
      ensures roster == "Connected users:\n" + ReadyNames(clients[..])
    {
      roster := "Connected users:\n";
      for i := 0 to clients.Length
        invariant roster == "Connected users:\n" + ReadyNames(clients[..i])
      {
        assert clients[..i + 1] == clients[..i] + [clients[i]];
        ReadyNamesAppend(clients[..i], [clients[i]]);
        if clients[i].tcp.Tcp? && clients[i].tcp.connected && clients[i].receivedHandshake {
          roster := roster + clients[i].username + "\n";
        }
      }
      assert clients[..clients.Length] == clients[..];
    }

    /** SCREEN_WATCH_PLAYER: record the name and maybe send that player's screenshot. */
    method HandleWatchPlayer(index: nat, data: Option<seq<byte>>)
      requires Valid() && index < clients.Length
      modifies clients
      ensures Valid()
      ensures State() == OnWatchPlayer(old(State()), index, data)
    {
      WatchKeepsWellFormed(State(), index, data);
      var ready := ClientIsReady(index);
      if !ready {
        return;
      }
      var name := if data.Some? then DecodeAscii(data.value) else "";
      var changed := false;
      if name != clients[index].watchPlayerName {
        clients[index] := clients[index].(watchPlayerName := name);
        changed := true;
      }
      if changed && |name| > 0 && name != clients[index].username {
        var target := FindFirst(index, Named(name));
        if target.Some? && clients[target.value].screenshot.Some? {
          clients[index] := Enqueue(clients[index],
            Outgoing(ServerMessageId.ScreenshotShare, clients[target.value].screenshot.value));
        }
      }
    }

    /** SCREENSHOT_SHARE: cache, announce, and deliver to the first watcher. */
    method HandleScreenshot(index: nat, data: Option<seq<byte>>)
      requires Valid() && index < clients.Length
      modifies clients
      ensures Valid()
      ensures State() == OnScreenshot(old(State()), cfg, index, data)
    {
      ScreenshotKeepsWellFormed(State(), cfg, index, data);
      var ready := ClientIsReady(index);
      if data.Some? && |data.value| <= cfg.consts.maxScreenshotBytes && ready {
        clients[index] := clients[index].(screenshot := Some(data.value));
        var name := clients[index].username;
        SendTextMessageToAll(name + " has shared a screenshot.", -1);
        var watcher := FindFirst(index, Watching(name));
        if watcher.Some? {
          clients[watcher.value] := Enqueue(clients[watcher.value], Outgoing(ServerMessageId.ScreenshotShare, data.value));
        }
      }
    }

    /** handleMessage; `ok` is false where the source throws. */
    method HandleMessage(index: int, id: ClientMessageId, data: Option<seq<byte>>) returns (ok: bool)
      requires Valid()
      modifies this, clients
      ensures Valid()
      ensures var r := Dispatch(old(State()), cfg, index, id, data);
        && ok == r.Some?
        && (ok ==> State() == r.value)
        && (!ok ==> State() == old(State()))
      ensures threadException == old(threadException)
    {
      var valid := ClientIsValid(index);
      if !valid {
        return true;
      }
      ok := true;
      match id
      case Handshake =>
        ok := HandleHandshake(index, data);
      case PluginUpdate =>
        HandlePluginUpdate(index, data);
      case TextMessage =>
        HandleTextMessage(index, data);
      case ScreenWatchPlayer =>
        HandleWatchPlayer(index, data);
      case ScreenshotShare =>
        HandleScreenshot(index, data);
      case ConnectionEnd =>
        DisconnectClient(index, if data.Some? then DecodeAscii(data.value) else "");
    }

    /** One connected client accepted by listenForClients; `refusal` is what is written directly to it. */
    method AcceptClient(now: int) returns (index: int, refusal: seq<byte>)
      requires Valid()
      modifies this, clients
      ensures Valid()
      ensures (State(), index, refusal) == Accept(old(State()), cfg, now)
      ensures threadException == old(threadException)
    {
      AcceptOutcome(State(), cfg, now);
      index := AddClient(true, now);
      refusal := [];
      if index >= 0 {
        var valid := ClientIsValid(index);
        if valid {
          clients[index] := Enqueue(clients[index], Outgoing(ServerMessageId.Handshake, ServerHandshakePayload(cfg.consts)));
          if |cfg.settings.joinMessage| > 0 {
            clients[index] := Enqueue(clients[index], ServerText(cfg.settings.joinMessage));
          }
        }
        SendServerSettingsToAll();
      } else {
        refusal := ServerFrame(HandshakeRefusal, EncodeAscii("Server is currently full"));
      }
    }

    /** One pass of handleDisconnects at time `now`. */
    method HandleDisconnects(now: int)
      requires Valid()
      modifies this, clients
      ensures Valid()
      ensures State() == Sweep(old(State()), cfg, now, clients.Length)
      ensures threadException == old(threadException)
    {
      ghost var st := State();
      for i := 0 to clients.Length
        invariant Valid()
        invariant State() == Sweep(st, cfg, now, i)
        invariant threadException == old(threadException)
      {
        var valid := ClientIsValid(i);
        if valid {
          var s := clients[i];
          if now - s.lastMessageTime > CLIENT_TIMEOUT_DELAY
             || (!s.receivedHandshake && now - s.connectionStartTime > CLIENT_HANDSHAKE_TIMEOUT_DELAY) {
            DisconnectClient(i, "Timeout");
          }
        } else if !clients[i].canBeReplaced {
          DisconnectClient(i, "Connection lost");
        }
      }
    }
  }
}
