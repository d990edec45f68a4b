/**
 * What KLFClient/ClientMain.cs does to its own state, as functions on
 * values: the bounded chat queue, the effect of each server message, the
 * framing of the byte stream, the outgoing and incoming plugin updates,
 * and the configuration file. The class in client.dfy runs the source's
 * loops and is proved to compute exactly these functions.
 */
module ClientRules {
  import opened Wrappers
  import opened Wire
  import opened Text
  import opened Protocol

  const MAX_USERNAME_LENGTH: nat := 32
  const MAX_TEXT_MESSAGE_QUEUE: nat := 128
  const MIN_PORT: int := 0
  const MAX_PORT: int := 65535
  const USERNAME_LABEL: string := "username"
  const IP_LABEL: string := "ip"
  const PORT_LABEL: string := "port"

  // ---------------------------------------------------------------- chat queue

  /** A chat line waiting to be printed; server messages get a "[Server] " prefix. */
  datatype InTextMessage = InTextMessage(fromServer: bool, message: string)

  /** The last `n` elements of `s` (all of them if there are fewer). */
  function Newest<T>(s: seq<T>, n: nat): (r: seq<T>)
    ensures |r| == if |s| <= n then |s| else n
  {
    if |s| <= n then s else s[|s| - n..]
  }

  /** enqueueTextMessage: drop the oldest line when the queue is full, then append. */
  function EnqueueText(q: seq<InTextMessage>, m: InTextMessage): (r: seq<InTextMessage>)
    ensures |q| <= MAX_TEXT_MESSAGE_QUEUE ==> 0 < |r| <= MAX_TEXT_MESSAGE_QUEUE
    ensures |r| > 0 && r[|r| - 1] == m
    ensures r[..|r| - 1] == if |q| >= MAX_TEXT_MESSAGE_QUEUE then q[1..] else q
  {
    (if |q| >= MAX_TEXT_MESSAGE_QUEUE then q[1..] else q) + [m]
  }

  /** Several lines enqueued in order. */
  function EnqueueTexts(q: seq<InTextMessage>, ms: seq<InTextMessage>): seq<InTextMessage>
    decreases |ms|
  {
    if |ms| == 0 then q else EnqueueTexts(EnqueueText(q, ms[0]), ms[1..])
  }

  lemma NewestOfNewest<T>(a: seq<T>, b: seq<T>, n: nat)
    ensures Newest(Newest(a, n) + b, n) == Newest(a + b, n)
  {
    if |a| > n {
      var a' := a[|a| - n..];
      assert a' + b == (a + b)[|a| - n..];
    }
  }

  /** Below the bound, one enqueue keeps the newest lines. */
  lemma EnqueueTextIsNewest(q: seq<InTextMessage>, m: InTextMessage)
    requires |q| <= MAX_TEXT_MESSAGE_QUEUE
    ensures EnqueueText(q, m) == Newest(q + [m], MAX_TEXT_MESSAGE_QUEUE)
  {
    if |q| == MAX_TEXT_MESSAGE_QUEUE {
      assert (q + [m])[1..] == q[1..] + [m];
    }
  }

  /**
   * However many lines arrive, the chat queue holds the newest 128 of
   * everything queued, oldest first: nothing is reordered and only the
   * oldest are dropped.
   */
  lemma {:induction false} EnqueueTextsKeepsNewest(q: seq<InTextMessage>, ms: seq<InTextMessage>)
    requires |q| <= MAX_TEXT_MESSAGE_QUEUE
    ensures EnqueueTexts(q, ms) == Newest(q + ms, MAX_TEXT_MESSAGE_QUEUE)
    decreases |ms|
  {
    if |ms| == 0 {
      assert q + ms == q;
    } else {
      var q1 := EnqueueText(q, ms[0]);
      EnqueueTextIsNewest(q, ms[0]);
      EnqueueTextsKeepsNewest(q1, ms[1..]);
      NewestOfNewest(q + [ms[0]], ms[1..], MAX_TEXT_MESSAGE_QUEUE);
      assert q + [ms[0]] + ms[1..] == q + ms;
    }
  }

  // ---------------------------------------------------------------- framing

  /**
   * One frame read off the stream: the kind and length from the header,
   * then `length` payload bytes; a length of zero or less means no payload
   * (null data). `None` while the stream does not yet hold the whole frame.
   */
  function ParseFrame(stream: seq<byte>): (r: Option<(int, Option<seq<byte>>, seq<byte>)>)
    ensures r.Some? ==> |r.value.2| < |stream|
  {
    if |stream| < MSG_HEADER_LENGTH then None
    else
      var (id, len) := DecodeHeader(stream[..MSG_HEADER_LENGTH]);
      if len <= 0 then Some((id, None, stream[MSG_HEADER_LENGTH..]))
      else if MSG_HEADER_LENGTH + len <= |stream| then
        Some((id, Some(stream[MSG_HEADER_LENGTH..MSG_HEADER_LENGTH + len]), stream[MSG_HEADER_LENGTH + len..]))
      else None
  }

  /** A stream cut after its header parses to that header's kind, the payload it announces and the bytes after it. */
  lemma ParseFrameSplit(header: seq<byte>, body: seq<byte>, data: Option<seq<byte>>, rest: seq<byte>)
    requires |header| == MSG_HEADER_LENGTH
    requires var len := DecodeHeader(header).1;
      if len <= 0 then data == None && rest == body
      else |body| >= len && data == Some(body[..len]) && rest == body[len..]
    ensures ParseFrame(header + body) == Some((DecodeHeader(header).0, data, rest))
  {
    var stream := header + body;
    assert stream[..MSG_HEADER_LENGTH] == header;
    assert stream[MSG_HEADER_LENGTH..] == body;
    var len := DecodeHeader(header).1;
    if len > 0 {
      assert stream[MSG_HEADER_LENGTH..MSG_HEADER_LENGTH + len] == body[..len];
      assert stream[MSG_HEADER_LENGTH + len..] == body[len..];
    }
  }

  /**
   * What the server writes, the client reads back: the kind's ordinal, the
   * payload (null when empty) and exactly the bytes after the frame.
   */
  lemma FrameRoundTrip(id: ServerMessageId, payload: seq<byte>, rest: seq<byte>)
    requires |payload| <= INT32_MAX
    ensures ParseFrame(ServerFrame(id, payload) + rest)
      == Some((ServerOrdinal(id), if |payload| > 0 then Some(payload) else None, rest))
  {
    var stream := ServerFrame(id, payload) + rest;
    var h := Header(ServerOrdinal(id), |payload|);
    assert stream == h + (payload + rest);
    assert stream[..MSG_HEADER_LENGTH] == h;
    HeaderRoundTrip(ServerOrdinal(id), |payload|);
    assert stream[MSG_HEADER_LENGTH..] == payload + rest;
    if |payload| > 0 {
      assert stream[MSG_HEADER_LENGTH..MSG_HEADER_LENGTH + |payload|] == payload;
      assert stream[MSG_HEADER_LENGTH + |payload|..] == rest;
    }
  }

  // ---------------------------------------------------------------- server messages

  /** The client state that handleMessage changes; `sent` is every byte written to the server. */
  datatype Session = Session(
    endSession: bool,
    updateInterval: int,
    maxQueuedUpdates: int,
    textQueue: seq<InTextMessage>,
    pluginQueue: seq<Option<seq<byte>>>,
    sent: seq<byte>)

  /** What handleMessage ends with: the new state, and whether it threw. */
  datatype Handled = Handled(session: Session, crashed: bool)

  /**
   * handleMessage for the kind with ordinal `id`. Reading null data, or an
   * int from fewer than four bytes, throws; a settings message of four to
   * seven bytes throws after it has set the update interval. Kinds the
   * switch has no case for are ignored.
   */
  function HandleServerMessage(s: Session, c: Constants, username: string, id: int, data: Option<seq<byte>>): (r: Handled)
    ensures ServerIdFromOrdinal(id).None? ==> r == Handled(s, false)
    ensures r.crashed ==> data.None? || |data.value| < 8
    ensures s.endSession ==> r.session.endSession
    ensures s.sent <= r.session.sent
    ensures |s.textQueue| <= MAX_TEXT_MESSAGE_QUEUE ==> |r.session.textQueue| <= MAX_TEXT_MESSAGE_QUEUE
  {
    match ServerIdFromOrdinal(id)
    case None => Handled(s, false)
    case Some(kind) =>
      match kind
      case Handshake =>
        if data.None? || |data.value| < 4 then Handled(s, true)
        else if IntFromBytes(data.value, 0).value != c.netProtocolVersion then Handled(s.(endSession := true), false)
        else Handled(s.(sent := s.sent + HandshakeFrame(username, c.programVersion)), false)
      case HandshakeRefusal =>
        if data.None? then Handled(s, true) else Handled(s.(endSession := true), false)
      case ServerMessage =>
        if data.None? then Handled(s, true)
        else Handled(s.(textQueue := EnqueueText(s.textQueue, InTextMessage(true, DecodeAscii(data.value)))), false)
      case TextMessage =>
        if data.None? then Handled(s, true)
        else Handled(s.(textQueue := EnqueueText(s.textQueue, InTextMessage(false, DecodeAscii(data.value)))), false)
      case PluginUpdate =>
        Handled(s.(pluginQueue := s.pluginQueue + [data]), false)
      case ServerSettings =>
        if data.None? || |data.value| < 4 then Handled(s, true)
        else
          var s1 := s.(updateInterval := IntFromBytes(data.value, 0).value);
          if |data.value| < 8 then Handled(s1, true)
          else Handled(s1.(maxQueuedUpdates := IntFromBytes(data.value, 4).value), false)
      case ScreenshotShare => Handled(s, false)
      case ConnectionEnd => Handled(s, false)
  }

  /**
   * A server handshake ends the session exactly when its protocol version
   * differs from the client's; otherwise the client answers with its own
   * handshake frame.
   */
  lemma HandshakeAnswer(s: Session, c: Constants, username: string, data: seq<byte>)
    requires |data| >= 4
    ensures var h := HandleServerMessage(s, c, username, ServerOrdinal(ServerMessageId.Handshake), Some(data));
      && !h.crashed
      && (h.session.endSession <==> s.endSession || IntFromBytes(data, 0) != Some(c.netProtocolVersion))
      && (IntFromBytes(data, 0) == Some(c.netProtocolVersion) ==>
            h.session == s.(sent := s.sent + HandshakeFrame(username, c.programVersion)))
      && (IntFromBytes(data, 0) != Some(c.netProtocolVersion) ==> h.session == s.(endSession := true))
  {
  }

  /**
   * A refusal ends the session whatever its payload, changing nothing
   * else; only a null payload, whose decoding throws, does not.
   */
  lemma HandshakeRefusalEnds(s: Session, c: Constants, username: string, data: Option<seq<byte>>)
    ensures var h := HandleServerMessage(s, c, username, ServerOrdinal(ServerMessageId.HandshakeRefusal), data);
      && (data.Some? ==> !h.crashed && h.session == s.(endSession := true))
      && (data.None? ==> h.crashed && h.session == s)
  {
  }

  /**
   * The server's own handshake is accepted by a client with the same
   * protocol version: the client replies instead of ending the session.
   */
  lemma ServerHandshakeAccepted(s: Session, c: Constants, username: string)
    requires IsInt32(c.netProtocolVersion)
    ensures var h := HandleServerMessage(s, c, username, ServerOrdinal(ServerMessageId.Handshake), Some(ServerHandshakePayload(c)));
      !h.crashed && h.session == s.(sent := s.sent + HandshakeFrame(username, c.programVersion))
  {
    IntRoundTrip(c.netProtocolVersion, EncodeAscii(c.programVersion));
  }

  /**
   * Server and chat messages queue the same decoded text, differing only in
   * the server flag; nothing else changes.
   */
  lemma TextMessagesQueued(s: Session, c: Constants, username: string, data: seq<byte>)
    ensures var a := HandleServerMessage(s, c, username, ServerOrdinal(ServerMessageId.ServerMessage), Some(data));
      var b := HandleServerMessage(s, c, username, ServerOrdinal(ServerMessageId.TextMessage), Some(data));
      && !a.crashed && !b.crashed
      && a.session == s.(textQueue := EnqueueText(s.textQueue, InTextMessage(true, DecodeAscii(data))))
      && b.session == s.(textQueue := EnqueueText(s.textQueue, InTextMessage(false, DecodeAscii(data))))
  {
  }

  /**
   * A settings message of at least eight bytes sets the update interval
   * from bytes 0-3 and the queue bound from bytes 4-7; any later bytes
   * (the screenshot interval) are ignored.
   */
  lemma SettingsApplied(s: Session, c: Constants, username: string, data: seq<byte>, extra: seq<byte>)
    requires |data| == 8
    ensures var h := HandleServerMessage(s, c, username, ServerOrdinal(ServerMessageId.ServerSettings), Some(data + extra));
      && !h.crashed
      && h.session == s.(updateInterval := IntFromBytes(data, 0).value, maxQueuedUpdates := IntFromBytes(data, 4).value)
      && h.session == HandleServerMessage(s, c, username, ServerOrdinal(ServerMessageId.ServerSettings), Some(data)).session
  {
    IntFromBytesPrefix(data, extra, 0);
    IntFromBytesPrefix(data, extra, 4);
  }

  /** A client applying the server's settings message takes on exactly the values the server computed. */
  lemma SettingsReceived(s: Session, c: Constants, username: string, updateInterval: int, maxQueued: int, screenshotInterval: int)
    requires IsInt32(updateInterval) && IsInt32(maxQueued)
    ensures var h := HandleServerMessage(s, c, username, ServerOrdinal(ServerMessageId.ServerSettings),
                                         Some(SettingsPayload(updateInterval, maxQueued, screenshotInterval)));
      !h.crashed && h.session == s.(updateInterval := updateInterval, maxQueuedUpdates := maxQueued)
  {
    SettingsRoundTrip(updateInterval, maxQueued, screenshotInterval);
  }

  // ---------------------------------------------------------------- outgoing plugin updates

  /** What handlePluginUpdates does with the out-file's bytes. */
  datatype Forward = Send(frame: seq<byte>) | Reject | Fault

  /**
   * An update whose leading int is the file format version is sent with
   * that version stripped; another version is dropped; fewer than four
   * bytes make intFromBytes throw.
   */
  function ForwardUpdate(update: seq<byte>, c: Constants): (r: Forward)
    ensures r.Fault? <==> |update| < 4
    ensures r.Send? <==> IntFromBytes(update, 0) == Some(c.fileFormatVersion)
    ensures r.Send? ==> |r.frame| == MSG_HEADER_LENGTH + |update| - 4 && r.frame[MSG_HEADER_LENGTH..] == update[4..]
  {
    match IntFromBytes(update, 0)
    case None => Fault
    case Some(v) =>
      if v == c.fileFormatVersion then
        Send(Header(ClientOrdinal(ClientMessageId.PluginUpdate), |update| - 4) + update[4..])
      else Reject
  }

  /**
   * The frame sent for an accepted update declares `|update| - 4` bytes and
   * carries exactly the update without its version, and putting the
   * version back in front gives the update again.
   */
  lemma {:induction false} ForwardStripsVersion(update: seq<byte>, c: Constants)
    requires |update| <= INT32_MAX
    requires IntFromBytes(update, 0) == Some(c.fileFormatVersion)
    ensures var f := ForwardUpdate(update, c);
      && f.Send?
      && |f.frame| == MSG_HEADER_LENGTH + |update| - 4
      && DecodeHeader(f.frame[..MSG_HEADER_LENGTH]) == (ClientOrdinal(ClientMessageId.PluginUpdate), |update| - 4)
      && IntToBytes(c.fileFormatVersion) + f.frame[MSG_HEADER_LENGTH..] == update
  {
    var f := ForwardUpdate(update, c);
    var h := Header(ClientOrdinal(ClientMessageId.PluginUpdate), |update| - 4);
    assert f.frame == h + update[4..];
    assert f.frame[..MSG_HEADER_LENGTH] == h;
    assert f.frame[MSG_HEADER_LENGTH..] == update[4..];
    HeaderRoundTrip(ClientOrdinal(ClientMessageId.PluginUpdate), |update| - 4);
    VersionPrefix(update, c.fileFormatVersion);
  }

  /** The four bytes an int was read from are the bytes that int writes. */
  lemma VersionPrefix(update: seq<byte>, version: int)
    requires IntFromBytes(update, 0) == Some(version)
    ensures IntToBytes(version) + update[4..] == update
  {
    BytesRoundTrip(update, 0);
    assert update == update[0..4] + update[4..];
  }

  // ---------------------------------------------------------------- incoming plugin updates

  /**
   * Writing the queue to the in-file: the format version, then each update
   * in order until the first null one, whose `Length` throws; the updates
   * after it stay queued.
   */
  function WrittenUpdates(queue: seq<Option<seq<byte>>>): (r: (seq<byte>, seq<Option<seq<byte>>>))
    ensures |r.1| < |queue| || |queue| == 0
  {
    if |queue| == 0 then ([], [])
    else if queue[0].None? then ([], queue[1..])
    else
      var (tail, rest) := WrittenUpdates(queue[1..]);
      (queue[0].value + tail, rest)
  }

  /** The updates concatenated in queue order. */
  function Concat(updates: seq<seq<byte>>): seq<byte> {
    if |updates| == 0 then [] else updates[0] + Concat(updates[1..])
  }

  /** The outcome of one pass over the incoming queue. */
  datatype Passed = Passed(queue: seq<Option<seq<byte>>>, written: Option<seq<byte>>, crashed: bool)

  /**
   * The second half of one handlePluginUpdates pass. With no in-file and a
   * non-empty queue, write the in-file (if it can be created); otherwise
   * drop the oldest updates until at most `maxQueued` remain; a negative
   * bound makes the loop dequeue from an empty queue, which throws.
   */
  function PassUpdates(queue: seq<Option<seq<byte>>>, inFileExists: bool, createOk: bool, maxQueued: int, c: Constants): (r: Passed)
    ensures r.crashed <==> (inFileExists || |queue| == 0) && maxQueued < 0
    ensures r.written.Some? <==> !inFileExists && |queue| > 0 && createOk
    ensures r.written.Some? ==> |r.written.value| >= 4 && r.written.value[..4] == IntToBytes(c.fileFormatVersion)
    ensures |r.queue| <= |queue|
  {
    if !inFileExists && |queue| > 0 then
      if createOk then
        var (body, rest) := WrittenUpdates(queue);
        Passed(rest, Some(IntToBytes(c.fileFormatVersion) + body), false)
      else Passed(queue, None, false)
    else if maxQueued < 0 then Passed([], None, true)
    else Passed(Newest(queue, maxQueued), None, false)
  }

  /**
   * With no in-file and no null update, the in-file holds the format
   * version followed by every queued update in FIFO order, and the queue
   * ends empty.
   */
  lemma {:induction false} FlushWritesAll(queue: seq<Option<seq<byte>>>, c: Constants)
    requires |queue| > 0 && forall k :: 0 <= k < |queue| ==> queue[k].Some?
    ensures var p := PassUpdates(queue, false, true, 0, c);
      && !p.crashed && p.queue == []
      && p.written == Some(IntToBytes(c.fileFormatVersion) + Concat(seq(|queue|, k requires 0 <= k < |queue| => queue[k].value)))
  {
    WrittenAllUpdates(queue);
  }

  lemma {:induction false} WrittenAllUpdates(queue: seq<Option<seq<byte>>>)
    requires forall k :: 0 <= k < |queue| ==> queue[k].Some?
    ensures WrittenUpdates(queue) == (Concat(seq(|queue|, k requires 0 <= k < |queue| => queue[k].value)), [])
  {
    if |queue| > 0 {
      WrittenAllUpdates(queue[1..]);
      var values := seq(|queue|, k requires 0 <= k < |queue| => queue[k].value);
      assert values[1..] == seq(|queue[1..]|, k requires 0 <= k < |queue[1..]| => queue[1..][k].value);
    }
  }

  /**
   * Otherwise (the in-file is still there, or the queue is empty) a
   * non-negative bound keeps exactly the newest `maxQueued` updates, in
   * order.
   */
  lemma TrimKeepsNewest(queue: seq<Option<seq<byte>>>, inFileExists: bool, maxQueued: int, c: Constants)
    requires inFileExists || |queue| == 0
    requires maxQueued >= 0
    ensures var p := PassUpdates(queue, inFileExists, true, maxQueued, c);
      && !p.crashed && p.written.None?
      && |p.queue| <= maxQueued
      && (|queue| <= maxQueued ==> p.queue == queue)
      && (|queue| > maxQueued ==> p.queue == queue[|queue| - maxQueued..])
  {
  }

  /**
   * The payload of the frame a client sends for an accepted update, once
   * it is the only entry of another client's incoming queue and is flushed
   * to an empty in-file, gives that plugin exactly the original out-file
   * content. The server's fan-out (which passes the bytes on unchanged)
   * and the receiving client's frame parsing are covered by their own
   * lemmas and are not chained here.
   */
  lemma {:induction false} RelayedUpdateRoundTrip(update: seq<byte>, c: Constants)
    requires |update| <= INT32_MAX
    requires IntFromBytes(update, 0) == Some(c.fileFormatVersion)
    ensures var f := ForwardUpdate(update, c);
      && f.Send?
      && PassUpdates([Some(f.frame[MSG_HEADER_LENGTH..])], false, true, 0, c).written == Some(update)
  {
    var f := ForwardUpdate(update, c);
    ForwardStripsVersion(update, c);
    var payload := f.frame[MSG_HEADER_LENGTH..];
    assert WrittenUpdates([Some(payload)]) == (payload, []) by {
      assert [Some(payload)][1..] == [];
      assert payload + [] == payload;
    }
  }

  // ---------------------------------------------------------------- configuration

  /** IPAddress.TryParse is not part of this model: addresses are kept as their text, parsing is a parameter. */
  datatype IpAddress = IpAddress(text: string)

  const LOOPBACK: IpAddress := IpAddress("127.0.0.1")

  datatype ClientConfig = ClientConfig(username: string, ip: IpAddress, port: int)

  const DEFAULT_CONFIG: ClientConfig := ClientConfig("username", LOOPBACK, 2075)

  /** A port the client accepts: an int in [MinPort, MaxPort]. */
  function ParsePort(text: string): (r: Option<int>)
    ensures r.Some? ==> MIN_PORT <= r.value <= MAX_PORT
  {
    match ParseInt(text)
    case Some(p) => if MIN_PORT <= p <= MAX_PORT then Some(p) else None
    case None => None
  }

  /** One name line and its value line. */
  function ApplySetting(cfg: ClientConfig, name: string, value: string, parseIp: string -> Option<IpAddress>): (r: ClientConfig)
    ensures r.username != cfg.username ==> name == USERNAME_LABEL && r.username == value
    ensures r.ip != cfg.ip ==> name == IP_LABEL && parseIp(value) == Some(r.ip)
    ensures r.port != cfg.port ==> name == PORT_LABEL && MIN_PORT <= r.port <= MAX_PORT
  {
    if name == USERNAME_LABEL then cfg.(username := value)
    else if name == IP_LABEL then
      match parseIp(value)
      case Some(ip) => cfg.(ip := ip)
      case None => cfg
    else if name == PORT_LABEL then
      match ParsePort(value)
      case Some(p) => cfg.(port := p)
      case None => cfg
    else cfg
  }

  /** readConfigFile: lines taken two at a time as name and value; a last name without a value is ignored. */
  function ReadConfig(cfg: ClientConfig, lines: seq<string>, parseIp: string -> Option<IpAddress>): (r: ClientConfig)
    ensures r.username != cfg.username ==> r.username in lines
    ensures r.port != cfg.port ==> MIN_PORT <= r.port <= MAX_PORT
    decreases |lines|
  {
    if |lines| < 2 then cfg
    else
      var r := ReadConfig(ApplySetting(cfg, lines[0], lines[1], parseIp), lines[2..], parseIp);
      assert r.username in lines[2..] ==> r.username in lines;
      r
  }

  /** Unknown labels and unparsable ports change nothing. */
  lemma IgnoredSettings(cfg: ClientConfig, name: string, value: string, parseIp: string -> Option<IpAddress>)
    ensures name != USERNAME_LABEL && name != IP_LABEL && name != PORT_LABEL ==>
      ApplySetting(cfg, name, value, parseIp) == cfg
    ensures name == PORT_LABEL && (ParseInt(value).None? || !(MIN_PORT <= ParseInt(value).value <= MAX_PORT)) ==>
      ApplySetting(cfg, name, value, parseIp) == cfg
    ensures name == PORT_LABEL && ParseInt(value).Some? && MIN_PORT <= ParseInt(value).value <= MAX_PORT ==>
      ApplySetting(cfg, name, value, parseIp) == cfg.(port := ParseInt(value).value)
  {
  }

  /** A trailing name line without a value changes nothing. */
  lemma {:induction false} TrailingLabelIgnored(cfg: ClientConfig, lines: seq<string>, name: string, parseIp: string -> Option<IpAddress>)
    requires |lines| % 2 == 0
    ensures ReadConfig(cfg, lines + [name], parseIp) == ReadConfig(cfg, lines, parseIp)
    decreases |lines|
  {
    if |lines| >= 2 {
      assert (lines + [name])[2..] == lines[2..] + [name];
      TrailingLabelIgnored(ApplySetting(cfg, lines[0], lines[1], parseIp), lines[2..], name, parseIp);
    }
  }

  /** writeConfigFile: each name followed by its value. */
  function ConfigLines(cfg: ClientConfig): (r: seq<string>)
    ensures |r| == 6 && r[0] == USERNAME_LABEL && r[2] == IP_LABEL && r[4] == PORT_LABEL
    ensures MIN_PORT <= cfg.port <= MAX_PORT ==> ParsePort(r[5]) == Some(cfg.port)
  {
    assert MIN_PORT <= cfg.port <= MAX_PORT ==> ParsePort(IntToString(cfg.port)) == Some(cfg.port) by {
      if MIN_PORT <= cfg.port <= MAX_PORT {
        ParseIntRoundTrip(cfg.port);
      }
    }
    [USERNAME_LABEL, cfg.username, IP_LABEL, cfg.ip.text, PORT_LABEL, IntToString(cfg.port)]
  }

  /**
   * Reading back what writeConfigFile wrote restores the configuration,
   * whatever it is read over, when the address parser accepts the
   * address's own text.
   */
  lemma ConfigRoundTrip(start: ClientConfig, cfg: ClientConfig, parseIp: string -> Option<IpAddress>)
    requires MIN_PORT <= cfg.port <= MAX_PORT
    requires parseIp(cfg.ip.text) == Some(cfg.ip)
    ensures ReadConfig(start, ConfigLines(cfg), parseIp) == cfg
  {
    ParseIntRoundTrip(cfg.port);
    var lines := ConfigLines(cfg);
    var c1 := ApplySetting(start, USERNAME_LABEL, cfg.username, parseIp);
    var c2 := ApplySetting(c1, IP_LABEL, cfg.ip.text, parseIp);
    var c3 := ApplySetting(c2, PORT_LABEL, IntToString(cfg.port), parseIp);
    assert c3 == cfg;
    assert lines[2..] == [IP_LABEL, cfg.ip.text, PORT_LABEL, IntToString(cfg.port)];
    assert lines[2..][2..] == [PORT_LABEL, IntToString(cfg.port)];
    assert ReadConfig(start, lines, parseIp) == ReadConfig(c1, lines[2..], parseIp);
    assert ReadConfig(c1, lines[2..], parseIp) == ReadConfig(c2, lines[2..][2..], parseIp);
    assert ReadConfig(c2, lines[2..][2..], parseIp) == ReadConfig(c3, lines[2..][2..][2..], parseIp);
    assert lines[2..][2..][2..] == [];
  }

  /** The username typed at the prompt, cut to MAX_USERNAME_LENGTH characters. */
  function TruncateUsername(entered: string): (r: string)
    ensures |r| <= MAX_USERNAME_LENGTH
    ensures r <= entered
    ensures r == entered <==> |entered| <= MAX_USERNAME_LENGTH
  {
    if |entered| > MAX_USERNAME_LENGTH then entered[..MAX_USERNAME_LENGTH] else entered
  }
}
