/**
 * The message protocol shared by KLFServer and KLFClient: message kinds,
 * the 8-byte frame header, and the payload layouts of the handshake and
 * settings messages.
 *
 * KLFCommon, which defines the enumerations and the constants, is not part
 * of this model: the constants are a `Constants` value handed to both
 * programs, and the kinds are numbered in the order listed below (the two
 * programs only need to agree on them).
 */
module Protocol {
  import opened Wrappers
  import opened Wire
  import opened Text

  /** Kinds of message a client sends to the server. */
  datatype ClientMessageId =
    | Handshake | PluginUpdate | TextMessage | ScreenWatchPlayer | ScreenshotShare | ConnectionEnd

  /** Kinds of message the server sends to a client. */
  datatype ServerMessageId =
    | Handshake | HandshakeRefusal | ServerMessage | TextMessage
    | PluginUpdate | ServerSettings | ScreenshotShare | ConnectionEnd

  function ClientOrdinal(id: ClientMessageId): int {
    match id
    case Handshake => 0
    case PluginUpdate => 1
    case TextMessage => 2
    case ScreenWatchPlayer => 3
    case ScreenshotShare => 4
    case ConnectionEnd => 5
  }

  function ServerOrdinal(id: ServerMessageId): int {
    match id
    case Handshake => 0
    case HandshakeRefusal => 1
    case ServerMessage => 2
    case TextMessage => 3
    case PluginUpdate => 4
    case ServerSettings => 5
    case ScreenshotShare => 6
    case ConnectionEnd => 7
  }

  /**
   * The cast `(ServerMessageID)n` the client applies to a received kind;
   * `None` for a number that names no kind (no case of the client's switch).
   */
  function ServerIdFromOrdinal(n: int): (r: Option<ServerMessageId>)
    ensures r.Some? <==> 0 <= n < 8
    ensures r.Some? ==> ServerOrdinal(r.value) == n
  {
    if n == 0 then Some(ServerMessageId.Handshake)
    else if n == 1 then Some(HandshakeRefusal)
    else if n == 2 then Some(ServerMessage)
    else if n == 3 then Some(ServerMessageId.TextMessage)
    else if n == 4 then Some(ServerMessageId.PluginUpdate)
    else if n == 5 then Some(ServerSettings)
    else if n == 6 then Some(ServerMessageId.ScreenshotShare)
    else if n == 7 then Some(ServerMessageId.ConnectionEnd)
    else None
  }

  /** The constants of KLFCommon that the core depends on. */
  datatype Constants = Constants(
    netProtocolVersion: int,
    fileFormatVersion: int,
    programVersion: string,
    maxScreenshotBytes: int,
    minUpdateInterval: int,
    maxUpdateInterval: int)

  predicate ValidConstants(c: Constants) {
    && IsInt32(c.netProtocolVersion)
    && IsInt32(c.fileFormatVersion)
    && IsInt32(c.minUpdateInterval)
    && IsInt32(c.maxUpdateInterval)
    && c.minUpdateInterval <= c.maxUpdateInterval
  }

  /** MSG_HEADER_LENGTH: a frame starts with its kind and its payload length. */
  const MSG_HEADER_LENGTH: nat := 8

  /** The header sendMessageHeader and sendMessageHeaderDirect write. */
  function Header(kind: int, length: int): (h: seq<byte>)
    ensures |h| == MSG_HEADER_LENGTH
  {
    IntToBytes(kind) + IntToBytes(length)
  }

  /** A complete server-to-client frame: header, then the payload verbatim. */
  function ServerFrame(id: ServerMessageId, payload: seq<byte>): seq<byte> {
    Header(ServerOrdinal(id), |payload|) + payload
  }

  /** The kind and the length a received header announces. */
  function DecodeHeader(h: seq<byte>): (r: (int, int))
    requires |h| == MSG_HEADER_LENGTH
    ensures IsInt32(r.0) && IsInt32(r.1)
    ensures Header(r.0, r.1) == h
  {
    var kind := IntFromBytes(h, 0).value;
    var length := IntFromBytes(h, 4).value;
    assert Header(kind, length) == h by {
      BytesRoundTrip(h, 0);
      BytesRoundTrip(h, 4);
      assert h == h[0..4] + h[4..8];
    }
    (kind, length)
  }

  /** A header decodes to the (32-bit) kind and length it was built from. */
  lemma {:induction false} HeaderRoundTrip(kind: int, length: int)
    ensures DecodeHeader(Header(kind, length)) == (Wrap32(kind), Wrap32(length))
  {
    IntRoundTrip(kind, IntToBytes(length));
    IntFromBytesShift(IntToBytes(kind), IntToBytes(length), 0);
    IntRoundTrip(length, []);
    assert IntToBytes(length) + [] == IntToBytes(length);
  }

  /**
   * The client's handshake payload: the username's byte length, the
   * username, then the program version string.
   */
  function HandshakePayload(username: string, version: string): (p: seq<byte>)
    ensures |p| == 4 + |username| + |version|
    ensures p[..4] == IntToBytes(|username|)
    ensures p[4..4 + |username|] == EncodeAscii(username) && p[4 + |username|..] == EncodeAscii(version)
  {
    var u := EncodeAscii(username);
    IntToBytes(|u|) + u + EncodeAscii(version)
  }

  /** The length the client declares in the handshake header (C# int addition). */
  function HandshakeDeclaredLength(username: string, version: string): int {
    Wrap32(|EncodeAscii(username)| + |EncodeAscii(version)| + 4)
  }

  /** The whole handshake frame the client writes. */
  function HandshakeFrame(username: string, version: string): seq<byte> {
    Header(ClientOrdinal(ClientMessageId.Handshake), |EncodeAscii(username)| + |EncodeAscii(version)| + 4)
      + HandshakePayload(username, version)
  }

  /**
   * The server's reading of a handshake payload: username and version, or
   * `None` where intFromBytes or GetString would throw (fewer than four
   * bytes, or a username length that is negative or runs past the end).
   */
  function ParseHandshake(data: seq<byte>): (r: Option<(string, string)>)
    ensures r.Some? ==> IsAscii(r.value.0) && IsAscii(r.value.1)
    ensures r.Some? ==> |r.value.0| + |r.value.1| + 4 == |data|
  {
    match IntFromBytes(data, 0)
    case None => None
    case Some(len) =>
      if 0 <= len && 4 + len <= |data| then Some((DecodeAscii(data[4..4 + len]), DecodeAscii(data[4 + len..])))
      else None
  }

  /**
   * The server reads back exactly the username and version the client
   * wrote (after the ASCII encoder's substitutions), and the declared
   * length is the payload's length.
   */
  lemma {:induction false} HandshakeRoundTrip(username: string, version: string)
    requires |username| + |version| + 4 <= INT32_MAX
    ensures ParseHandshake(HandshakePayload(username, version))
      == Some((DecodeAscii(EncodeAscii(username)), DecodeAscii(EncodeAscii(version))))
    ensures IsAscii(username) && IsAscii(version) ==>
      ParseHandshake(HandshakePayload(username, version)) == Some((username, version))
    ensures HandshakeDeclaredLength(username, version) == |HandshakePayload(username, version)|
  {
    var u, v := EncodeAscii(username), EncodeAscii(version);
    var p := HandshakePayload(username, version);
    assert p == IntToBytes(|u|) + (u + v);
    IntRoundTrip(|u|, u + v);
    assert p[4..4 + |u|] == u;
    assert p[4 + |u|..] == v;
    if IsAscii(username) && IsAscii(version) {
      AsciiRoundTrip(username);
      AsciiRoundTrip(version);
    }
  }

  /** The server's handshake payload: protocol version, then program version. */
  function ServerHandshakePayload(c: Constants): seq<byte> {
    IntToBytes(c.netProtocolVersion) + EncodeAscii(c.programVersion)
  }

  /** The settings payload: update interval, update queue bound, screenshot interval. */
  function SettingsPayload(updateInterval: int, maxQueuedUpdates: int, screenshotInterval: int): (p: seq<byte>)
    ensures |p| == 12
  {
    IntToBytes(updateInterval) + IntToBytes(maxQueuedUpdates) + IntToBytes(screenshotInterval)
  }

  /** Each settings field is read back from its own four bytes. */
  lemma {:induction false} SettingsRoundTrip(updateInterval: int, maxQueuedUpdates: int, screenshotInterval: int)
    ensures IntFromBytes(SettingsPayload(updateInterval, maxQueuedUpdates, screenshotInterval), 0) == Some(Wrap32(updateInterval))
    ensures IntFromBytes(SettingsPayload(updateInterval, maxQueuedUpdates, screenshotInterval), 4) == Some(Wrap32(maxQueuedUpdates))
    ensures IntFromBytes(SettingsPayload(updateInterval, maxQueuedUpdates, screenshotInterval), 8) == Some(Wrap32(screenshotInterval))
  {
    var a, b, c := IntToBytes(updateInterval), IntToBytes(maxQueuedUpdates), IntToBytes(screenshotInterval);
    var p := SettingsPayload(updateInterval, maxQueuedUpdates, screenshotInterval);
    assert p == a + (b + c);
    IntRoundTrip(updateInterval, b + c);
    IntFromBytesShift(a, b + c, 0);
    IntRoundTrip(maxQueuedUpdates, c);
    assert p == (a + b) + c;
    IntFromBytesShift(a + b, c, 0);
    IntRoundTrip(screenshotInterval, []);
    assert c + [] == c;
  }
}
