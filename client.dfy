/**
 * The client of KLFClient/ClientMain.cs. The source keeps its state in
 * static fields; here they are the fields of one `ClientMain` object. The
 * socket is reduced to `inbox`, the bytes the server has sent that the
 * client has not yet read, and `sent`, every byte the client has written.
 */
module KLFClient {
  import opened Wrappers
  import opened Wire
  import opened Text
  import opened Protocol
  import opened ClientRules

  /** What one pass of the connection loop ends with. */
  datatype Step =
    | Waiting                                                   // header not yet complete
    | Dispatched(id: int, data: Option<seq<byte>>, crashed: bool) // a whole message was handled
    | Stalled                                                   // still waiting for payload bytes

  function Min(a: int, b: int): int {
    if a < b then a else b
  }

  /** One `Read` into the payload buffer: `n` bytes from the stream land after the `at` bytes already read. */
  method CopyInto(buffer: array<byte>, at: nat, src: seq<byte>, n: nat)
    requires at + n <= buffer.Length && n <= |src|
    modifies buffer
    ensures buffer[..at + n] == old(buffer[..at]) + src[..n]
  {
    for j := 0 to n
      invariant buffer[..at + j] == old(buffer[..at]) + src[..j]
    {
      buffer[at + j] := src[j];
      assert buffer[..at + j + 1] == buffer[..at + j] + [src[j]];
      assert src[..j + 1] == src[..j] + [src[j]];
    }
  }

  class ClientMain {
    const consts: Constants
    var username: string
    var ip: IpAddress
    var port: int
    var updateInterval: int
    var maxQueuedUpdates: int
    var endSession: bool
    var textMessageQueue: seq<InTextMessage>
    var pluginUpdateInQueue: seq<Option<seq<byte>>>
    var sent: seq<byte>
    var inbox: seq<byte>
    const messageHeader: array<byte>
    var headerBytesRead: nat

    function CurrentSession(): Session
      reads this
    {
      Session(endSession, updateInterval, maxQueuedUpdates, textMessageQueue, pluginUpdateInQueue, sent)
    }

    function CurrentConfig(): ClientConfig
      reads this
    {
      ClientConfig(username, ip, port)
    }

    ghost predicate Valid()
      reads this
    {
      && messageHeader.Length == MSG_HEADER_LENGTH
      && headerBytesRead <= MSG_HEADER_LENGTH
      && |textMessageQueue| <= MAX_TEXT_MESSAGE_QUEUE
    }

    /** The static initialisers: default name, loopback address, port 2075, 500 ms, 32 queued updates. */
    constructor (consts: Constants)
      ensures Valid() && fresh(messageHeader)
      ensures this.consts == consts && CurrentConfig() == DEFAULT_CONFIG
      ensures updateInterval == 500 && maxQueuedUpdates == 32
      ensures textMessageQueue == [] && pluginUpdateInQueue == [] && sent == [] && inbox == []
      ensures !endSession
    {
      this.consts := consts;
      username := "username";
      ip := LOOPBACK;
      port := 2075;
      updateInterval := 500;
      maxQueuedUpdates := 32;
      endSession := false;
      textMessageQueue := [];
      pluginUpdateInQueue := [];
      sent := [];
      inbox := [];
      messageHeader := new byte[MSG_HEADER_LENGTH];
      headerBytesRead := 0;
    }

    /** The bytes the network delivers from the server. */
    method Deliver(bytes: seq<byte>)
      requires Valid()
      modifies this
      ensures Valid()
      ensures inbox == old(inbox) + bytes
      ensures CurrentSession() == old(CurrentSession()) && headerBytesRead == old(headerBytesRead)
    {
      inbox := inbox + bytes;
    }

    /** The name entered at the prompt, cut to MAX_USERNAME_LENGTH characters. */
    method SetUsername(entered: string)
      requires Valid()
      modifies this
      ensures Valid()
      ensures username == TruncateUsername(entered)
      ensures CurrentSession() == old(CurrentSession()) && ip == old(ip) && port == old(port)
      ensures inbox == old(inbox) && headerBytesRead == old(headerBytesRead)
    {
      username := entered;
      if |username| > MAX_USERNAME_LENGTH {
        username := username[..MAX_USERNAME_LENGTH];
      }
    }

    /** readConfigFile over the file's lines; address parsing is a parameter. */
    method ReadConfigFile(lines: seq<string>, parseIp: string -> Option<IpAddress>)
      requires Valid()
      modifies this
      ensures Valid()
      ensures CurrentConfig() == ReadConfig(old(CurrentConfig()), lines, parseIp)
      ensures CurrentSession() == old(CurrentSession())
      ensures inbox == old(inbox) && headerBytesRead == old(headerBytesRead)
    {
      var i := 0;
      while i < |lines|
        invariant 0 <= i <= |lines| + 1
        invariant ReadConfig(CurrentConfig(), if i <= |lines| then lines[i..] else [], parseIp) == ReadConfig(old(CurrentConfig()), lines, parseIp)
        invariant CurrentSession() == old(CurrentSession())
        invariant inbox == old(inbox) && headerBytesRead == old(headerBytesRead)
        invariant Valid()
        decreases |lines| - i
      {
        var name := lines[i];
        if i + 1 < |lines| {
          var value := lines[i + 1];
          assert lines[i..][2..] == lines[i + 2..];
          if name == USERNAME_LABEL {
            username := value;
          } else if name == IP_LABEL {
            var parsed := parseIp(value);
            if parsed.Some? {
              ip := parsed.value;
            }
          } else if name == PORT_LABEL {
            var parsed := ParseInt(value);
            if parsed.Some? && MIN_PORT <= parsed.value <= MAX_PORT {
              port := parsed.value;
            }
          }
        }
        i := i + 2;
      }
    }

    /** writeConfigFile: the lines written. */
    method WriteConfigFile() returns (lines: seq<string>)
      ensures lines == ConfigLines(CurrentConfig())
      ensures |lines| == 6 && lines[0] == USERNAME_LABEL && lines[2] == IP_LABEL && lines[4] == PORT_LABEL
    {
      lines := [USERNAME_LABEL, username, IP_LABEL, ip.text, PORT_LABEL, IntToString(port)];
    }

    /** enqueueTextMessage. */
    method EnqueueTextMessage(m: InTextMessage)
      requires Valid()
      modifies this
      ensures Valid()
      ensures textMessageQueue == EnqueueText(old(textMessageQueue), m)
      ensures CurrentSession() == old(CurrentSession()).(textQueue := textMessageQueue)
      ensures inbox == old(inbox) && headerBytesRead == old(headerBytesRead) && CurrentConfig() == old(CurrentConfig())
    {
      if |textMessageQueue| >= MAX_TEXT_MESSAGE_QUEUE {
        textMessageQueue := textMessageQueue[1..];
      }
      textMessageQueue := textMessageQueue + [m];
    }

    /** sendMessageHeader. */
    method SendMessageHeader(id: int, length: int)
      modifies this
      ensures sent == old(sent) + Header(id, length)
      ensures CurrentSession() == old(CurrentSession()).(sent := sent)
      ensures inbox == old(inbox) && headerBytesRead == old(headerBytesRead) && CurrentConfig() == old(CurrentConfig())
    {
      sent := sent + IntToBytes(id);
      sent := sent + IntToBytes(length);
    }

    /** sendHandshakeMessage. */
    method SendHandshakeMessage()
      modifies this
      ensures sent == old(sent) + HandshakeFrame(username, consts.programVersion)
      ensures CurrentSession() == old(CurrentSession()).(sent := sent)
      ensures inbox == old(inbox) && headerBytesRead == old(headerBytesRead) && CurrentConfig() == old(CurrentConfig())
    {
      var usernameBytes := EncodeAscii(username);
      var versionBytes := EncodeAscii(consts.programVersion);
      SendMessageHeader(ClientOrdinal(ClientMessageId.Handshake), |usernameBytes| + |versionBytes| + 4);
      sent := sent + IntToBytes(|usernameBytes|);
      sent := sent + usernameBytes;
      sent := sent + versionBytes;
    }

    /** handleMessage; `crashed` where the source throws. */
    method HandleMessage(id: int, data: Option<seq<byte>>) returns (crashed: bool)
      requires Valid()
      modifies this
      ensures Valid()
      ensures Handled(CurrentSession(), crashed) == HandleServerMessage(old(CurrentSession()), consts, username, id, data)
      ensures inbox == old(inbox) && headerBytesRead == old(headerBytesRead) && CurrentConfig() == old(CurrentConfig())
    {
      crashed := false;
      var kind := ServerIdFromOrdinal(id);
      if kind.None? {
        return;
      }
      match kind.value
      case Handshake =>
        if data.None? || |data.value| < 4 {
          return true;
        }
        var protocolVersion := IntFromBytes(data.value, 0).value;
        if protocolVersion != consts.netProtocolVersion {
          endSession := true;
        } else {
          SendHandshakeMessage();
        }
      case HandshakeRefusal =>
        if data.None? {
          return true;
        }
        endSession := true;
      case ServerMessage =>
        if data.None? {
          return true;
        }
        EnqueueTextMessage(InTextMessage(true, DecodeAscii(data.value)));
      case TextMessage =>
        if data.None? {
          return true;
        }
        EnqueueTextMessage(InTextMessage(false, DecodeAscii(data.value)));
      case PluginUpdate =>
        pluginUpdateInQueue := pluginUpdateInQueue + [data];
      case ServerSettings =>
        if data.None? || |data.value| < 4 {
          return true;
        }
        updateInterval := IntFromBytes(data.value, 0).value;
        if |data.value| < 8 {
          return true;
        }
        maxQueuedUpdates := IntFromBytes(data.value, 4).value;
      case ScreenshotShare =>
      case ConnectionEnd =>
    }

    /**
     * One read of the header: up to the missing header bytes, as many as
     * the network offers (`avail`) and the server has sent, copied into
     * the header buffer after the bytes already there.
     */
    method ReadHeader(avail: nat) returns (n: nat)
      requires Valid()
      modifies this, messageHeader
      ensures n == Min(MSG_HEADER_LENGTH - old(headerBytesRead), Min(avail, |old(inbox)|))
      ensures headerBytesRead == old(headerBytesRead) + n
      ensures messageHeader[..headerBytesRead] == old(messageHeader[..headerBytesRead]) + old(inbox)[..n]
      ensures inbox == old(inbox)[n..]
      ensures CurrentSession() == old(CurrentSession()) && CurrentConfig() == old(CurrentConfig())
      ensures |textMessageQueue| <= MAX_TEXT_MESSAGE_QUEUE
    {
      n := Min(MSG_HEADER_LENGTH - headerBytesRead, Min(avail, |inbox|));
      ghost var before := messageHeader[..headerBytesRead];
      for k := 0 to n
        modifies messageHeader
        invariant messageHeader[..headerBytesRead + k] == before + inbox[..k]
      {
        messageHeader[headerBytesRead + k] := inbox[k];
        assert messageHeader[..headerBytesRead + k + 1] == messageHeader[..headerBytesRead + k] + [inbox[k]];
        assert inbox[..k + 1] == inbox[..k] + [inbox[k]];
      }
      headerBytesRead := headerBytesRead + n;
      inbox := inbox[n..];
    }

    /**
     * The payload loop: reads of the sizes the network offers, each capped
     * at the bytes still missing, into a fresh buffer of `length` bytes.
     * The bytes read are exactly the next bytes of the stream; the payload
     * is complete once `length` of them arrived.
     */
    method ReadPayload(length: nat, sizes: seq<nat>) returns (data: seq<byte>, complete: bool)
      modifies this
      ensures |data| <= length && |data| <= |old(inbox)| && data == old(inbox)[..|data|] && inbox == old(inbox)[|data|..]
      ensures complete <==> |data| == length
      ensures length <= |old(inbox)| && |sizes| >= length && (forall k :: 0 <= k < |sizes| ==> sizes[k] > 0) ==> complete
      ensures CurrentSession() == old(CurrentSession()) && CurrentConfig() == old(CurrentConfig()) && headerBytesRead == old(headerBytesRead)
    {
      var buffer := new byte[length];
      var dataBytesRead := 0;
      ghost var stream := inbox;
      var k := 0;
      while dataBytesRead < length && k < |sizes|
        invariant 0 <= dataBytesRead <= length && k <= |sizes|
        invariant dataBytesRead <= |stream| && inbox == stream[dataBytesRead..]
        invariant buffer[..dataBytesRead] == stream[..dataBytesRead]
        invariant length <= |stream| && (forall j :: 0 <= j < |sizes| ==> sizes[j] > 0) ==> dataBytesRead >= Min(k, length)
        invariant CurrentSession() == old(CurrentSession()) && CurrentConfig() == old(CurrentConfig()) && headerBytesRead == old(headerBytesRead)
      {
        var numRead := Min(length - dataBytesRead, Min(sizes[k], |inbox|));
        CopyInto(buffer, dataBytesRead, inbox, numRead);
        assert stream[..dataBytesRead + numRead] == stream[..dataBytesRead] + inbox[..numRead];
        if numRead > 0 {
          dataBytesRead := dataBytesRead + numRead;
          inbox := inbox[numRead..];
        }
        k := k + 1;
      }
      data := buffer[..dataBytesRead];
      complete := dataBytesRead == length;
    }

    /**
     * The body of the connection loop in connectionLoop: one header read;
     * once all eight header bytes are in, read the payload (none when the
     * announced length is not positive), handle the message and start the
     * next header.
     */
    method ConnectionStep(avail: nat, sizes: seq<nat>) returns (step: Step)
      requires Valid()
      modifies this, messageHeader
      ensures Valid()
      ensures step.Waiting? ==> CurrentSession() == old(CurrentSession()) && headerBytesRead >= old(headerBytesRead)
      ensures step.Waiting? ==> messageHeader[..headerBytesRead] + inbox == old(messageHeader[..headerBytesRead]) + old(inbox)
      ensures step.Stalled? ==> CurrentSession() == old(CurrentSession())
      ensures
        && avail >= MSG_HEADER_LENGTH && |sizes| >= |old(inbox)| && (forall k :: 0 <= k < |sizes| ==> sizes[k] > 0)
        && ParseFrame(old(messageHeader[..headerBytesRead]) + old(inbox)).Some?
        ==> step.Dispatched?
      ensures step.Dispatched? ==>
        && ParseFrame(old(messageHeader[..headerBytesRead]) + old(inbox)) == Some((step.id, step.data, inbox))
        && Handled(CurrentSession(), step.crashed) == HandleServerMessage(old(CurrentSession()), consts, username, step.id, step.data)
        && headerBytesRead == 0
      ensures CurrentConfig() == old(CurrentConfig())
    {
      ghost var stream := old(messageHeader[..headerBytesRead]) + inbox;
      var n := ReadHeader(avail);
      if headerBytesRead < MSG_HEADER_LENGTH {
        assert old(inbox) == old(inbox)[..n] + inbox;
        return Waiting;
      }
      assert stream == messageHeader[..] + inbox by {
        assert messageHeader[..headerBytesRead] == messageHeader[..];
        assert old(inbox) == old(inbox)[..n] + inbox;
      }
      step := DispatchFrame(sizes);
    }

    /** The body half of handleMessage: with the header complete, read the payload and dispatch the message. */
    method DispatchFrame(sizes: seq<nat>) returns (step: Step)
      requires Valid() && headerBytesRead == MSG_HEADER_LENGTH
      modifies this
      ensures Valid()
      ensures !step.Waiting?
      ensures step.Stalled? ==> CurrentSession() == old(CurrentSession())
      ensures
        && |sizes| >= |old(inbox)| && (forall k :: 0 <= k < |sizes| ==> sizes[k] > 0)
        && ParseFrame(old(messageHeader[..]) + old(inbox)).Some?
        ==> step.Dispatched?
      ensures step.Dispatched? ==>
        && ParseFrame(old(messageHeader[..]) + old(inbox)) == Some((step.id, step.data, inbox))
        && Handled(CurrentSession(), step.crashed) == HandleServerMessage(old(CurrentSession()), consts, username, step.id, step.data)
        && headerBytesRead == 0
      ensures CurrentConfig() == old(CurrentConfig())
    {
      ghost var header := messageHeader[..];
      ghost var stream := header + inbox;
      var id := IntFromBytes(messageHeader[..], 0).value;
      var msgLength := IntFromBytes(messageHeader[..], 4).value;
      assert DecodeHeader(header) == (id, msgLength);
      ghost var body := inbox;
      var messageData: Option<seq<byte>> := None;
      if msgLength > 0 {
        assert ParseFrame(stream).Some? ==> msgLength <= |body| by {
          assert stream[..MSG_HEADER_LENGTH] == header;
        }
        var payload, complete := ReadPayload(msgLength, sizes);
        if !complete {
          return Stalled;
        }
        messageData := Some(payload);
      }
      ParseFrameSplit(header, body, messageData, inbox);
      var crashed := HandleMessage(id, messageData);
      headerBytesRead := 0;
      return Dispatched(id, messageData, crashed);
    }

    /** The out-file half of handlePluginUpdates: forward an update with its version stripped. */
    method SendOutgoingUpdate(update: seq<byte>) returns (result: Forward)
      modifies this
      ensures result == ForwardUpdate(update, consts)
      ensures sent == old(sent) + (if result.Send? then result.frame else [])
      ensures CurrentSession() == old(CurrentSession()).(sent := sent)
      ensures inbox == old(inbox) && headerBytesRead == old(headerBytesRead) && CurrentConfig() == old(CurrentConfig())
    {
      var version := IntFromBytes(update, 0);
      if version.None? {
        assert ForwardUpdate(update, consts) == Fault;
        return Fault;
      }
      if version.value == consts.fileFormatVersion {
        var header := Header(ClientOrdinal(ClientMessageId.PluginUpdate), |update| - 4);
        var frame := header + update[4..];
        SendMessageHeader(ClientOrdinal(ClientMessageId.PluginUpdate), |update| - 4);
        sent := sent + update[4..];
        assert sent == old(sent) + frame;
        assert ForwardUpdate(update, consts) == Send(frame);
        return Send(frame);
      }
      assert ForwardUpdate(update, consts) == Reject;
      return Reject;
    }

    /** The in-file half of handlePluginUpdates: flush the queue to a new in-file, or trim it. */
    method PassUpdatesToPlugin(inFileExists: bool, createOk: bool) returns (written: Option<seq<byte>>, crashed: bool)
      requires Valid()
      modifies this
      ensures Valid()
      ensures Passed(pluginUpdateInQueue, written, crashed)
        == PassUpdates(old(pluginUpdateInQueue), inFileExists, createOk, old(maxQueuedUpdates), consts)
      ensures CurrentSession() == old(CurrentSession()).(pluginQueue := pluginUpdateInQueue)
      ensures inbox == old(inbox) && headerBytesRead == old(headerBytesRead) && CurrentConfig() == old(CurrentConfig())
    {
      written := None;
      crashed := false;
      ghost var queue := pluginUpdateInQueue;
      if !inFileExists && |pluginUpdateInQueue| > 0 {
        if createOk {
          var body: seq<byte> := [];
          var stopped := false;
          assert body + WrittenUpdates(queue).0 == WrittenUpdates(queue).0;
          while |pluginUpdateInQueue| > 0 && !stopped
            invariant !stopped ==> body + WrittenUpdates(pluginUpdateInQueue).0 == WrittenUpdates(queue).0
            invariant !stopped ==> WrittenUpdates(pluginUpdateInQueue).1 == WrittenUpdates(queue).1
            invariant stopped ==> body == WrittenUpdates(queue).0 && pluginUpdateInQueue == WrittenUpdates(queue).1
            invariant CurrentSession() == old(CurrentSession()).(pluginQueue := pluginUpdateInQueue)
            invariant inbox == old(inbox) && headerBytesRead == old(headerBytesRead) && CurrentConfig() == old(CurrentConfig())
            decreases |pluginUpdateInQueue|
          {
            var update := pluginUpdateInQueue[0];
            pluginUpdateInQueue := pluginUpdateInQueue[1..];
            ghost var tail := WrittenUpdates(pluginUpdateInQueue);
            if update.None? {
              stopped := true;
            } else {
              assert (body + update.value) + tail.0 == body + (update.value + tail.0);
              body := body + update.value;
            }
          }
          if !stopped {
            assert body + [] == body;
          }
          assert (body, pluginUpdateInQueue) == WrittenUpdates(queue);
          written := Some(IntToBytes(consts.fileFormatVersion) + body);
        }
      } else {
        var maxQueueSize := maxQueuedUpdates;
        while |pluginUpdateInQueue| > maxQueueSize
          invariant |pluginUpdateInQueue| <= |queue| && pluginUpdateInQueue == queue[|queue| - |pluginUpdateInQueue|..]
          invariant maxQueueSize >= 0 ==> |pluginUpdateInQueue| >= Min(maxQueueSize, |queue|)
          invariant CurrentSession() == old(CurrentSession()).(pluginQueue := pluginUpdateInQueue)
          invariant inbox == old(inbox) && headerBytesRead == old(headerBytesRead) && CurrentConfig() == old(CurrentConfig())
          decreases |pluginUpdateInQueue|
        {
          if |pluginUpdateInQueue| == 0 {
            crashed := true;
            return;
          }
          pluginUpdateInQueue := pluginUpdateInQueue[1..];
        }
        assert pluginUpdateInQueue == Newest(queue, maxQueueSize);
      }
    }
  }
}
