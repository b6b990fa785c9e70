/** The OBD session of `ObdViewModel`: connecting to the selected adapter,
    the ELM327 handshake, one polling cycle of live data and trouble codes,
    and disconnecting. The Bluetooth side is reduced to what the session
    observes of it: whether permission was granted, how opening the socket
    went, and the adapter's scripted replies (a `Channel.Link`). */
module Session {
  import opened Wrappers
  import Text
  import Channel
  import PidDecoder
  import DtcDecoder

  const BATTERY := "ATRV"
  const DTC_REQUEST := "03"

  /** The commands of one `readData` cycle, in the order they are sent. */
  const CYCLE_COMMANDS := [PidDecoder.RPM, PidDecoder.SPEED, PidDecoder.COOLANT, BATTERY, DTC_REQUEST]

  const DISCONNECTED := "Disconnected"
  const CONNECTING := "Connecting..."
  const CONNECTED_TO := "Connected to "
  const CONNECTION_FAILED := "Connection failed"
  const PERMISSION_REQUIRED := "Bluetooth permission required"
  const NOT_CONNECTED_TO_DEVICE := "Not connected to OBD device"

  /** The battery voltage as read: never read or failed (0.0), or the text
      left for the number conversion once the unit is dropped and the
      blanks are trimmed. */
  datatype Voltage = Zero | Reading(text: string)

  /** One snapshot of the live values; the defaults are all zero. */
  datatype LiveData = LiveData(rpm: int, speedKmh: int, coolantC: int, batteryV: Voltage)
  {
    /** The ranges the decoder can produce. */
    predicate InRange()
    {
      && 0 <= rpm <= 16383
      && 0 <= speedKmh <= 255
      && -40 <= coolantC <= 215
      && (batteryV.Reading? ==> 'V' !in batteryV.text)
    }
  }

  const DEFAULT_LIVE := LiveData(0, 0, 0, Zero)

  /** A paired Bluetooth device; its name may be null. */
  datatype Device = Device(name: Option<string>)

  /** How a null name appears in a string template. */
  function DisplayName(device: Device): string
  {
    match device.name
    case None => "null"
    case Some(name) => name
  }

  /** The RFCOMM socket the model holds. */
  datatype Socket = Socket(isConnected: bool)

  /** What happened when the RFCOMM socket was created and connected. */
  datatype Opening = Opened | CreateFailed(message: Option<string>) | ConnectFailed(message: Option<string>)

  /** `readPid` around one exchange: a failed exchange reads as 0. */
  function PidReading(pid: string, response: Result<string>): (v: int)
    ensures response.Failure? ==> v == 0
    ensures response.Success? ==> v == PidDecoder.Decode(pid, response.value)
    ensures pid == PidDecoder.RPM ==> 0 <= v <= 16383
    ensures pid == PidDecoder.SPEED ==> 0 <= v <= 255
    ensures pid == PidDecoder.COOLANT ==> -40 <= v <= 215
  {
    match response
    case Success(text) => PidDecoder.Decode(pid, text)
    case Failure(_) => 0
  }

  /** `readBatteryVoltage` around one exchange: a failed exchange reads as
      0.0; otherwise the V's are dropped and the rest is trimmed. */
  function VoltageReading(response: Result<string>): (v: Voltage)
    ensures v.Reading? <==> response.Success?
    ensures v.Reading? ==> 'V' !in v.text && Text.Trim(v.text) == v.text
    ensures response.Success? ==> v.text == Text.Trim(Text.Remove(response.value, 'V'))
  {
    match response
    case Success(text) =>
      var digits := Text.Trim(Text.Remove(text, 'V'));
      NoUnitAfterTrim(Text.Remove(text, 'V'));
      Text.TrimIdempotent(Text.Remove(text, 'V'));
      Reading(digits)
    case Failure(_) => Zero
  }

  /** Trimming a text keeps only characters of that text. */
  lemma NoUnitAfterTrim(s: string)
    requires 'V' !in s
    ensures 'V' !in Text.Trim(s)
  {
    Text.TrimShape(s);
  }

  /** `readDtcs` around one exchange: a failed exchange reads as no codes. */
  function DtcReading(response: Result<string>): (codes: seq<string>)
    ensures response.Failure? ==> codes == []
    ensures response.Success? ==> codes == DtcDecoder.Decode(response.value)
    ensures forall k :: 0 <= k < |codes| ==> DtcDecoder.WellFormed(codes[k])
  {
    match response
    case Success(text) => DtcDecoder.Decode(text)
    case Failure(_) => []
  }

  datatype Snapshot = Snapshot(live: LiveData, link: Link)

  /** The live-data part of a `readData` cycle: engine speed, vehicle speed,
      coolant and battery, one exchange each; no failure ends it. */
  function ReadLive(link: Link, streamsOpen: bool): (s: Snapshot)
    ensures s.live.InRange()
  {
    var rpm := Channel.Exchange(link, streamsOpen, PidDecoder.RPM);
    var speed := Channel.Exchange(rpm.link, streamsOpen, PidDecoder.SPEED);
    var coolant := Channel.Exchange(speed.link, streamsOpen, PidDecoder.COOLANT);
    var battery := Channel.Exchange(coolant.link, streamsOpen, BATTERY);
    Snapshot(
      LiveData(
        PidReading(PidDecoder.RPM, rpm.response),
        PidReading(PidDecoder.SPEED, speed.response),
        PidReading(PidDecoder.COOLANT, coolant.response),
        VoltageReading(battery.response)),
      battery.link)
  }

  datatype Cycle = Cycle(live: LiveData, dtcs: seq<string>, link: Link)

  type Link = Channel.Link

  /** One `readData` cycle: the live data, then the stored trouble codes. */
  function ReadCycle(link: Link, streamsOpen: bool): (c: Cycle)
    ensures c.live.InRange()
    ensures forall k :: 0 <= k < |c.dtcs| ==> DtcDecoder.WellFormed(c.dtcs[k])
  {
    var snapshot := ReadLive(link, streamsOpen);
    var codes := Channel.Exchange(snapshot.link, streamsOpen, DTC_REQUEST);
    Cycle(snapshot.live, DtcReading(codes.response), codes.link)
  }

  /** What is left of a script after a number of exchanges on open streams. */
  function After(replies: seq<Channel.Reply>, n: nat): (rest: seq<Channel.Reply>)
    ensures |rest| == if n <= |replies| then |replies| - n else 0
  {
    if n <= |replies| then replies[n..] else []
  }

  /** On open streams a cycle writes the five commands, framed and in order,
      and consumes one reply per command while replies are left. */
  lemma CycleWrites(link: Link)
    ensures ReadCycle(link, true).link ==
      Channel.Link(After(link.replies, 5), link.written + Channel.FrameAll(CYCLE_COMMANDS))
  {
    var rpm := Channel.Exchange(link, true, PidDecoder.RPM);
    Channel.ExchangeFraming(link, true, PidDecoder.RPM);
    var speed := Channel.Exchange(rpm.link, true, PidDecoder.SPEED);
    Channel.ExchangeFraming(rpm.link, true, PidDecoder.SPEED);
    var coolant := Channel.Exchange(speed.link, true, PidDecoder.COOLANT);
    Channel.ExchangeFraming(speed.link, true, PidDecoder.COOLANT);
    var battery := Channel.Exchange(coolant.link, true, BATTERY);
    Channel.ExchangeFraming(coolant.link, true, BATTERY);
    var codes := Channel.Exchange(battery.link, true, DTC_REQUEST);
    Channel.ExchangeFraming(battery.link, true, DTC_REQUEST);
    var lines := Channel.FrameAll(CYCLE_COMMANDS);
    Channel.FrameAllLines(CYCLE_COMMANDS);
    assert lines == [lines[0], lines[1], lines[2], lines[3], lines[4]];
    assert codes.link.written == link.written + lines;
    DropFive(link.replies);
  }

  /** Dropping one reply five times drops five. */
  lemma DropFive(replies: seq<Channel.Reply>)
    ensures After(After(After(After(After(replies, 1), 1), 1), 1), 1) == After(replies, 5)
  {
  }

  /** Without streams every exchange fails: the cycle reads the defaults and
      writes nothing. */
  lemma CycleNotConnected(link: Link)
    ensures ReadCycle(link, false) == Cycle(DEFAULT_LIVE, [], link)
  {
  }

  /** When the adapter answers all five commands, each value is decoded from
      its own trimmed reply. */
  lemma CycleAnswered(rpm: string, speed: string, coolant: string, battery: string, codes: string,
                      rest: seq<Channel.Reply>, written: seq<string>)
    ensures var link := Channel.Link(
      [Channel.Answer(rpm), Channel.Answer(speed), Channel.Answer(coolant),
       Channel.Answer(battery), Channel.Answer(codes)] + rest, written);
      ReadCycle(link, true) == Cycle(
        LiveData(
          PidDecoder.Decode(PidDecoder.RPM, Text.Trim(rpm)),
          PidDecoder.Decode(PidDecoder.SPEED, Text.Trim(speed)),
          PidDecoder.Decode(PidDecoder.COOLANT, Text.Trim(coolant)),
          Reading(Text.Trim(Text.Remove(Text.Trim(battery), 'V')))),
        DtcDecoder.Decode(Text.Trim(codes)),
        Channel.Link(rest, written + Channel.FrameAll(CYCLE_COMMANDS)))
  {
    var link := Channel.Link(
      [Channel.Answer(rpm), Channel.Answer(speed), Channel.Answer(coolant),
       Channel.Answer(battery), Channel.Answer(codes)] + rest, written);
    CycleWrites(link);
    assert link.replies[5..] == rest;
  }

  datatype Attempt = Attempt(outcome: Result<()>, link: Link)

  /** The work `connect` does off the main thread: the permission check,
      opening the RFCOMM socket, then the handshake; the first exception
      becomes the outcome. */
  function ConnectAttempt(permitted: bool, opening: Opening, link: Link): (a: Attempt)
    ensures a.outcome.Success? ==> permitted && opening == Opened
    ensures !permitted ==> a.outcome == Failure(Some(PERMISSION_REQUIRED))
  {
    if !permitted then Attempt(Failure(Some(PERMISSION_REQUIRED)), link)
    else
      match opening
      case CreateFailed(message) => Attempt(Failure(message), link)
      case ConnectFailed(message) => Attempt(Failure(message), link)
      case Opened =>
        var h := Channel.Handshake(link, true);
        Attempt(h.outcome, h.link)
  }

  /** A connection attempt succeeds exactly when permission is granted, the
      socket opens and the adapter answers all five handshake commands; it
      has then written the handshake and nothing else. */
  lemma AttemptSucceeds(permitted: bool, opening: Opening, link: Link)
    ensures ConnectAttempt(permitted, opening, link).outcome.Success? <==>
      permitted && opening == Opened && Channel.Answers(link.replies, 5)
    ensures ConnectAttempt(permitted, opening, link).outcome.Success? ==>
      && 5 <= |link.replies|
      && ConnectAttempt(permitted, opening, link).link ==
         Channel.Link(link.replies[5..], link.written + Channel.INIT_LINES)
  {
    if permitted && opening == Opened {
      Channel.HandshakeSucceeds(link);
    }
  }

  /** Without permission, or when the socket cannot be opened, nothing is
      written to the adapter and the exception's message is the outcome. */
  lemma AttemptRefused(permitted: bool, opening: Opening, link: Link)
    requires !permitted || !opening.Opened?
    ensures ConnectAttempt(permitted, opening, link).link == link
    ensures ConnectAttempt(permitted, opening, link).outcome ==
      Failure(if !permitted then Some(PERMISSION_REQUIRED) else opening.message)
  {
  }

  /** The view model's connection state and last readings. */
  class ObdViewModel {
    var socket: Option<Socket>
    /** Whether `inputStream` is non-null. */
    var hasInput: bool
    /** Whether `outputStream` is non-null. */
    var hasOutput: bool
    var connectionStatus: string
    var selectedDevice: Option<Device>
    var liveData: LiveData
    var dtcs: seq<string>
    var isReading: bool
    var lastError: Option<string>
    /** The adapter at the other end of the socket. */
    var adapter: Link
    /** Every value `connectionStatus` has been given, in order. */
    ghost var statusHistory: seq<string>

    /** Streams are there exactly while a connected socket is; the status
        text says which; readings are in range and no cycle is running
        between calls. */
    ghost predicate Valid()
      reads this
    {
      LinkValid() && ReadingsValid()
    }

    /** The connection half of `Valid`. */
    ghost predicate LinkValid()
      reads this`socket, this`hasInput, this`hasOutput, this`connectionStatus
    {
      && (socket.None? ==> !hasInput && !hasOutput && connectionStatus == DISCONNECTED)
      && (socket.Some? ==>
            && socket.value.isConnected && hasInput && hasOutput
            && |CONNECTED_TO| <= |connectionStatus|
            && connectionStatus[..|CONNECTED_TO|] == CONNECTED_TO)
    }

    /** The readings half of `Valid`. */
    ghost predicate ReadingsValid()
      reads this`liveData, this`dtcs, this`isReading
    {
      && liveData.InRange()
      && (forall k :: 0 <= k < |dtcs| ==> DtcDecoder.WellFormed(dtcs[k]))
      && !isReading
    }

    predicate StreamsOpen()
      reads this
    {
      hasInput && hasOutput
    }

    /** The state after construction; `device` is what the scan of paired
        devices selected. */
    constructor (device: Option<Device>, link: Link)
      ensures Valid()
      ensures socket == None && connectionStatus == DISCONNECTED && selectedDevice == device
      ensures liveData == DEFAULT_LIVE && dtcs == [] && lastError == None && adapter == link
      ensures statusHistory == [DISCONNECTED]
    {
      socket := None;
      hasInput := false;
      hasOutput := false;
      connectionStatus := DISCONNECTED;
      selectedDevice := device;
      liveData := DEFAULT_LIVE;
      dtcs := [];
      isReading := false;
      lastError := None;
      adapter := link;
      statusHistory := [DISCONNECTED];
    }

    method SelectDevice(device: Device)
      modifies this`selectedDevice
      ensures selectedDevice == Some(device)
    {
      selectedDevice := Some(device);
    }

    /** `sendCommand`: one exchange with the adapter. */
    method SendCommand(command: string) returns (response: Result<string>)
      modifies this`adapter
      ensures var e := Channel.Exchange(old(adapter), StreamsOpen(), command);
        response == e.response && adapter == e.link
    {
      if !hasOutput || !hasInput {
        return Failure(Some(Channel.NOT_CONNECTED));
      }
      var written := adapter.written + [Channel.Frame(command)];
      if adapter.replies == [] {
        adapter := Channel.Link([], written);
        return Failure(None);
      }
      var reply := adapter.replies[0];
      adapter := Channel.Link(adapter.replies[1..], written);
      match reply
      case Answer(text) => response := Success(Text.Trim(text));
      case Broken(message) => response := Failure(message);
    }

    /** `initializeElm327`: the five handshake commands in order; an
        exception from any of them ends the handshake. */
    method InitializeElm327() returns (outcome: Result<()>)
      modifies this`adapter
      ensures var h := Channel.Handshake(old(adapter), StreamsOpen());
        outcome == h.outcome && adapter == h.link
    {
      var commands := Channel.INIT_COMMANDS;
      var i := 0;
      while i < |commands|
        invariant 0 <= i <= |commands|
        invariant Channel.Run(old(adapter), StreamsOpen(), commands) ==
          Channel.Run(adapter, StreamsOpen(), commands[i..])
      {
        assert commands[i..][0] == commands[i] && commands[i..][1..] == commands[i + 1..];
        var response := SendCommand(commands[i]);
        if response.Failure? {
          return Failure(response.message);
        }
        i := i + 1;
      }
      return Success(());
    }

    /** `readPid`: a failed exchange reads as 0. */
    method ReadPid(pid: string) returns (value: int)
      modifies this`adapter
      ensures var e := Channel.Exchange(old(adapter), StreamsOpen(), pid);
        value == PidReading(pid, e.response) && adapter == e.link
    {
      var response := SendCommand(pid);
      value := PidReading(pid, response);
    }

    /** `readBatteryVoltage`: a failed exchange reads as 0.0. */
    method ReadBatteryVoltage() returns (voltage: Voltage)
      modifies this`adapter
      ensures var e := Channel.Exchange(old(adapter), StreamsOpen(), BATTERY);
        voltage == VoltageReading(e.response) && adapter == e.link
    {
      var response := SendCommand(BATTERY);
      voltage := VoltageReading(response);
    }

    /** `readDtcs`: a failed exchange reads as no codes. */
    method ReadDtcs() returns (codes: seq<string>)
      modifies this`adapter
      ensures var e := Channel.Exchange(old(adapter), StreamsOpen(), DTC_REQUEST);
        codes == DtcReading(e.response) && adapter == e.link
    {
      var response := SendCommand(DTC_REQUEST);
      match response
      case Success(text) => codes := DtcDecoder.Parse(text);
      case Failure(_) => codes := [];
    }

    /** `disconnect`: the socket is closed (a failing close is ignored) and
        dropped with both streams; the status becomes "Disconnected". */
    method Disconnect()
      modifies this`socket, this`hasInput, this`hasOutput, this`connectionStatus, this`statusHistory
      ensures socket == None && !hasInput && !hasOutput
      ensures connectionStatus == DISCONNECTED
      ensures statusHistory == old(statusHistory) + [DISCONNECTED]
      ensures old(Valid()) ==> Valid()
    {
      socket := None;
      hasInput := false;
      hasOutput := false;
      connectionStatus := DISCONNECTED;
      statusHistory := statusHistory + [DISCONNECTED];
    }

    /** `connect` to the selected device. With none selected nothing happens.
        Otherwise the status passes through "Connecting..." and ends as
        "Connected to <name>" with the error cleared, or as "Connection
        failed" with the exception's message kept, followed by a disconnect. */
    method Connect(permitted: bool, opening: Opening)
      modifies this`socket, this`hasInput, this`hasOutput, this`adapter
      modifies this`connectionStatus, this`statusHistory, this`lastError
      ensures selectedDevice == old(selectedDevice)
      ensures liveData == old(liveData) && dtcs == old(dtcs) && isReading == old(isReading)
      ensures old(selectedDevice).None? ==>
        && socket == old(socket) && hasInput == old(hasInput) && hasOutput == old(hasOutput)
        && connectionStatus == old(connectionStatus) && lastError == old(lastError)
        && adapter == old(adapter) && statusHistory == old(statusHistory)
      ensures old(selectedDevice).Some? ==>
        var a := ConnectAttempt(permitted, opening, old(adapter));
        && adapter == a.link
        && (a.outcome.Success? ==>
              && socket == Some(Socket(true)) && hasInput && hasOutput
              && connectionStatus == CONNECTED_TO + DisplayName(selectedDevice.value)
              && lastError == None
              && statusHistory == old(statusHistory) + [CONNECTING, connectionStatus])
        && (a.outcome.Failure? ==>
              && socket == None && !hasInput && !hasOutput
              && connectionStatus == DISCONNECTED
              && lastError == a.outcome.message
              && statusHistory == old(statusHistory) + [CONNECTING, CONNECTION_FAILED, DISCONNECTED])
      ensures old(LinkValid()) ==> LinkValid()
      ensures old(ReadingsValid()) ==> ReadingsValid()
    {
      if selectedDevice.None? {
        return;
      }
      ConnectTo(selectedDevice.value, permitted, opening);
    }

    /** The coroutine `connect` launches for `device`: "Connecting...", the
        I/O part, then the end of the `try` or the `catch`. Either way the
        connection half of the invariant holds afterwards. */
    method ConnectTo(device: Device, permitted: bool, opening: Opening)
      modifies this`socket, this`hasInput, this`hasOutput, this`adapter
      modifies this`connectionStatus, this`statusHistory, this`lastError
      ensures var a := ConnectAttempt(permitted, opening, old(adapter));
        && adapter == a.link
        && (a.outcome.Success? ==>
              && socket == Some(Socket(true)) && hasInput && hasOutput
              && connectionStatus == CONNECTED_TO + DisplayName(device)
              && lastError == None
              && statusHistory == old(statusHistory) + [CONNECTING, connectionStatus])
        && (a.outcome.Failure? ==>
              && socket == None && !hasInput && !hasOutput
              && connectionStatus == DISCONNECTED
              && lastError == a.outcome.message
              && statusHistory == old(statusHistory) + [CONNECTING, CONNECTION_FAILED, DISCONNECTED])
      ensures LinkValid()
    {
      connectionStatus := CONNECTING;
      statusHistory := statusHistory + [CONNECTING];
      var outcome := OpenAndInitialize(permitted, opening);
      if outcome.Success? {
        Connected(device);
      } else {
        ConnectionFailed(outcome.message);
      }
    }

    /** The end of `connect`'s `try`: the status names the device and the
        error is cleared. */
    method Connected(device: Device)
      modifies this`connectionStatus, this`statusHistory, this`lastError
      ensures connectionStatus == CONNECTED_TO + DisplayName(device)
      ensures |CONNECTED_TO| <= |connectionStatus| && connectionStatus[..|CONNECTED_TO|] == CONNECTED_TO
      ensures statusHistory == old(statusHistory) + [connectionStatus]
      ensures lastError == None
    {
      connectionStatus := CONNECTED_TO + DisplayName(device);
      statusHistory := statusHistory + [connectionStatus];
      lastError := None;
    }

    /** `connect`'s `catch`: the status says the connection failed, the
        exception's message becomes the error, and the session disconnects. */
    method ConnectionFailed(message: Option<string>)
      modifies this`connectionStatus, this`statusHistory, this`lastError
      modifies this`socket, this`hasInput, this`hasOutput
      ensures socket == None && !hasInput && !hasOutput
      ensures connectionStatus == DISCONNECTED
      ensures statusHistory == old(statusHistory) + [CONNECTION_FAILED, DISCONNECTED]
      ensures lastError == message
    {
      connectionStatus := CONNECTION_FAILED;
      statusHistory := statusHistory + [CONNECTION_FAILED];
      lastError := message;
      Disconnect();
    }

    /** The part of `connect` that runs on the I/O dispatcher: the
        permission check, creating and connecting the socket, taking its
        streams, and the handshake. A handle is only replaced once the call
        that yields it has returned. */
    method OpenAndInitialize(permitted: bool, opening: Opening) returns (outcome: Result<()>)
      modifies this`socket, this`hasInput, this`hasOutput, this`adapter
      ensures var a := ConnectAttempt(permitted, opening, old(adapter));
        outcome == a.outcome && adapter == a.link
      ensures !permitted || opening.CreateFailed? ==>
        socket == old(socket) && hasInput == old(hasInput) && hasOutput == old(hasOutput)
      ensures permitted && opening.ConnectFailed? ==>
        socket == Some(Socket(false)) && hasInput == old(hasInput) && hasOutput == old(hasOutput)
      ensures permitted && opening.Opened? ==> socket == Some(Socket(true)) && hasInput && hasOutput
      ensures outcome.Success? ==> socket == Some(Socket(true)) && hasInput && hasOutput
    {
      if !permitted {
        return Failure(Some(PERMISSION_REQUIRED));
      }
      match opening
      case CreateFailed(message) =>
        outcome := Failure(message);
      case ConnectFailed(message) =>
        socket := Some(Socket(false));
        outcome := Failure(message);
      case Opened =>
        socket := Some(Socket(true));
        hasInput := true;
        hasOutput := true;
        outcome := InitializeElm327();
    }

    /** `readData`: without a connected socket only the error is set.
        Otherwise the error is cleared, the three values and the battery are
        read and stored together, then the trouble codes; the reading flag is
        up only while the cycle runs. */
    method ReadData()
      modifies this`liveData, this`dtcs, this`isReading, this`lastError, this`adapter
      ensures socket == old(socket) && hasInput == old(hasInput) && hasOutput == old(hasOutput)
      ensures connectionStatus == old(connectionStatus) && selectedDevice == old(selectedDevice)
      ensures statusHistory == old(statusHistory)
      ensures !(old(socket).Some? && old(socket).value.isConnected) ==>
        && lastError == Some(NOT_CONNECTED_TO_DEVICE)
        && liveData == old(liveData) && dtcs == old(dtcs) && isReading == old(isReading)
        && adapter == old(adapter)
      ensures old(socket).Some? && old(socket).value.isConnected ==>
        var c := ReadCycle(old(adapter), old(StreamsOpen()));
        && liveData == c.live && dtcs == c.dtcs && adapter == c.link
        && lastError == None && !isReading
      ensures old(Valid()) && old(socket).Some? ==>
        adapter.written == old(adapter.written) + Channel.FrameAll(CYCLE_COMMANDS)
      ensures old(LinkValid()) ==> LinkValid()
      ensures old(ReadingsValid()) ==> ReadingsValid()
    {
      ghost var before := adapter;
      CycleWrites(before);
      if !(socket.Some? && socket.value.isConnected) {
        lastError := Some(NOT_CONNECTED_TO_DEVICE);
        return;
      }
      isReading := true;
      lastError := None;
      liveData := ReadLiveData();
      dtcs := ReadDtcs();
      isReading := false;
    }

    /** The live-data reads of `readData`, stored together at the end. */
    method ReadLiveData() returns (live: LiveData)
      modifies this`adapter
      ensures var s := ReadLive(old(adapter), StreamsOpen());
        live == s.live && adapter == s.link
    {
      var rpm := ReadPid(PidDecoder.RPM);
      var speed := ReadPid(PidDecoder.SPEED);
      var coolant := ReadPid(PidDecoder.COOLANT);
      var battery := ReadBatteryVoltage();
      live := LiveData(rpm, speed, coolant, battery);
    }
  }
}
