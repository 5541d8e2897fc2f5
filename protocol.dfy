/** The uploader's session and its event handlers as functions from the
    old session to the new one: the specification that the class
    `Uploader.WiFiUploader` implements field by field
    (src/upload-wifi.mjs, class WiFiUploader). */
module Protocol {
  import opened Wrappers
  import opened Bytes
  import opened Transport
  import opened DeviceCommands

  const DEVICE_PORT: int := 28000
  const DEFAULT_PAIRING_CODE: int := 123456
  /** The download step in which image pages are sent. */
  const DATA_STEP: nat := 6

  /** One datagram handed to the socket: destination and bytes. */
  datatype Datagram = Datagram(ip: string, port: int, bytes: seq<Byte>)

  datatype UploadError = NotConnected | FileMissing

  /** The fields of a `WiFiUploader`, plus the two kinds of pending timer
      and the log of datagrams sent so far. The resend timer is cancelled
      before it is re-armed, so at most one is pending; the 100 ms settle
      timers are never cancelled, so they are counted. */
  datatype Session = Session(
    targetIp: string,
    targetPort: int,
    pairingCode: int,
    isConnected: bool,
    isDownloading: bool,
    downloadStep: nat,
    pageCount: nat,
    pageSum: nat,
    image: seq<Byte>,
    fileName: string,
    lastCheckSum: Byte,
    downloadFinish: bool,
    resendArmed: bool,
    pendingSettles: nat,
    clock: ClockTime,
    sent: seq<Datagram>)

  /** The page count always describes the image (both are set together). */
  predicate PagesMatch(s: Session)
  {
    s.pageSum == PageTotal(|s.image|)
  }

  /** `a` and `b` agree on everything but the datagrams sent, the last
      page checksum and `downloadFinish`: what sending a command may change. */
  predicate SameControl(a: Session, b: Session)
  {
    b == a.(sent := b.sent, lastCheckSum := b.lastCheckSum, downloadFinish := b.downloadFinish)
  }

  /** What holds between handlers: `downloadFinish` is raised and cleared
      within one run of `downloadStep_V1`, so no handler ever sees it set. */
  predicate Inv(s: Session)
  {
    PagesMatch(s) && !s.downloadFinish
  }

  /** The uploader as its constructor leaves it. */
  function Initial(clock: ClockTime): (s: Session)
    ensures Inv(s) && !s.isConnected && !s.isDownloading && s.sent == []
  {
    Session("", DEVICE_PORT, DEFAULT_PAIRING_CODE, false, false, 0, 0, 0, [], "", 0,
            false, false, 0, clock, [])
  }

  function SendTo(s: Session, ip: string, port: int, bytes: seq<Byte>): Session
  {
    s.(sent := s.sent + [Datagram(ip, port, bytes)])
  }

  /** `connect`: remember the target and the pairing code, then send the
      pairing-code packet and the handshake to the target. */
  function Connect(s: Session, ip: string, code: int, thirdOctet: int): (r: Session)
    requires Inv(s)
    ensures Inv(r)
  {
    var s1 := s.(targetIp := ip, pairingCode := code);
    var s2 := SendTo(s1, ip, s1.targetPort, PairingCodePacket(code));
    SendTo(s2, ip, s2.targetPort, ShakehandPacket(code, thirdOctet))
  }

  /** `send`: the pairing code, then `data`, in a (0xEE, 0xFF) frame. */
  function Send(s: Session, data: seq<Byte>): (r: Session)
    ensures r == s.(sent := r.sent) && r.sent == s.sent + [CommandDatagram(s, data)]
  {
    SendTo(s, s.targetIp, s.targetPort, Frame(DownloadCmd, CodePrefix(s.pairingCode) + data))
  }

  /** `sendDataPacket`: the pairing code, then `data`, in a (0xAA, 0x03) frame. */
  function SendDataPacket(s: Session, data: seq<Byte>): (r: Session)
    ensures r == s.(sent := r.sent) && |r.sent| == |s.sent| + 1 && r.sent[..|s.sent|] == s.sent
    ensures var d := r.sent[|s.sent|];
      && d.ip == s.targetIp && d.port == s.targetPort && |d.bytes| == |data| + 10
      && d.bytes[4..6] == [DataCmd.cmd1, DataCmd.cmd2]
      && d.bytes[6..|d.bytes| - 1] == CodePrefix(s.pairingCode) + data
  {
    SendTo(s, s.targetIp, s.targetPort, Frame(DataCmd, CodePrefix(s.pairingCode) + data))
  }

  /** The datagram that carries page `i`. */
  function PageDatagram(s: Session, i: nat): Datagram
    requires PagesMatch(s) && i < s.pageSum
  {
    Datagram(s.targetIp, s.targetPort,
             Frame(DataCmd, CodePrefix(s.pairingCode) + PageFrame(i, Page(s.image, i))))
  }

  /** `sendFileData_V1(i)`: past the last page, raise `downloadFinish`;
      otherwise remember the page's checksum and send the page. */
  function SendFileData(s: Session, i: nat): (r: Session)
    requires PagesMatch(s)
    ensures SameControl(s, r)
    ensures r.downloadFinish <==> s.downloadFinish || i >= s.pageSum
    ensures r.sent == if i >= s.pageSum then s.sent else s.sent + [PageDatagram(s, i)]
    ensures i < s.pageSum ==> r.lastCheckSum == ToByte(Sum(Page(s.image, i)))
    ensures i >= s.pageSum ==> r.lastCheckSum == s.lastCheckSum
  {
    if i >= s.pageSum then s.(downloadFinish := true)
    else
      var page := Page(s.image, i);
      SendDataPacket(s.(lastCheckSum := ToByte(Sum(page))), PageFrame(i, page))
  }

  /** The configuration command sent in each step before the data step. */
  function ConfigCommand(s: Session): (c: seq<Byte>)
    requires s.downloadStep < DATA_STEP
    ensures IsConfigFrame(c) && c[2] == [2, 7, 8, 9, 6, 4][s.downloadStep]
  {
    FixedFramesWellFormed();
    FileNameFrameWellFormed(s.fileName);
    FileDateFrameFields(s.clock);
    PageSizeFrameWellFormed(PAGE_SIZE);
    PageSumFrameWellFormed(s.pageSum);
    if s.downloadStep == 0 then RcuTypeFrame()
    else if s.downloadStep == 1 then FileNameFrame(s.fileName)
    else if s.downloadStep == 2 then FileDateFrame(s.clock)
    else if s.downloadStep == 3 then PageSizeFrame(PAGE_SIZE)
    else if s.downloadStep == 4 then PageSumFrame(s.pageSum)
    else StartDownloadFrame()
  }

  /** The datagram that carries a `send(data)`. */
  function CommandDatagram(s: Session, data: seq<Byte>): Datagram
  {
    Datagram(s.targetIp, s.targetPort, Frame(DownloadCmd, CodePrefix(s.pairingCode) + data))
  }

  /** The action `downloadStep_V1` takes in each step. */
  function StepAction(s: Session): (r: Session)
    requires Inv(s)
    ensures SameControl(s, r)
    ensures r.downloadFinish <==> Finishes(s)
    ensures |r.sent| == |s.sent| + (if s.downloadStep > DATA_STEP || Finishes(s) then 0 else 1)
    ensures r.sent[..|s.sent|] == s.sent
  {
    if s.downloadStep < DATA_STEP then Send(s, ConfigCommand(s))
    else if s.downloadStep == DATA_STEP then SendFileData(s, s.pageCount)
    else s
  }

  /** `downloadComplete`. */
  function DownloadComplete(s: Session): (r: Session)
    ensures !r.isDownloading && !r.downloadFinish && r.downloadStep == 0 && !r.resendArmed
    ensures PagesMatch(s) ==> Inv(r)
    ensures r.sent == s.sent && r.pageCount == s.pageCount && r.isConnected == s.isConnected
  {
    s.(resendArmed := false, isDownloading := false, downloadFinish := false, downloadStep := 0)
  }

  /** The run of `downloadStep_V1` that finds every page sent. */
  predicate Finishes(s: Session)
  {
    s.downloadStep == DATA_STEP && s.pageCount >= s.pageSum
  }

  /** `downloadStep_V1`: cancel the resend timer, act for the current step,
      re-arm the timer before the data step, and complete the download once
      every page is sent. */
  function DownloadStep(s: Session): (r: Session)
    requires Inv(s)
    ensures Inv(r)
    ensures r.resendArmed <==> s.downloadStep < DATA_STEP
    ensures r.downloadStep == if Finishes(s) then 0 else s.downloadStep
    ensures r.isDownloading == (s.isDownloading && !Finishes(s))
  {
    var s1 := StepAction(s.(resendArmed := false));
    var s2 := if s1.downloadStep < DATA_STEP then s1.(resendArmed := true) else s1;
    if s2.downloadFinish then DownloadComplete(s2) else s2
  }

  /** A step leaves the peer, the image and the counters alone, and appends
      one datagram to the log, or none when it completes the download or
      the step is past the data step. */
  lemma DownloadStepFrame(s: Session)
    requires Inv(s)
    ensures var r := DownloadStep(s);
      && r.pageCount == s.pageCount && r.pendingSettles == s.pendingSettles
      && r.isConnected == s.isConnected && r.pairingCode == s.pairingCode
      && r.targetIp == s.targetIp && r.targetPort == s.targetPort
      && r.image == s.image && r.pageSum == s.pageSum
      && |r.sent| == |s.sent| + (if s.downloadStep > DATA_STEP || Finishes(s) then 0 else 1)
      && r.sent[..|s.sent|] == s.sent
  {
    var s1 := StepAction(s.(resendArmed := false));
  }

  /** A status-3 reply in step 5: the one reply that schedules the settle
      timer instead of running a step. */
  predicate IsStartAck(s: Session, data: seq<Byte>)
  {
    && |data| >= 4 && data[0] == HEAD_0 && data[1] == HEAD_1 && data[2] == 5 && data[3] == 3
    && s.downloadStep == 5
  }

  /** The session on which `parseDownload_V1` runs `downloadStep_V1` for
      the reply `data`, or `None` when the reply runs no step: a type reply
      or a status-1 reply advances the step, a status-4 reply echoing the
      last checksum advances the page count, and other status-3 and
      status-4 replies re-run the current step. */
  function StepInput(s: Session, data: seq<Byte>): (t: Option<Session>)
    requires Inv(s)
    ensures t.Some? ==> Inv(t.value) && !IsStartAck(s, data)
    ensures t.Some? ==> t.value == s.(downloadStep := t.value.downloadStep, pageCount := t.value.pageCount)
    ensures t.Some? ==> t.value.downloadStep - s.downloadStep in {0, 1}
    ensures t.Some? ==> t.value.pageCount - s.pageCount in {0, 1}
  {
    if |data| < 3 || data[0] != HEAD_0 || data[1] != HEAD_1 then None
    else if data[2] == 3 then Some(s.(downloadStep := s.downloadStep + 1))
    else if data[2] != 5 || |data| < 4 then None
    else if data[3] == 1 then Some(s.(downloadStep := s.downloadStep + 1))
    else if data[3] == 3 then (if s.downloadStep == 5 then None else Some(s))
    else if data[3] == 4 then
      Some(if |data| >= 5 && data[4] == s.lastCheckSum then s.(pageCount := s.pageCount + 1) else s)
    else None
  }

  /** `parseDownload_V1`: the device's replies `0x56 0xAB cmd ...`. A read
      past the end of the reply is `undefined` and matches nothing. */
  function ParseDownloadV1(s: Session, data: seq<Byte>): (r: Session)
    requires Inv(s)
    ensures Inv(r)
  {
    if IsStartAck(s, data) then s.(downloadStep := DATA_STEP, pendingSettles := s.pendingSettles + 1)
    else match StepInput(s, data)
      case None => s
      case Some(t) => DownloadStep(t)
  }

  /** A reply that runs a step leaves the session `DownloadStep` makes of
      its step input. */
  lemma StepInputRunsStep(s: Session, data: seq<Byte>, t: Session)
    requires Inv(s) && StepInput(s, data) == Some(t)
    ensures Inv(t) && ParseDownloadV1(s, data) == DownloadStep(t)
  {
  }

  /** `parseDownloadPacket` and `parseScratchCmdPacket` (identical): a
      reply is acted on only when it starts with the pairing code. */
  function ParseReply(s: Session, data: seq<Byte>): (r: Session)
    requires Inv(s)
    ensures Inv(r)
  {
    if |data| < 3 || ReadBE24(data) != Some(s.pairingCode) then s
    else ParseDownloadV1(s, data[3..])
  }

  predicate IsHandshakeReply(cmd: CommandPair)
  {
    cmd == PairingReplyCmd || cmd == ShakehandReplyCmd
  }

  predicate IsDownloadReply(cmd: CommandPair)
  {
    cmd == DownloadReplyCmd || cmd == CommandReplyCmd
  }

  /** `parseUDPPacket(srcIP, srcPort, data)`. */
  function ParseUdpPacket(s: Session, srcIp: string, srcPort: int, data: seq<Byte>): (r: Session)
    requires Inv(s)
    ensures Inv(r)
  {
    match Decode(data)
    case None => s
    case Some(p) =>
      var s1 :=
        if IsHandshakeReply(p.cmd) && ReadBE24(p.payload) == Some(s.pairingCode)
        then s.(targetIp := srcIp, targetPort := srcPort, isConnected := true)
        else s;
      if IsDownloadReply(p.cmd) && s1.isDownloading then ParseReply(s1, p.payload) else s1
  }

  /** `startDownload(path)`, given the file's contents (`None` when it does
      not exist) and its base name: refused unless connected, then unless
      the file exists; otherwise reset the download, send the user-space
      command twice and run the first step. */
  function StartDownload(s: Session, file: Option<seq<Byte>>, fileName: string): (r: Result<Session, UploadError>)
    requires Inv(s)
    ensures r.Ok? <==> s.isConnected && file.Some?
    ensures !s.isConnected ==> r == Err(NotConnected)
    ensures s.isConnected && file.None? ==> r == Err(FileMissing)
    ensures r.Ok? ==> Inv(r.value)
  {
    if !s.isConnected then Err(NotConnected)
    else if file.None? then Err(FileMissing)
    else Ok(BeginDownload(s, file.value, fileName))
  }

  /** The part of `startDownload` after its checks: reset the download,
      send the user-space command twice and run the first step. */
  function BeginDownload(s: Session, image: seq<Byte>, fileName: string): (r: Session)
    requires Inv(s)
    ensures Inv(r)
  {
    var s1 := s.(image := image, fileName := fileName, isDownloading := true,
                 downloadFinish := false, downloadStep := 0, pageCount := 0,
                 pageSum := PageTotal(|image|));
    DownloadStep(Send(Send(s1, UserSpaceFrame()), UserSpaceFrame()))
  }

  /** The 1000 ms resend timer fires: the current step runs again. */
  function ResendTimerFires(s: Session): (r: Session)
    requires Inv(s)
    ensures Inv(r)
  {
    if s.resendArmed then DownloadStep(s) else s
  }

  /** A 100 ms settle timer fires: the (data) step runs. */
  function SettleTimerFires(s: Session): (r: Session)
    requires Inv(s)
    ensures Inv(r)
  {
    if s.pendingSettles > 0 then DownloadStep(s.(pendingSettles := s.pendingSettles - 1)) else s
  }

  /** `close`: the resend timer is cancelled (the socket is not modelled). */
  function Close(s: Session): (r: Session)
    ensures !r.resendArmed && r.pendingSettles == s.pendingSettles
    ensures Inv(s) ==> Inv(r)
    ensures r.sent == s.sent && r.downloadStep == s.downloadStep
  {
    s.(resendArmed := false)
  }

  // ---------------------------------------------------------------------
  // Properties of the handlers

  /** `a` and `b` agree on everything but the peer binding: what a
      handshake reply may change. */
  predicate SameDownload(a: Session, b: Session)
  {
    b == a.(targetIp := b.targetIp, targetPort := b.targetPort, isConnected := b.isConnected)
  }

  /** A datagram that is not a well-formed outer frame changes nothing. */
  lemma MalformedDatagramIgnored(s: Session, srcIp: string, srcPort: int, data: seq<Byte>)
    requires Inv(s)
    requires |data| < OVERHEAD || data[0] != MAGIC_0 || data[1] != MAGIC_1
             || data[|data| - 1] != TERMINATOR || (data[2] as int) * 0x100 + data[3] != |data|
    ensures ParseUdpPacket(s, srcIp, srcPort, data) == s
  {
  }

  /** A handshake reply carrying the pairing code binds the uploader to
      the address and port it came from, and changes nothing else. */
  lemma HandshakeBindsPeer(s: Session, cmd: CommandPair, srcIp: string, srcPort: int, rest: seq<Byte>)
    requires Inv(s) && 0 <= s.pairingCode < TWO_POW_24
    requires IsHandshakeReply(cmd) && 3 + |rest| + OVERHEAD < MAX_FRAME
    ensures var r := ParseUdpPacket(s, srcIp, srcPort, Frame(cmd, CodePrefix(s.pairingCode) + rest));
      r == s.(targetIp := srcIp, targetPort := srcPort, isConnected := true)
  {
    DecodeFrame(cmd, CodePrefix(s.pairingCode) + rest);
    CodePrefixRoundTrip(s.pairingCode);
    assert ReadBE24(CodePrefix(s.pairingCode) + rest) == ReadBE24(CodePrefix(s.pairingCode));
  }

  /** A handshake reply carrying any other code is ignored. */
  lemma HandshakeMismatchIgnored(s: Session, cmd: CommandPair, srcIp: string, srcPort: int, code: int, rest: seq<Byte>)
    requires Inv(s) && 0 <= code < TWO_POW_24 && code != s.pairingCode
    requires IsHandshakeReply(cmd) && 3 + |rest| + OVERHEAD < MAX_FRAME
    ensures ParseUdpPacket(s, srcIp, srcPort, Frame(cmd, CodePrefix(code) + rest)) == s
  {
    DecodeFrame(cmd, CodePrefix(code) + rest);
    CodePrefixRoundTrip(code);
    assert ReadBE24(CodePrefix(code) + rest) == ReadBE24(CodePrefix(code));
  }

  /** A pairing code outside 24 bits can never be matched: such an
      uploader never connects, whatever datagrams arrive. */
  lemma WideCodeNeverConnects(s: Session, srcIp: string, srcPort: int, data: seq<Byte>)
    requires Inv(s) && !s.isConnected
    requires s.pairingCode < 0 || s.pairingCode >= TWO_POW_24
    ensures !ParseUdpPacket(s, srcIp, srcPort, data).isConnected
  {
    var d := Decode(data);
    if d.Some? {
      WideCodeNeverMatches(s.pairingCode, d.value.payload);
      if IsDownloadReply(d.value.cmd) && s.isDownloading {
        ParseReplyKeepsPeer(s, d.value.payload);
      }
    }
  }

  /** The device replies never touch the peer binding. */
  lemma ParseReplyKeepsPeer(s: Session, data: seq<Byte>)
    requires Inv(s)
    ensures var r := ParseReply(s, data);
      r.isConnected == s.isConnected && r.targetIp == s.targetIp && r.targetPort == s.targetPort
  {
    if |data| >= 3 && ReadBE24(data) == Some(s.pairingCode) {
      var t := StepInput(s, data[3..]);
      if t.Some? {
        DownloadStepFrame(t.value);
      }
    }
  }

  /** While no download runs, only the peer binding can change: device
      replies are dropped. */
  lemma RepliesIgnoredUnlessDownloading(s: Session, srcIp: string, srcPort: int, data: seq<Byte>)
    requires Inv(s) && !s.isDownloading
    ensures SameDownload(s, ParseUdpPacket(s, srcIp, srcPort, data))
  {
  }

  /** A device reply is acted on only when its payload starts with the
      pairing code. */
  lemma ReplyNeedsPairingCode(s: Session, code: int, reply: seq<Byte>)
    requires Inv(s) && 0 <= code < TWO_POW_24 && code != s.pairingCode
    ensures ParseReply(s, CodePrefix(code) + reply) == s
  {
    CodePrefixRoundTrip(code);
    assert ReadBE24(CodePrefix(code) + reply) == ReadBE24(CodePrefix(code));
  }

  /** A framed device reply (either reply command) with the pairing code,
      during a download, reaches the step machine with the code stripped. */
  lemma DeviceReplyReachesStateMachine(s: Session, cmd: CommandPair, srcIp: string, srcPort: int, reply: seq<Byte>)
    requires Inv(s) && s.isDownloading && 0 <= s.pairingCode < TWO_POW_24
    requires IsDownloadReply(cmd) && 3 + |reply| + OVERHEAD < MAX_FRAME
    ensures ParseUdpPacket(s, srcIp, srcPort, Frame(cmd, CodePrefix(s.pairingCode) + reply))
            == ParseDownloadV1(s, reply)
  {
    var payload := CodePrefix(s.pairingCode) + reply;
    DecodeFrame(cmd, payload);
    CodePrefixRoundTrip(s.pairingCode);
    assert ReadBE24(payload) == ReadBE24(CodePrefix(s.pairingCode));
    assert payload[3..] == reply;
  }

  /** Every command the uploader sends decodes, at the device, to the
      download command with the pairing code ahead of the data. */
  lemma SendCarriesPairingCode(s: Session, data: seq<Byte>)
    requires 3 + |data| + OVERHEAD < MAX_FRAME && 0 <= s.pairingCode < TWO_POW_24
    ensures var r := Send(s, data);
      var d := r.sent[|r.sent| - 1];
      && r.sent[..|s.sent|] == s.sent && |r.sent| == |s.sent| + 1
      && d.ip == s.targetIp && d.port == s.targetPort
      && Decode(d.bytes) == Some(Packet(DownloadCmd, CodePrefix(s.pairingCode) + data))
      && ReadBE24(Decode(d.bytes).value.payload) == Some(s.pairingCode)
  {
    var payload := CodePrefix(s.pairingCode) + data;
    DecodeFrame(DownloadCmd, payload);
    CodePrefixRoundTrip(s.pairingCode);
    assert ReadBE24(payload) == ReadBE24(CodePrefix(s.pairingCode));
    assert (s.sent + [CommandDatagram(s, data)])[..|s.sent|] == s.sent;
  }

  /** Each step before the data step sends its own configuration command. */
  lemma StepSendsConfigCommand(s: Session)
    requires Inv(s) && s.downloadStep < DATA_STEP
    ensures DownloadStep(s).sent == s.sent + [CommandDatagram(s, ConfigCommand(s))]
    ensures DownloadStep(s).resendArmed
  {
  }

  /** In the data step, the page the device has acknowledged up to is sent;
      once all are acknowledged the download completes and nothing is sent. */
  lemma StepSendsPage(s: Session)
    requires Inv(s) && s.downloadStep == DATA_STEP
    ensures var r := DownloadStep(s);
      if s.pageCount < s.pageSum then
        && r.sent == s.sent + [PageDatagram(s, s.pageCount)]
        && r.isDownloading == s.isDownloading && r.downloadStep == DATA_STEP
        && r.lastCheckSum == ToByte(Sum(Page(s.image, s.pageCount)))
      else
        r.sent == s.sent && !r.isDownloading && r.downloadStep == 0 && !r.resendArmed
  {
  }

  /** A type reply, or a status-1 reply, advances the step by exactly one
      and sends the next step's command. */
  lemma AckAdvancesOneStep(s: Session, reply: seq<Byte>)
    requires Inv(s) && s.downloadStep < 5
    requires |reply| >= 3 && reply[0] == HEAD_0 && reply[1] == HEAD_1
    requires reply[2] == 3 || (reply[2] == 5 && |reply| >= 4 && reply[3] == 1)
    ensures var r := ParseDownloadV1(s, reply);
      && r.downloadStep == s.downloadStep + 1 && r.resendArmed
      && r.sent == s.sent + [CommandDatagram(r, ConfigCommand(r))]
  {
  }

  /** A type reply, or a status-1 reply, in the start step enters the data
      step: it sends page `pageCount`, or completes the download when every
      page is already acknowledged. */
  lemma AckEntersDataStep(s: Session, reply: seq<Byte>)
    requires Inv(s) && s.downloadStep == 5
    requires |reply| >= 3 && reply[0] == HEAD_0 && reply[1] == HEAD_1
    requires reply[2] == 3 || (reply[2] == 5 && |reply| >= 4 && reply[3] == 1)
    ensures var r := ParseDownloadV1(s, reply);
      if s.pageCount < s.pageSum then
        && r.downloadStep == DATA_STEP && !r.resendArmed
        && r.sent == s.sent + [PageDatagram(s, s.pageCount)]
      else
        r.downloadStep == 0 && !r.isDownloading && r.sent == s.sent
  {
    var t := s.(downloadStep := DATA_STEP);
    assert StepInput(s, reply) == Some(t);
    StepSendsPage(t);
  }

  /** A status-3 reply in the start step moves to the data step and
      schedules one settle timer, sending nothing; in any other step it
      repeats the current step. */
  lemma StartAckOnlyAtStep5(s: Session, reply: seq<Byte>)
    requires Inv(s)
    requires |reply| >= 4 && reply[0] == HEAD_0 && reply[1] == HEAD_1 && reply[2] == 5 && reply[3] == 3
    ensures var r := ParseDownloadV1(s, reply);
      if s.downloadStep == 5 then
        r.downloadStep == DATA_STEP && r.pendingSettles == s.pendingSettles + 1 && r.sent == s.sent
      else r == DownloadStep(s) && r.downloadStep == (if Finishes(s) then 0 else s.downloadStep)
  {
  }

  /** In the data step, a page acknowledgement moves to the next page only
      when it echoes the checksum of the page sent; otherwise the same page
      is sent again. */
  lemma PageAckCountsOnlyOnMatch(s: Session, reply: seq<Byte>)
    requires Inv(s) && s.downloadStep == DATA_STEP && s.pageCount < s.pageSum
    requires |reply| >= 4 && reply[0] == HEAD_0 && reply[1] == HEAD_1 && reply[2] == 5 && reply[3] == 4
    ensures var r := ParseDownloadV1(s, reply);
      var matched := |reply| >= 5 && reply[4] == s.lastCheckSum;
      if !matched then
        r.pageCount == s.pageCount && r.sent == s.sent + [PageDatagram(s, s.pageCount)]
      else if s.pageCount + 1 < s.pageSum then
        r.pageCount == s.pageCount + 1 && r.sent == s.sent + [PageDatagram(s, s.pageCount + 1)]
      else
        r.sent == s.sent && !r.isDownloading && r.downloadStep == 0
  {
    var matched := |reply| >= 5 && reply[4] == s.lastCheckSum;
    var t := if matched then s.(pageCount := s.pageCount + 1) else s;
    assert StepInput(s, reply) == Some(t);
    StepSendsPage(t);
  }

  /** No datagram skips a page: the acknowledged-page count grows by at
      most one per datagram. */
  lemma NoSkipping(s: Session, srcIp: string, srcPort: int, data: seq<Byte>)
    requires Inv(s)
    ensures var r := ParseUdpPacket(s, srcIp, srcPort, data);
      r.pageCount == s.pageCount || r.pageCount == s.pageCount + 1
  {
    var d := Decode(data);
    if d.Some? {
      var s1 := if IsHandshakeReply(d.value.cmd) && ReadBE24(d.value.payload) == Some(s.pairingCode)
                then s.(targetIp := srcIp, targetPort := srcPort, isConnected := true)
                else s;
      var p := d.value.payload;
      if IsDownloadReply(d.value.cmd) && s1.isDownloading && |p| >= 3 && ReadBE24(p) == Some(s1.pairingCode) {
        var t := StepInput(s1, p[3..]);
        if t.Some? {
          DownloadStepFrame(t.value);
        }
      }
    }
  }

  /** Only a status-4 reply echoing the last page checksum moves the
      acknowledged-page count. */
  lemma PageCountOnlyOnMatchingAck(s: Session, reply: seq<Byte>)
    requires Inv(s)
    requires ParseDownloadV1(s, reply).pageCount != s.pageCount
    ensures |reply| >= 5 && reply[0] == HEAD_0 && reply[1] == HEAD_1
    ensures reply[2] == 5 && reply[3] == 4 && reply[4] == s.lastCheckSum
  {
    var t := StepInput(s, reply);
    if t.Some? {
      DownloadStepFrame(t.value);
    }
  }

  /** A type reply during the data step pushes the step past it, where
      `downloadStep_V1` does nothing and arms no timer: the upload stalls. */
  lemma StrayTypeReplyStalls(s: Session, reply: seq<Byte>)
    requires Inv(s) && s.downloadStep == DATA_STEP
    requires |reply| >= 3 && reply[0] == HEAD_0 && reply[1] == HEAD_1 && reply[2] == 3
    ensures var r := ParseDownloadV1(s, reply);
      && r.downloadStep == DATA_STEP + 1 && r.sent == s.sent && !r.resendArmed
      && DownloadStep(r) == r.(resendArmed := false)
  {
  }

  /** `connect` sends the pairing frame and the handshake frame to the
      target's device port; each decodes there with the pairing code as its
      first three payload bytes. */
  lemma ConnectSendsPairingFrames(s: Session, ip: string, code: int, thirdOctet: int)
    requires Inv(s) && 0 <= code < TWO_POW_24
    ensures var r := Connect(s, ip, code, thirdOctet);
      && |r.sent| == |s.sent| + 2 && r.sent[..|s.sent|] == s.sent
      && r.sent[|s.sent|].ip == ip && r.sent[|s.sent|].port == s.targetPort
      && r.sent[|s.sent| + 1].ip == ip && r.sent[|s.sent| + 1].port == s.targetPort
      && Decode(r.sent[|s.sent|].bytes) == Some(Packet(PairingCmd, CodePrefix(code)))
      && Decode(r.sent[|s.sent| + 1].bytes)
         == Some(Packet(ShakehandCmd, CodePrefix(code) + [192, 168, ToByte(thirdOctet), 1]))
      && ReadBE24(CodePrefix(code)) == Some(code)
  {
    var extra := [192, 168, ToByte(thirdOctet), 1];
    PairingPacketsAreFrames(code, thirdOctet);
    DecodeFrame(ShakehandCmd, CodePrefix(code) + extra);
    CodePrefixRoundTrip(code);
    var r := Connect(s, ip, code, thirdOctet);
    assert r.sent == s.sent + [Datagram(ip, s.targetPort, PairingCodePacket(code)),
                               Datagram(ip, s.targetPort, ShakehandPacket(code, thirdOctet))];
  }

  /** A started download sends the user-space command twice and the
      device-type query, then waits in step 0 with the resend timer armed. */
  lemma StartDownloadBegins(s: Session, image: seq<Byte>, fileName: string)
    requires Inv(s) && s.isConnected
    ensures var r := StartDownload(s, Some(image), fileName).value;
      && r.sent == s.sent + [CommandDatagram(s, UserSpaceFrame()), CommandDatagram(s, UserSpaceFrame()),
                             CommandDatagram(s, RcuTypeFrame())]
      && r.downloadStep == 0 && r.pageCount == 0 && r.isDownloading && r.resendArmed
      && r.image == image && r.pageSum == PageTotal(|image|) && r.fileName == fileName
  {
    var s1 := s.(image := image, fileName := fileName, isDownloading := true,
                 downloadFinish := false, downloadStep := 0, pageCount := 0,
                 pageSum := PageTotal(|image|));
    var s3 := Send(Send(s1, UserSpaceFrame()), UserSpaceFrame());
    StepSendsConfigCommand(s3);
  }

  /** When the resend timer fires before the data step, the current
      step's command goes out again and the step does not move. */
  lemma ResendRepeatsCommand(s: Session)
    requires Inv(s) && s.resendArmed && s.downloadStep < DATA_STEP
    ensures var r := ResendTimerFires(s);
      && r.sent == s.sent + [CommandDatagram(s, ConfigCommand(s))]
      && r.downloadStep == s.downloadStep && r.resendArmed
  {
    StepSendsConfigCommand(s);
  }

  /** The settle timer scheduled by the start acknowledgement sends the
      first page, and no resend timer runs during the transfer. */
  lemma SettleStartsTransfer(s: Session)
    requires Inv(s) && s.downloadStep == DATA_STEP && s.pendingSettles > 0
    requires s.pageCount == 0 < s.pageSum
    ensures var r := SettleTimerFires(s);
      && r.sent == s.sent + [PageDatagram(s, 0)]
      && r.downloadStep == DATA_STEP && !r.resendArmed
      && r.lastCheckSum == ToByte(Sum(Page(s.image, 0)))
  {
    StepSendsPage(s.(pendingSettles := s.pendingSettles - 1));
  }
}
