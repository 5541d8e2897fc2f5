/** The `WiFiUploader` class of src/upload-wifi.mjs: its fields, updated in
    place by its methods, each proved to take the session from its old
    state to the one the matching `Protocol` function gives. The socket is
    the `sent` log; timers are the `resendArmed` flag and the
    `pendingSettles` count, and their firing is a method call. */
module Uploader {
  import opened Wrappers
  import opened Bytes
  import opened Transport
  import opened DeviceCommands
  import P = Protocol

  class WiFiUploader {
    var targetIp: string
    var targetPort: int
    var pairingCode: int
    var isConnected: bool
    var isDownloading: bool
    var downloadStep: nat
    var pageCount: nat
    var pageSum: nat
    var binFileData: seq<Byte>
    var binFileName: string
    var lastCheckSum: Byte
    var downloadFinish: bool
    var resendArmed: bool
    var pendingSettles: nat
    var clock: ClockTime
    var sent: seq<P.Datagram>

    /** The uploader's state as a `Protocol.Session`. */
    function Abs(): P.Session
      reads this
    {
      P.Session(targetIp, targetPort, pairingCode, isConnected, isDownloading, downloadStep,
                pageCount, pageSum, binFileData, binFileName, lastCheckSum, downloadFinish,
                resendArmed, pendingSettles, clock, sent)
    }

    predicate Valid()
      reads this
    {
      P.Inv(Abs())
    }

    constructor(now: ClockTime)
      ensures Abs() == P.Initial(now) && Valid()
    {
      targetIp, targetPort, pairingCode := "", P.DEVICE_PORT, P.DEFAULT_PAIRING_CODE;
      isConnected, isDownloading := false, false;
      downloadStep, pageCount, pageSum := 0, 0, 0;
      binFileData, binFileName, lastCheckSum := [], "", 0;
      downloadFinish, resendArmed, pendingSettles := false, false, 0;
      clock, sent := now, [];
    }

    /** The wall clock moves on. */
    method SetClock(now: ClockTime)
      modifies this
      ensures Abs() == old(Abs()).(clock := now)
    {
      clock := now;
    }

    /** `socket.send(packet, port, ip)`. */
    method SocketSend(ip: string, port: int, packet: seq<Byte>)
      modifies this
      ensures Abs() == P.SendTo(old(Abs()), ip, port, packet)
    {
      sent := sent + [P.Datagram(ip, port, packet)];
    }

    method SendPairingCodePacket(ip: string, port: int, code: int)
      modifies this
      ensures Abs() == P.SendTo(old(Abs()), ip, port, PairingCodePacket(code))
    {
      var packet := new Byte[10];
      packet[0], packet[1], packet[2], packet[3] := MAGIC_0, MAGIC_1, 0, 10;
      packet[4], packet[5] := PairingCmd.cmd1, PairingCmd.cmd2;
      packet[6], packet[7], packet[8] := ToByte(Shr16(code)), ToByte(Shr8(code)), ToByte(code);
      packet[9] := TERMINATOR;
      assert packet[..] == PairingCodePacket(code);
      SocketSend(ip, port, packet[..]);
    }

    method SendEsp8266Shakehand(ip: string, port: int, code: int, thirdOctet: int)
      modifies this
      ensures Abs() == P.SendTo(old(Abs()), ip, port, ShakehandPacket(code, thirdOctet))
    {
      var packet := new Byte[14];
      packet[0], packet[1], packet[2], packet[3] := MAGIC_0, MAGIC_1, 0, 14;
      packet[4], packet[5] := ShakehandCmd.cmd1, ShakehandCmd.cmd2;
      packet[6], packet[7], packet[8] := ToByte(Shr16(code)), ToByte(Shr8(code)), ToByte(code);
      packet[9], packet[10], packet[11], packet[12] := 192, 168, ToByte(thirdOctet), 1;
      packet[13] := TERMINATOR;
      assert packet[..] == ShakehandPacket(code, thirdOctet);
      SocketSend(ip, port, packet[..]);
    }

    /** `connect(ip, code)` up to the socket being bound; `thirdOctet` is
        the parsed third part of `ip`. */
    method Connect(ip: string, code: int, thirdOctet: int)
      requires Valid()
      modifies this
      ensures Abs() == P.Connect(old(Abs()), ip, code, thirdOctet) && Valid()
    {
      targetIp := ip;
      pairingCode := code;
      SendPairingCodePacket(ip, targetPort, pairingCode);
      SendEsp8266Shakehand(ip, targetPort, pairingCode, thirdOctet);
    }

    method Send(data: seq<Byte>)
      modifies this
      ensures Abs() == P.Send(old(Abs()), data)
    {
      var packet := BuildFrame(DownloadCmd, CodePrefix(pairingCode) + data);
      SocketSend(targetIp, targetPort, packet);
    }

    method SendDataPacket(data: seq<Byte>)
      modifies this
      ensures Abs() == P.SendDataPacket(old(Abs()), data)
    {
      var packet := BuildFrame(DataCmd, CodePrefix(pairingCode) + data);
      SocketSend(targetIp, targetPort, packet);
    }

    method WiFiDownloadToUserSpace()
      modifies this
      ensures Abs() == P.Send(old(Abs()), UserSpaceFrame())
    {
      Send(UserSpaceFrame());
    }

    method GetRcuType()
      modifies this
      ensures Abs() == P.Send(old(Abs()), RcuTypeFrame())
    {
      Send(RcuTypeFrame());
    }

    method SetFileName(fileName: string)
      modifies this
      ensures Abs() == P.Send(old(Abs()), FileNameFrame(fileName))
    {
      var field := NameField(fileName);
      var checksum := AddBytes(7, field);
      Send([HEAD_0, HEAD_1, 7] + field + [ToByte(checksum), TAIL]);
    }

    method SetFileDate()
      modifies this
      ensures Abs() == P.Send(old(Abs()), FileDateFrame(clock))
    {
      Send(FileDateFrame(clock));
    }

    method SetPageSize(size: int)
      modifies this
      ensures Abs() == P.Send(old(Abs()), PageSizeFrame(size))
    {
      Send(PageSizeFrame(size));
    }

    method SetPageSum(sum: int)
      modifies this
      ensures Abs() == P.Send(old(Abs()), PageSumFrame(sum))
    {
      Send(PageSumFrame(sum));
    }

    method SetStartDownloadV1()
      modifies this
      ensures Abs() == P.Send(old(Abs()), StartDownloadFrame())
    {
      Send(StartDownloadFrame());
    }

    method SendFileDataV1(pageIndex: nat)
      requires P.PagesMatch(Abs())
      modifies this
      ensures Abs() == P.SendFileData(old(Abs()), pageIndex)
    {
      if pageIndex >= pageSum {
        downloadFinish := true;
        return;
      }
      var page := BuildPage(binFileData, pageIndex, pageSum);
      var checksum := AddBytes(0, page);
      lastCheckSum := ToByte(checksum);
      var frame := BuildPageFrame(pageIndex, page, checksum);
      SendDataPacket(frame);
    }

    method DownloadComplete()
      modifies this
      ensures Abs() == P.DownloadComplete(old(Abs()))
    {
      resendArmed, isDownloading, downloadFinish, downloadStep := false, false, false, 0;
    }

    method DownloadStepV1()
      requires Valid()
      modifies this
      ensures Abs() == P.DownloadStep(old(Abs())) && Valid()
    {
      resendArmed := false;
      StepAction();
      if downloadStep < P.DATA_STEP {
        resendArmed := true;
      }
      if downloadFinish {
        DownloadComplete();
      }
    }

    /** The branch of `downloadStep_V1` that acts for the current step. */
    method StepAction()
      requires Valid()
      modifies this
      ensures Abs() == P.StepAction(old(Abs()))
    {
      if downloadStep == 0 {
        GetRcuType();
      } else if downloadStep == 1 {
        SetFileName(binFileName);
      } else if downloadStep == 2 {
        SetFileDate();
      } else if downloadStep == 3 {
        SetPageSize(PAGE_SIZE);
      } else if downloadStep == 4 {
        SetPageSum(pageSum);
      } else if downloadStep == 5 {
        SetStartDownloadV1();
      } else if downloadStep == P.DATA_STEP {
        SendFileDataV1(pageCount);
      }
    }

    /** `parseDownload_V1(data)`; a byte read past the end is `undefined`
        and equals nothing. */
    method ParseDownloadV1(data: seq<Byte>)
      requires Valid()
      modifies this
      ensures Abs() == P.ParseDownloadV1(old(Abs()), data) && Valid()
    {
      ghost var s0 := Abs();
      if |data| < 2 {
        return;
      }
      if data[0] == HEAD_0 && data[1] == HEAD_1 && |data| >= 3 {
        var cmd := data[2];
        if cmd == 3 {
          downloadStep := downloadStep + 1;
          P.StepInputRunsStep(s0, data, Abs());
          DownloadStepV1();
        } else if cmd == 5 && |data| >= 4 {
          var status := data[3];
          if status == 1 {
            downloadStep := downloadStep + 1;
            P.StepInputRunsStep(s0, data, Abs());
            DownloadStepV1();
          } else if status == 3 {
            if downloadStep == 5 {
              downloadStep := P.DATA_STEP;
              pendingSettles := pendingSettles + 1;
              return;
            }
            P.StepInputRunsStep(s0, data, Abs());
            DownloadStepV1();
          } else if status == 4 {
            if |data| >= 5 && data[4] == lastCheckSum {
              pageCount := pageCount + 1;
            }
            P.StepInputRunsStep(s0, data, Abs());
            DownloadStepV1();
          }
        }
      }
    }

    /** `parseDownloadPacket(data)` and `parseScratchCmdPacket(data)`, whose
        bodies are the same: check the pairing code, pass on the rest. */
    method ParseReply(data: seq<Byte>)
      requires Valid()
      modifies this
      ensures Abs() == P.ParseReply(old(Abs()), data) && Valid()
    {
      if |data| < 3 {
        return;
      }
      var receivedCode := (data[0] as int) * 0x1_0000 + (data[1] as int) * 0x100 + data[2];
      if pairingCode != receivedCode {
        return;
      }
      ParseDownloadV1(data[3..]);
    }

    method ParseUdpPacket(srcIp: string, srcPort: int, data: seq<Byte>)
      requires Valid()
      modifies this
      ensures Abs() == P.ParseUdpPacket(old(Abs()), srcIp, srcPort, data) && Valid()
    {
      if |data| < OVERHEAD {
        return;
      }
      var packetLength := (data[2] as int) * 0x100 + data[3];
      if data[0] == MAGIC_0 && data[1] == MAGIC_1 && packetLength == |data| && data[|data| - 1] == TERMINATOR {
        var cmd := CommandPair(data[4], data[5]);
        var payload := data[6..|data| - 1];
        if cmd == PairingReplyCmd || cmd == ShakehandReplyCmd {
          if ReadBE24(payload) == Some(pairingCode) {
            targetIp := srcIp;
            targetPort := srcPort;
            isConnected := true;
          }
        }
        if cmd == DownloadReplyCmd && isDownloading {
          ParseReply(payload);
        }
        if cmd == CommandReplyCmd && isDownloading {
          ParseReply(payload);
        }
      }
    }

    /** `startDownload(path)`, given the file's contents (`None` when it
        does not exist) and its base name. */
    method StartDownload(file: Option<seq<Byte>>, fileName: string) returns (error: Option<P.UploadError>)
      requires Valid()
      modifies this
      ensures var r := P.StartDownload(old(Abs()), file, fileName);
        if r.Ok? then error.None? && Abs() == r.value && Valid()
        else error == Some(r.error) && Abs() == old(Abs())
    {
      if !isConnected {
        return Some(P.NotConnected);
      }
      if file.None? {
        return Some(P.FileMissing);
      }
      BeginDownload(file.value, fileName);
      error := None;
    }

    method BeginDownload(image: seq<Byte>, fileName: string)
      requires Valid()
      modifies this
      ensures Abs() == P.BeginDownload(old(Abs()), image, fileName) && Valid()
    {
      ResetDownload(image, fileName);
      ghost var s1 := Abs();
      WiFiDownloadToUserSpace();
      WiFiDownloadToUserSpace();
      assert Abs() == P.Send(P.Send(s1, UserSpaceFrame()), UserSpaceFrame());
      DownloadStepV1();
    }

    /** The field resets at the head of `startDownload`. */
    method ResetDownload(image: seq<Byte>, fileName: string)
      modifies this
      ensures Abs() == old(Abs()).(image := image, fileName := fileName, isDownloading := true,
                                   downloadFinish := false, downloadStep := 0, pageCount := 0,
                                   pageSum := PageTotal(|image|))
    {
      LoadImage(image, fileName);
      ResetProgress();
    }

    method LoadImage(image: seq<Byte>, fileName: string)
      modifies this
      ensures Abs() == old(Abs()).(image := image, fileName := fileName, pageSum := PageTotal(|image|))
    {
      binFileData, binFileName, pageSum := image, fileName, PageTotal(|image|);
    }

    method ResetProgress()
      modifies this
      ensures Abs() == old(Abs()).(isDownloading := true, downloadFinish := false, downloadStep := 0, pageCount := 0)
    {
      isDownloading, downloadFinish, downloadStep, pageCount := true, false, 0, 0;
    }

    /** The resend timer fires, if one is pending. */
    method ResendTimerFires()
      requires Valid()
      modifies this
      ensures Abs() == P.ResendTimerFires(old(Abs())) && Valid()
    {
      if resendArmed {
        DownloadStepV1();
      }
    }

    /** One pending settle timer fires. */
    method SettleTimerFires()
      requires Valid()
      modifies this
      ensures Abs() == P.SettleTimerFires(old(Abs())) && Valid()
    {
      if pendingSettles > 0 {
        pendingSettles := pendingSettles - 1;
        DownloadStepV1();
      }
    }

    method Close()
      modifies this
      ensures Abs() == P.Close(old(Abs()))
    {
      resendArmed := false;
    }
  }

}
