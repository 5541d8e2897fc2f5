/** The outer UDP frame exchanged with the device: magic 0x78 0xCD, a
    big-endian 16-bit total length, a command pair, the payload and the
    terminator 0xBE (src/upload-wifi.mjs). */
module Transport {
  import opened Wrappers
  import opened Bytes

  const MAGIC_0: Byte := 0x78
  const MAGIC_1: Byte := 0xCD
  const TERMINATOR: Byte := 0xBE
  /** Magic (2), length (2), command pair (2) and terminator (1). */
  const OVERHEAD: nat := 7
  /** A 16-bit length field cannot describe a frame this long or longer. */
  const MAX_FRAME: nat := 0x1_0000

  datatype CommandPair = CommandPair(cmd1: Byte, cmd2: Byte)

  /** `send`: configuration commands to the device. */
  const DownloadCmd := CommandPair(0xEE, 0xFF)
  /** `sendDataPacket`: image pages to the device. */
  const DataCmd := CommandPair(0xAA, 0x03)
  /** `sendPairingCodePacket`. */
  const PairingCmd := CommandPair(0xCC, 0xDD)
  /** `sendEsp8266Shakehand`. */
  const ShakehandCmd := CommandPair(0xAA, 0x01)
  /** Replies from the device. */
  const PairingReplyCmd := CommandPair(221, 204)
  const ShakehandReplyCmd := CommandPair(1, 170)
  const DownloadReplyCmd := CommandPair(3, 170)
  const CommandReplyCmd := CommandPair(255, 238)

  /** A frame that passed the validity test. */
  datatype Packet = Packet(cmd: CommandPair, payload: seq<Byte>)

  /** The bytes `buildDownloadPacket` and `sendDataPacket` produce: the
      length field is `(length >> 8) & 0xFF`, `length & 0xFF`. */
  function Frame(cmd: CommandPair, payload: seq<Byte>): (f: seq<Byte>)
    ensures |f| == |payload| + OVERHEAD
    ensures f[6..|f| - 1] == payload
  {
    var n := |payload| + OVERHEAD;
    [MAGIC_0, MAGIC_1, ToByte(Shr8(n)), ToByte(n), cmd.cmd1, cmd.cmd2] + payload + [TERMINATOR]
  }

  /** The validity test and field split of `parseUDPPacket`: at least 7
      bytes, the magic, a length field equal to the datagram's length and
      the terminator; otherwise the datagram is dropped. */
  function Decode(data: seq<Byte>): (r: Option<Packet>)
    ensures r.Some? <==> && |data| >= OVERHEAD && data[0] == MAGIC_0 && data[1] == MAGIC_1
                         && (data[2] as int) * 0x100 + data[3] == |data|
                         && data[|data| - 1] == TERMINATOR
    ensures r.Some? ==> |r.value.payload| + OVERHEAD == |data|
    ensures r.Some? ==> r.value.cmd == CommandPair(data[4], data[5])
  {
    if |data| < OVERHEAD then None
    else if data[0] == MAGIC_0 && data[1] == MAGIC_1
         && (data[2] as int) * 0x100 + data[3] == |data|
         && data[|data| - 1] == TERMINATOR
    then Some(Packet(CommandPair(data[4], data[5]), data[6..|data| - 1]))
    else None
  }

  /** Round trip: an encoded frame is accepted exactly when its length fits
      the 16-bit field, and then decodes to the command pair and payload. */
  lemma DecodeFrame(cmd: CommandPair, payload: seq<Byte>)
    ensures Decode(Frame(cmd, payload)).Some? <==> |payload| + OVERHEAD < MAX_FRAME
    ensures |payload| + OVERHEAD < MAX_FRAME ==> Decode(Frame(cmd, payload)) == Some(Packet(cmd, payload))
  {
    var f, n := Frame(cmd, payload), |payload| + OVERHEAD;
    var hi := (ToInt32(n) / 0x100) % 0x100;
    assert f[2] == hi && f[3] == n % 0x100;
    if n < MAX_FRAME {
      assert ToInt32(n) == n;
      assert hi == n / 0x100;
      assert (f[2] as int) * 0x100 + f[3] == n;
    } else {
      assert (f[2] as int) * 0x100 + f[3] < MAX_FRAME;
    }
  }

  /** Round trip the other way: an accepted datagram is exactly the frame
      built from its command pair and payload. */
  lemma FrameOfDecoded(data: seq<Byte>)
    requires Decode(data).Some?
    ensures Frame(Decode(data).value.cmd, Decode(data).value.payload) == data
  {
    var p, n := Decode(data).value, |data|;
    assert ToInt32(n) == n;
    assert n / 0x100 == data[2];
    var f := Frame(p.cmd, p.payload);
    assert |f| == n;
    forall k | 0 <= k < n ensures f[k] == data[k] {
      if 6 <= k < n - 1 {
        assert f[k] == f[6..n - 1][k - 6];
      }
    }
  }

  /** `buildDownloadPacket` / the frame of `sendDataPacket`: allocate
      `length + 7` bytes and fill them in order. */
  method BuildFrame(cmd: CommandPair, payload: seq<Byte>) returns (f: seq<Byte>)
    ensures f == Frame(cmd, payload)
  {
    var packet := new Byte[|payload| + OVERHEAD];
    packet[0] := MAGIC_0;
    packet[1] := MAGIC_1;
    packet[2] := ToByte(Shr8(packet.Length));
    packet[3] := ToByte(packet.Length);
    packet[4] := cmd.cmd1;
    packet[5] := cmd.cmd2;
    for i := 0 to |payload|
      invariant packet[..6] == Frame(cmd, payload)[..6]
      invariant forall k :: 0 <= k < i ==> packet[6 + k] == payload[k]
    {
      packet[6 + i] := payload[i];
    }
    packet[packet.Length - 1] := TERMINATOR;
    f := packet[..];
    ghost var g := Frame(cmd, payload);
    forall k | 0 <= k < |g| ensures f[k] == g[k] {
      if k < 6 {
        assert f[k] == packet[..6][k];
      } else if k < |g| - 1 {
        assert g[k] == g[6..|g| - 1][k - 6];
      }
    }
  }

  /** `sendPairingCodePacket`: ten literal-length bytes. */
  function PairingCodePacket(code: int): (p: seq<Byte>)
    ensures |p| == 10 && (p[2] as int) * 0x100 + p[3] == |p|
    ensures p[4..6] == [PairingCmd.cmd1, PairingCmd.cmd2] && p[6..9] == CodePrefix(code)
  {
    [120, 205, 0, 10, 204, 221, ToByte(Shr16(code)), ToByte(Shr8(code)), ToByte(code), 190]
  }

  /** `sendEsp8266Shakehand`: the code followed by a guessed local address
      192.168.<third octet of the target>.1. */
  function ShakehandPacket(code: int, thirdOctet: int): (p: seq<Byte>)
    ensures |p| == 14 && (p[2] as int) * 0x100 + p[3] == |p|
    ensures p[4..6] == [ShakehandCmd.cmd1, ShakehandCmd.cmd2] && p[6..9] == CodePrefix(code)
    ensures p[9..13] == [192, 168, ToByte(thirdOctet), 1]
  {
    [120, 205, 0, 14, 170, 1, ToByte(Shr16(code)), ToByte(Shr8(code)), ToByte(code),
     192, 168, ToByte(thirdOctet), 1, 190]
  }

  /** The hand-filled pairing packets are well-formed outer frames: their
      literal length bytes agree with the frame's length. */
  lemma PairingPacketsAreFrames(code: int, thirdOctet: int)
    ensures PairingCodePacket(code) == Frame(PairingCmd, CodePrefix(code))
    ensures ShakehandPacket(code, thirdOctet)
            == Frame(ShakehandCmd, CodePrefix(code) + [192, 168, ToByte(thirdOctet), 1])
    ensures Decode(PairingCodePacket(code)) == Some(Packet(PairingCmd, CodePrefix(code)))
  {
    assert ToInt32(10) == 10 && ToInt32(14) == 14;
    DecodeFrame(PairingCmd, CodePrefix(code));
  }
}
