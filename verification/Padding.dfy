/**
 CAN-FD only has some frame lengths: both transports round a frame up and fill it with
 the no-op byte (`RoundUpDlc`, `SendCanPacketSpi`). The receiver decodes the same thing.
*/
module Padding {
  import opened Bytes
  import opened Registers
  import opened Numbers
  import opened Query
  import opened QueryFrame
  import opened Commands

  predicate IsFrameLength(n: nat) {
    n <= 8 || n in {12, 16, 20, 24, 32, 48, 64}
  }

  /** The serial transport's version. */
  function RoundUpDlc(size: nat): nat {
    if size <= 8 then size
    else if size <= 12 then 12
    else if size <= 16 then 16
    else if size <= 20 then 20
    else if size <= 24 then 24
    else if size <= 32 then 32
    else if size <= 48 then 48
    else if size <= 64 then 64
    else size
  }

  /** The pi3hat's version. */
  function RoundUpDlcPi3(size: nat): nat {
    if size <= 8 then size
    else if size <= 12 then 12
    else if size <= 16 then 16
    else if size <= 20 then 20
    else if size <= 24 then 24
    else if size <= 32 then 32
    else if size <= 48 then 48
    else if size <= 64 then 64
    else 0
  }

  /** The least frame length that holds the data; beyond 64 the two versions part. */
  lemma RoundsUpToLeast(size: nat)
    ensures size <= 64 ==>
      && IsFrameLength(RoundUpDlc(size)) && size <= RoundUpDlc(size)
      && forall n: nat | IsFrameLength(n) && size <= n :: RoundUpDlc(size) <= n
    ensures RoundUpDlc(size) == RoundUpDlcPi3(size) <==> size <= 64
  {
  }

  lemma RoundUpIdempotentMonotone(a: nat, b: nat)
    requires a <= b <= 64
    ensures RoundUpDlc(RoundUpDlc(a)) == RoundUpDlc(a) <= RoundUpDlc(b)
  {
  }

  function Nops(n: nat): (bs: seq<byte>)
    ensures |bs| == n && forall k | 0 <= k < n :: bs[k] == NOP
  {
    seq(n, _ => NOP)
  }

  lemma {:induction false} NopsDecode(accept: set<Kind>, n: nat)
    ensures Decode(accept, Nops(n)) == []
  {
    if n > 0 {
      assert Nops(n)[1..] == Nops(n - 1);
      NopsDecode(accept, n - 1);
    }
  }

  /** The frame as it goes out. */
  function Padded(bytes: seq<byte>): seq<byte>
    requires |bytes| <= 64
  {
    bytes + Nops(RoundUpDlc(|bytes|) - |bytes|)
  }

  /**
   A whole motor command on the bus: whatever padding the transport adds, the device
   sees the mode, one write per field that is not ignored, and then exactly the
   registers of the query.
  */
  lemma FrameDecodes(mode: byte, start: uint16, fields: seq<Field>, float: FloatBytes, query: Format)
    requires |fields| < 256 && start + |fields| <= REGISTERS
    requires |query.extra| <= MAX_EXTRA && Acceptable(Extra(query))
    requires |CommandBytes(mode, start, fields, float) + QueryBytes(query)| <= 64
    ensures Decode({Write, Read}, Padded(CommandBytes(mode, start, fields, float) + QueryBytes(query)))
         == [Item(Write, 0, Int8, [mode])] + Writes(start, fields, float, 0) + Listed(Fields(query))
           + Listed(Named(Extra(query)))
  {
    hide Decode, CommandBytes, QueryBytes, Writes, Listed, Fields, Nops, RoundUpDlc, Named, Extra;
    var accept := {Write, Read};
    var command, asked := CommandBytes(mode, start, fields, float), QueryBytes(query);
    RoundsUpToLeast(|command + asked|);
    var fill := Nops(RoundUpDlc(|command + asked|) - |command + asked|);
    NopsDecode(accept, RoundUpDlc(|command + asked|) - |command + asked|);
    QueryNames(query, fill);
    CommandDecodes(accept, mode, start, fields, float, asked + fill);
    assert Padded(command + asked) == command + (asked + fill);
    var front, asks, extra :=
      [Item(Write, 0, Int8, [mode])]
        + Writes(start, fields, float, 0), Listed(Fields(query)), Listed(Named(Extra(query)));
    assert front + (asks + extra + []) == front + asks + extra;
  }

  // ------------------------------------------------------------- the pi3hat's packet

  type uint32 = n: int | 0 <= n < 0x1_0000_0000

  /** The byte that `id >> shift` leaves in the low eight bits. */
  function IdByte(id: uint32, power: int): byte
    requires power > 0
  {
    id / power % 0x100
  }

  function IdBytes(id: uint32): seq<byte> {
    if id <= 0xffff then [IdByte(id, 0x100), IdByte(id, 1)]
    else [IdByte(id, 0x100_0000), IdByte(id, 0x1_0000), IdByte(id, 0x100), IdByte(id, 1)]
  }

  function LengthByte(secondBus: bool, size: nat): byte
    requires size < 128
  {
    (if secondBus then 0x80 else 0x00) + size
  }

  /** The bus and length, the CAN identifier, most significant byte first, and the padded data. */
  function Packet(secondBus: bool, id: uint32, data: seq<byte>): seq<byte>
    requires |data| <= 64
  {
    RoundsUpToLeast(|data|);
    [LengthByte(secondBus, RoundUpDlcPi3(|data|))] + IdBytes(id) + Padded(data)
  }

  lemma PacketIs(secondBus: bool, id: uint32, data: seq<byte>)
    requires |data| <= 64
    ensures var size := RoundUpDlcPi3(|data|);
      && |data| <= size <= 64
      && Packet(secondBus, id, data) == [LengthByte(secondBus, size)] + IdBytes(id) + data + Nops(size - |data|)
  {
    hide RoundUpDlc, RoundUpDlcPi3, IsFrameLength, IdBytes, LengthByte, Nops;
    RoundsUpToLeast(|data|);
    FrameLengthAtMost64(RoundUpDlc(|data|));
  }

  /** The bytes of an identifier, most significant first. */
  lemma IdentifierBytes(id: uint32)
    ensures var b := IdBytes(id);
      if id < 0x1_0000 then |b| == 2 && id == 0x100 * b[0] as int + b[1]
      else |b| == 4 && id == 0x100_0000 * b[0] as int + 0x1_0000 * b[1] as int + 0x100 * b[2] as int + b[3]
  {
    hide IdByte;
    OneByte(id, 1, 0x100);
    OneByte(id, 0x100, 0x1_0000);
    OneByte(id, 0x1_0000, 0x100_0000);
    OneByte(id, 0x100_0000, 0x1_0000_0000);
  }

  lemma OneByte(id: uint32, power: int, next: int)
    requires (power, next) in {(1, 0x100), (0x100, 0x1_0000), (0x1_0000, 0x100_0000), (0x100_0000, 0x1_0000_0000)}
    ensures power * IdByte(id, power) as int == power * (id / power) - next * (id / next)
  {
    if power == 1 {
    } else if power == 0x100 {
      assert id / 0x1_0000 == id / 0x100 / 0x100;
    } else if power == 0x1_0000 {
      assert id / 0x100_0000 == id / 0x1_0000 / 0x100;
    } else {
      assert id / 0x1_0000_0000 == id / 0x100_0000 / 0x100;
    }
  }

  /** The processor reads from a packet its bus and padded length, the identifier, and the data with its padding. */
  lemma PacketBytes(secondBus: bool, id: uint32, data: seq<byte>)
    requires |data| <= 64
    ensures var packet, size := Packet(secondBus, id, data), RoundUpDlcPi3(|data|);
      var header := if id < 0x1_0000 then 3 else 5;
      && |packet| == header + size && |data| <= size
      && packet[0] == size + (if secondBus then 0x80 else 0)
      && id == (if id < 0x1_0000 then 0x100 * packet[1] as int + packet[2]
                else 0x100_0000 * packet[1] as int + 0x1_0000 * packet[2] as int + 0x100 * packet[3] as int + packet[4])
      && packet[header..header + |data|] == data
      && forall k | header + |data| <= k < |packet| :: packet[k] == 0x50
  {
    hide RoundUpDlcPi3, Packet, IdBytes;
    PacketIs(secondBus, id, data);
    IdentifierBytes(id);
  }

  method FillPacket(secondBus: bool, id: uint32, data: seq<byte>) returns (address: byte, packet: seq<byte>)
    requires |data| <= 64
    ensures address == if id <= 0xffff then 5 else 4
    ensures packet == Packet(secondBus, id, data)
  {
    hide RoundUpDlcPi3, Packet, IdBytes, LengthByte, Nops;
    PacketIs(secondBus, id, data);
    var size := RoundUpDlcPi3(|data|);
    var buf := new byte[70](_ => 0);
    var header;
    address, header := FillHeader(buf, secondBus, id, size);
    CopyIn(buf, header, data);
    FillNops(buf, header + |data|, header + size);
    packet := buf[..header + size];
  }

  method CopyIn(buf: array<byte>, at: nat, data: seq<byte>)
    requires at + |data| <= buf.Length
    modifies buf
    ensures buf[..at + |data|] == old(buf[..at]) + data
  {
    forall k | 0 <= k < |data| {
      buf[at + k] := data[k];
    }
  }

  method FillNops(buf: array<byte>, from: nat, to: nat)
    requires from <= to <= buf.Length
    modifies buf
    ensures buf[..to] == old(buf[..from]) + Nops(to - from)
  {
    for i := from to to
      invariant forall k | 0 <= k < from :: buf[k] == old(buf[k])
      invariant forall k | from <= k < i :: buf[k] == NOP
    {
      buf[i] := NOP;
    }
  }

  method FillHeader(buf: array<byte>, secondBus: bool, id: uint32, size: nat) returns (address: byte, header: nat)
    requires buf.Length == 70 && size <= 64
    modifies buf
    ensures address == if id <= 0xffff then 5 else 4
    ensures header <= 5 && buf[..header] == [LengthByte(secondBus, size)] + IdBytes(id)
  {
    hide IdByte, LengthByte;
    buf[0] := LengthByte(secondBus, size);
    if id <= 0xffff {
      address, header := 5, 3;
      buf[1], buf[2] := IdByte(id, 0x100), IdByte(id, 1);
    } else {
      address, header := 4, 5;
      buf[1], buf[2], buf[3], buf[4] := IdByte(id, 0x100_0000), IdByte(id, 0x1_0000), IdByte(id, 0x100), IdByte(id, 1);
    }
  }

  lemma FrameLengthAtMost64(n: nat)
    requires IsFrameLength(n)
    ensures n <= 64
  {
  }
}
