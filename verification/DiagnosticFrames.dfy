/**
 The frames of the tunnelled diagnostic stream (`DiagnosticWrite`, `DiagnosticRead`,
 `DiagnosticResponse`, `DiagnosticReadFlow`, `DiagnosticFlowResponse`).
*/
module DiagnosticFrames {
  import opened Bytes
  import opened Registers
  import opened Parser

  const CLIENT_TO_SERVER: byte := 0x40
  const SERVER_TO_CLIENT: byte := 0x41
  const SERVER_TO_CLIENT_FLOW: byte := 0x43
  const CLIENT_POLL_SERVER_FLOW: byte := 0x44

  const CHUNK: nat := 48

  function WriteFrame(channel: byte, data: seq<byte>): seq<byte>
    requires |data| <= CHUNK
  {
    [CLIENT_TO_SERVER, channel, |data|] + data
  }

  function PollFlowFrame(channel: byte, number: byte, limit: byte): seq<byte> {
    [CLIENT_POLL_SERVER_FLOW, channel, number, limit]
  }

  /** What a device is told: which packet was accepted last, and how much it may send. */
  datatype Poll = Poll(channel: byte, number: byte, limit: byte)

  /** A device reads a poll by its bytes. */
  function PollOf(frame: seq<byte>): Option<Poll> {
    if |frame| >= 4 && frame[0] == 0x44 then Some(Poll(frame[1], frame[2], frame[3])) else None
  }

  lemma PollBack(channel: byte, number: byte, limit: byte, tail: seq<byte>)
    ensures PollOf(PollFlowFrame(channel, number, limit) + tail) == Some(Poll(channel, number, limit))
  {
  }

  datatype Input = Input(channel: byte, data: seq<byte>)

  /** And what is written to it: channel, length, and as many bytes, whatever follows. */
  function InputOf(frame: seq<byte>): Option<Input> {
    if |frame| >= 3 && frame[0] == 0x40 && |frame| - 3 >= frame[2] as int then
      Some(Input(frame[1], frame[3..3 + frame[2]]))
    else None
  }

  lemma InputBack(channel: byte, data: seq<byte>, tail: seq<byte>)
    requires |data| <= CHUNK
    ensures InputOf(WriteFrame(channel, data) + tail) == Some(Input(channel, data))
  {
    assert (WriteFrame(channel, data) + tail)[3..3 + |data|] == data;
  }

  /** A device's answers. */
  function PlainFrame(channel: byte, data: seq<byte>): seq<byte> {
    [SERVER_TO_CLIENT, channel] + Varuint(|data|) + data
  }

  function FlowFrame(channel: byte, number: byte, data: seq<byte>): seq<byte> {
    [SERVER_TO_CLIENT_FLOW, channel, number] + Varuint(|data|) + data
  }

  /** Their bytes. */
  lemma AnswerBytes(channel: byte, number: byte, data: seq<byte>)
    requires |data| < 128
    ensures PlainFrame(channel, data) == [0x41, channel, |data|] + data
    ensures FlowFrame(channel, number, data) == [0x43, channel, number, |data|] + data
  {
    assert Varuint(|data|) == [|data|];
  }

  /** A channel of -1 means that the frame is no answer. */
  datatype Response = Response(channel: int8, number: byte, data: seq<byte>)

  function Channel(b: byte): int8 {
    Wrap8(b)
  }

  /** What the flow-control reader makes of a frame. When the data is cut short, channel and number still count. */
  function FlowOf(bs: seq<byte>): Response {
    if |bs| < 4 || bs[0] != SERVER_TO_CLIENT_FLOW then Response(-1, 0, [])
    else
      var (value, rest) := ReadVaruint(bs[3..], VARUINT_LIMIT);
      var size := value % REGISTERS;
      Response(Channel(bs[1]), bs[2], if |rest| < size then [] else rest[..size])
  }

  /** What the plain reader makes of a frame. When the data is cut short, the frame is no answer. */
  function PlainOf(bs: seq<byte>): Response {
    if |bs| < 3 || bs[0] != SERVER_TO_CLIENT then Response(-1, 0, [])
    else
      var (value, rest) := ReadVaruint(bs[2..], VARUINT_LIMIT);
      var size := value % REGISTERS;
      if |rest| < size then Response(-1, 0, []) else Response(Channel(bs[1]), 0, rest[..size])
  }

  method ParseFlow(frame: seq<byte>) returns (r: Response)
    ensures r == FlowOf(frame)
  {
    hide ReadVaruint;
    r := Response(-1, 0, []);
    if |frame| < 4 {
      return;
    }
    var parser := new MultiplexParser(frame);
    var action := parser.ReadByte();
    if action != SERVER_TO_CLIENT_FLOW {
      return;
    }
    var channel := parser.ReadByte();
    var number := parser.ReadByte();
    r := r.(channel := Channel(channel), number := number);
    var size := parser.ReadVaruint16();
    if |frame| - parser.offset < size {
      return;
    }
    r := r.(data := frame[parser.offset..][..size]);
  }

  method ParsePlain(frame: seq<byte>) returns (r: Response)
    ensures r == PlainOf(frame)
  {
    hide ReadVaruint;
    r := Response(-1, 0, []);
    if |frame| < 3 {
      return;
    }
    var parser := new MultiplexParser(frame);
    var action := parser.ReadByte();
    if action != SERVER_TO_CLIENT {
      return;
    }
    var channel := parser.ReadByte();
    var size := parser.ReadVaruint16();
    if |frame| - parser.offset < size {
      return;
    }
    r := Response(Channel(channel), 0, frame[parser.offset..][..size]);
  }

  lemma SizeBack(data: seq<byte>, tail: seq<byte>)
    requires |data| <= 64
    ensures ReadVaruint(Varuint(|data|) + data + tail, VARUINT_LIMIT) == (|data|, data + tail)
  {
    assert Pow128(5) > 64 by {
      assert Pow128(1) == 128 && Pow128(2) == 0x4000;
    }
    VaruintRoundTrip(|data|, VARUINT_LIMIT, data + tail);
    assert Varuint(|data|) + data + tail == Varuint(|data|) + (data + tail);
  }

  /** A device's answer is read back, whatever padding follows it. */
  lemma AnswerBack(channel: byte, number: byte, data: seq<byte>, tail: seq<byte>)
    requires channel < 128 && |data| <= 60
    ensures FlowOf(FlowFrame(channel, number, data) + tail) == Response(channel, number, data)
    ensures PlainOf(PlainFrame(channel, data) + tail) == Response(channel, 0, data)
    ensures PlainOf(FlowFrame(channel, number, data) + tail).channel == -1
    ensures FlowOf(PlainFrame(channel, data) + tail).channel == -1
  {
    hide FlowOf, PlainOf;
    FlowBack(channel, number, data, tail);
    PlainBack(channel, data, tail);
  }

  lemma FlowBack(channel: byte, number: byte, data: seq<byte>, tail: seq<byte>)
    requires channel < 128 && |data| <= 60
    ensures FlowOf(FlowFrame(channel, number, data) + tail) == Response(channel, number, data)
    ensures PlainOf(FlowFrame(channel, number, data) + tail).channel == -1
  {
    hide ReadVaruint, Varuint;
    SizeBack(data, tail);
    var frame := FlowFrame(channel, number, data) + tail;
    assert frame[3..] == Varuint(|data|) + data + tail && (data + tail)[..|data|] == data;
  }

  lemma PlainBack(channel: byte, data: seq<byte>, tail: seq<byte>)
    requires channel < 128 && |data| <= 60
    ensures PlainOf(PlainFrame(channel, data) + tail) == Response(channel, 0, data)
    ensures FlowOf(PlainFrame(channel, data) + tail).channel == -1
  {
    hide ReadVaruint, Varuint;
    SizeBack(data, tail);
    var frame := PlainFrame(channel, data) + tail;
    assert frame[2..] == Varuint(|data|) + data + tail && (data + tail)[..|data|] == data;
  }
}
