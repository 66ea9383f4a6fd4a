/**
 Flow-controlled diagnostic reads (`AsyncDiagnosticReadFlow`, `ProbeFlowControl`): each
 poll names the last packet that was accepted. Against a device that repeats its packet
 until it is named, over a link that only drops frames, nothing is lost, repeated or
 reordered.
*/
module Flow {
  import opened Bytes
  import opened DiagnosticFrames
  import Padding

  datatype BusFrame = BusFrame(source: nat, destination: nat, prefix: nat, data: seq<byte>)

  /** The device a controller talks to, and the address it talks from. */
  datatype Target = Target(id: nat, source: nat, prefix: nat)

  predicate IsFromTarget(target: Target, frame: BusFrame) {
    frame.source == target.id && frame.destination == target.source && frame.prefix == target.prefix
  }

  datatype Handled = Handled(ack: byte, data: seq<byte>, any: bool)

  /** One more frame in a list of replies. */
  function Handle(target: Target, h: Handled, frame: BusFrame): Handled {
    var r := FlowOf(frame.data);
    if IsFromTarget(target, frame) && r.channel >= 0 then Handled(r.number, h.data + r.data, true) else h
  }

  function HandleAll(target: Target, h: Handled, frames: seq<BusFrame>): Handled {
    if frames == [] then h else Handle(target, HandleAll(target, h, frames[..|frames| - 1]), frames[|frames| - 1])
  }

  /** A frame counts only if it comes from the target, goes to this controller and carries its prefix. */
  lemma StrangersAreIgnored(target: Target, h: Handled, frame: BusFrame)
    requires frame.source != target.id || frame.destination != target.source || frame.prefix != target.prefix
    ensures Handle(target, h, frame) == h
  {
    hide FlowOf;
  }

  // ------------------------------------------------------------- the controller

  class Controller {
    const target: Target
    /** `last_ack_packet_`, where a missing entry reads as zero. */
    var lastAck: map<int, byte>

    constructor (target: Target)
      ensures this.target == target && lastAck == map[]
    {
      this.target, lastAck := target, map[];
    }

    function Ack(channel: int): byte
      reads this
    {
      if channel in lastAck then lastAck[channel] else 0
    }

    /** The replies to one poll: the last accepted number is kept, and the data of all is joined. */
    method HandleReply(channel: byte, replies: seq<BusFrame>) returns (any: bool, data: seq<byte>)
      modifies this
      ensures Handled(Ack(channel), data, any) == HandleAll(target, Handled(old(Ack(channel)), [], false), replies)
      ensures forall c | c != channel :: Ack(c) == old(Ack(c))
    {
      hide FlowOf;
      any, data := false, [];
      ghost var start := Handled(Ack(channel), [], false);
      assert replies[..0] == [];
      for i := 0 to |replies|
        invariant Handled(Ack(channel), data, any) == HandleAll(target, start, replies[..i])
        invariant forall c | c != channel :: Ack(c) == old(Ack(c))
      {
        assert replies[..i + 1][..i] == replies[..i];
        if !IsFromTarget(target, replies[i]) {
          continue;
        }
        var r := ParseFlow(replies[i].data);
        if r.channel >= 0 {
          lastAck := lastAck[channel as int := r.number];
          data := data + r.data;
          any := true;
        }
      }
      assert replies[..|replies|] == replies;
    }

    /**
     Polls until something is accepted or the retries are used up. Every poll of the read, first or
     repeated, carries the number accepted before it.
    */
    method ReadFlow(channel: byte, retries: nat, replies: nat -> seq<BusFrame>)
      returns (response: Option<seq<byte>>, polls: seq<seq<byte>>)
      modifies this
      ensures 1 <= |polls| <= retries + 1
      ensures forall k | 0 <= k < |polls| :: polls[k] == PollFlowFrame(channel, old(Ack(channel)), 48)
      ensures forall k | 0 <= k < |polls| :: PollOf(polls[k]) == Some(Poll(channel, old(Ack(channel)), 48))
      ensures forall k | 0 <= k < |polls| - 1 ::
        !HandleAll(target, Handled(old(Ack(channel)), [], false), replies(k)).any
      ensures var last := HandleAll(target, Handled(old(Ack(channel)), [], false), replies(|polls| - 1));
        && Ack(channel) == last.ack
        && response == (if last.any then Some(last.data) else None)
        && (!last.any ==> |polls| == retries + 1)
    {
      hide Handle;
      polls := [];
      ghost var start := Handled(Ack(channel), [], false);
      var remaining := retries;
      while true
        invariant |polls| + remaining == retries && Ack(channel) == start.ack
        invariant forall k | 0 <= k < |polls| :: polls[k] == PollFlowFrame(channel, start.ack, 48)
        invariant forall k | 0 <= k < |polls| :: PollOf(polls[k]) == Some(Poll(channel, start.ack, 48))
        invariant forall k | 0 <= k < |polls| :: !HandleAll(target, start, replies(k)).any
        decreases remaining
      {
        var attempt := |polls|;
        PollBack(channel, Ack(channel), 48, []);
        assert PollFlowFrame(channel, Ack(channel), 48) + [] == PollFlowFrame(channel, Ack(channel), 48);
        polls := polls + [PollFlowFrame(channel, Ack(channel), 48)];
        var any, data := HandleReply(channel, replies(attempt));
        if any {
          return Some(data), polls;
        }
        NothingAccepted(target, start, replies(attempt));
        if remaining == 0 {
          return None, polls;
        }
        remaining := remaining - 1;
      }
    }
  }

  lemma {:induction false} NothingAccepted(target: Target, h: Handled, frames: seq<BusFrame>)
    ensures !HandleAll(target, h, frames).any ==> HandleAll(target, h, frames) == h
    decreases |frames|
  {
    if frames != [] {
      NothingAccepted(target, h, frames[..|frames| - 1]);
    }
  }

  // ------------------------------------------------------------- the device

  /** The packet that waits to be acknowledged is `stream[start..start + |packet|]`. */
  datatype Device = Device(number: byte, start: nat, packet: seq<byte>)

  predicate DeviceOk(stream: seq<byte>, d: Device) {
    |d.packet| <= CHUNK && d.start + |d.packet| <= |stream| && d.packet == stream[d.start..d.start + |d.packet|]
  }

  /**
   A poll of the channel that names the waiting packet releases the next one, of any size up to the
   poll's limit; any other frame changes nothing.
  */
  predicate Polled(stream: seq<byte>, channel: byte, d: Device, frame: seq<byte>, d': Device) {
    var poll := PollOf(frame);
    if poll.Some? && poll.value.channel == channel && poll.value.number == d.number then
      && d'.number == (d.number + 1) % 256 && d'.start == d.start + |d.packet|
      && DeviceOk(stream, d') && |d'.packet| <= poll.value.limit
    else d' == d
  }

  // ------------------------------------------------------------- the two together

  datatype System = System(ack: byte, delivered: seq<byte>, device: Device)

  datatype Event =
    | PollLost
    | ReplyLost
    | Answered(replies: seq<BusFrame>)

  /** The one frame from the target among the replies is the device's answer, perhaps padded. */
  ghost predicate IsAnswer(target: Target, channel: byte, d: Device, replies: seq<BusFrame>) {
    exists k, fill ::
      && 0 <= k < |replies|
      && AnswerAt(target, channel, d, replies, k, fill)
      && forall j | 0 <= j < |replies| && j != k :: !IsFromTarget(target, replies[j])
  }

  predicate AnswerAt(target: Target, channel: byte, d: Device, replies: seq<BusFrame>, k: nat, fill: nat)
    requires k < |replies|
  {
    IsFromTarget(target, replies[k]) && replies[k].data == FlowFrame(channel, d.number, d.packet) + Padding.Nops(fill)
  }

  /** The frame that a poll sends in this state. */
  function PollIn(channel: byte, s: System): seq<byte> {
    PollFlowFrame(channel, s.ack, 48)
  }

  /** One poll. Other devices' frames may come in with the answer. */
  ghost predicate Step(stream: seq<byte>, target: Target, channel: byte, s: System, event: Event, s': System) {
    match event
    case PollLost => s' == s
    case ReplyLost =>
      Polled(stream, channel, s.device, PollIn(channel, s), s'.device) && s'.ack == s.ack && s'.delivered == s.delivered
    case Answered(replies) =>
      && Polled(stream, channel, s.device, PollIn(channel, s), s'.device)
      && IsAnswer(target, channel, s'.device, replies)
      && var h := HandleAll(target, Handled(s.ack, [], false), replies);
         s'.ack == h.ack && s'.delivered == s.delivered + h.data
  }

  /**
   Everything up to the waiting packet has been delivered, and the packet itself exactly if its
   number was accepted.
  */
  predicate InStep(stream: seq<byte>, from: nat, s: System) {
    && DeviceOk(stream, s.device) && from <= s.device.start
    && (|| (s.ack == s.device.number && s.delivered == stream[from..s.device.start + |s.device.packet|])
        || ((s.ack + 1) % 256 == s.device.number && s.delivered == stream[from..s.device.start]))
  }

  lemma {:induction false} OthersIgnored(target: Target, h: Handled, frames: seq<BusFrame>)
    requires forall j | 0 <= j < |frames| :: !IsFromTarget(target, frames[j])
    ensures HandleAll(target, h, frames) == h
    decreases |frames|
  {
    if frames != [] {
      OthersIgnored(target, h, frames[..|frames| - 1]);
    }
  }

  lemma {:induction false} HandleConcat(target: Target, h: Handled, a: seq<BusFrame>, b: seq<BusFrame>)
    ensures HandleAll(target, h, a + b) == HandleAll(target, HandleAll(target, h, a), b)
    decreases |b|
  {
    hide Handle;
    if b == [] {
      assert a + b == a;
    } else {
      assert (a + b)[..|a + b| - 1] == a + b[..|b| - 1];
      HandleConcat(target, h, a, b[..|b| - 1]);
    }
  }

  /** The answer is accepted once, wherever it stands among the replies. */
  lemma AnswerIsHandled(target: Target, channel: byte, d: Device, ack: byte, replies: seq<BusFrame>)
    requires channel < 128 && |d.packet| <= CHUNK && IsAnswer(target, channel, d, replies)
    ensures HandleAll(target, Handled(ack, [], false), replies) == Handled(d.number, d.packet, true)
  {
    hide FlowOf, FlowFrame;
    var k, fill :|
      && 0 <= k < |replies|
      && AnswerAt(target, channel, d, replies, k, fill)
      && forall j | 0 <= j < |replies| && j != k :: !IsFromTarget(target, replies[j]);
    AnswerBack(channel, d.number, d.packet, Padding.Nops(fill));
    var before, after, h := replies[..k], replies[k + 1..], Handled(ack, [], false);
    assert replies == before + [replies[k]] + after;
    HandleConcat(target, h, before + [replies[k]], after);
    HandleConcat(target, h, before, [replies[k]]);
    OthersIgnored(target, h, before);
    assert [replies[k]][..0] == [] && [] + d.packet == d.packet;
    assert HandleAll(target, h, [replies[k]]) == Handle(target, HandleAll(target, h, []), replies[k]);
    OthersIgnored(target, Handled(d.number, d.packet, true), after);
  }

  // ------------------------------------------------------------- repeated answers

  /** Every frame from the target is the device's answer, perhaps padded; other frames are any. */
  ghost predicate OnlyCopies(target: Target, channel: byte, d: Device, replies: seq<BusFrame>) {
    forall k | 0 <= k < |replies| && IsFromTarget(target, replies[k]) :: IsCopy(channel, d, replies[k].data)
  }

  ghost predicate IsCopy(channel: byte, d: Device, data: seq<byte>) {
    exists fill: nat :: data == FlowFrame(channel, d.number, d.packet) + Padding.Nops(fill)
  }

  function FromTarget(target: Target, replies: seq<BusFrame>): nat {
    if replies == [] then 0
    else FromTarget(target, replies[..|replies| - 1]) + if IsFromTarget(target, replies[|replies| - 1]) then 1 else 0
  }

  function Repeated(packet: seq<byte>, n: nat): (data: seq<byte>)
    ensures |data| == n * |packet|
  {
    if n == 0 then [] else Repeated(packet, n - 1) + packet
  }

  lemma CopyIsHandled(target: Target, channel: byte, d: Device, h: Handled, frame: BusFrame)
    requires channel < 128 && |d.packet| <= CHUNK && IsFromTarget(target, frame) && IsCopy(channel, d, frame.data)
    ensures Handle(target, h, frame) == Handled(d.number, h.data + d.packet, true)
  {
    hide FlowOf, FlowFrame;
    var fill: nat :| frame.data == FlowFrame(channel, d.number, d.packet) + Padding.Nops(fill);
    AnswerBack(channel, d.number, d.packet, Padding.Nops(fill));
  }

  /** Numbers are not compared: as many copies of an answer as come in are taken. */
  lemma {:induction false} CopiesAreTaken(target: Target, channel: byte, d: Device, ack: byte, replies: seq<BusFrame>)
    requires channel < 128 && |d.packet| <= CHUNK && OnlyCopies(target, channel, d, replies)
    ensures var n := FromTarget(target, replies);
      HandleAll(target, Handled(ack, [], false), replies)
      == if n == 0 then Handled(ack, [], false) else Handled(d.number, Repeated(d.packet, n), true)
    decreases |replies|
  {
    hide Handle, IsCopy;
    if replies != [] {
      var last := |replies| - 1;
      var before := replies[..last];
      assert OnlyCopies(target, channel, d, before) by {
        assert forall k | 0 <= k < |before| :: before[k] == replies[k];
      }
      CopiesAreTaken(target, channel, d, ack, before);
      var h := HandleAll(target, Handled(ack, [], false), before);
      if IsFromTarget(target, replies[last]) {
        CopyIsHandled(target, channel, d, h, replies[last]);
        assert Repeated(d.packet, 0) == [];
      } else {
        OtherIsIgnored(target, h, replies[last]);
      }
    }
  }

  lemma OtherIsIgnored(target: Target, h: Handled, frame: BusFrame)
    requires !IsFromTarget(target, frame)
    ensures Handle(target, h, frame) == h
  {
    hide FlowOf;
  }

  /**
   A read with copies of one answer delivers the packet once if and only if one copy came in, or it
   carries nothing.
  */
  lemma TakenOnceExactly(target: Target, channel: byte, d: Device, ack: byte, replies: seq<BusFrame>)
    requires channel < 128 && |d.packet| <= CHUNK && OnlyCopies(target, channel, d, replies)
      && FromTarget(target, replies) >= 1
    ensures HandleAll(target, Handled(ack, [], false), replies).data == d.packet
       <==> FromTarget(target, replies) == 1 || d.packet == []
  {
    hide HandleAll, FlowFrame, IsCopy;
    var n := FromTarget(target, replies);
    CopiesAreTaken(target, channel, d, ack, replies);
    if n == 1 {
      assert Repeated(d.packet, 1) == Repeated(d.packet, 0) + d.packet == d.packet;
    } else if d.packet != [] {
      assert n * |d.packet| >= 2 * |d.packet|;
    }
  }

  /** The shortest such read: one frame, seen twice. */
  lemma RepeatedFrameTakenTwice(target: Target, channel: byte, d: Device, ack: byte, frame: BusFrame)
    requires channel < 128 && |d.packet| <= CHUNK
    requires IsFromTarget(target, frame) && IsCopy(channel, d, frame.data)
    ensures HandleAll(target, Handled(ack, [], false), [frame, frame]) == Handled(d.number, d.packet + d.packet, true)
  {
    hide HandleAll, IsCopy;
    var replies := [frame, frame];
    CopiesAreTaken(target, channel, d, ack, replies);
    assert replies[..1] == [frame] && [frame][..0] == [];
    assert FromTarget(target, [frame]) == 1 && FromTarget(target, replies) == 2;
    assert Repeated(d.packet, 1) == Repeated(d.packet, 0) + d.packet == d.packet;
  }

  /** What a poll does to the device, by the number it carries. */
  lemma PolledIs(stream: seq<byte>, channel: byte, s: System, d': Device)
    ensures Polled(stream, channel, s.device, PollIn(channel, s), d') <==>
      if s.ack == s.device.number then
        && d'.number == (s.device.number + 1) % 256 && d'.start == s.device.start + |s.device.packet|
        && DeviceOk(stream, d')
      else d' == s.device
  {
    PollBack(channel, s.ack, 48, []);
    assert PollIn(channel, s) + [] == PollIn(channel, s);
  }

  lemma StepKeepsInStep(stream: seq<byte>, target: Target, channel: byte, from: nat, s: System, event: Event,
                        s': System)
    requires channel < 128 && InStep(stream, from, s) && Step(stream, target, channel, s, event, s')
    ensures InStep(stream, from, s') && s.delivered <= s'.delivered
    ensures event.Answered? ==> s'.ack == s'.device.number
  {
    hide Polled, HandleAll, IsAnswer;
    PolledIs(stream, channel, s, s'.device);
    if event.Answered? {
      var d := s'.device;
      AnswerIsHandled(target, channel, d, s.ack, event.replies);
      assert s'.delivered == s.delivered + d.packet;
      assert s.delivered == stream[from..d.start];
      assert stream[from..d.start] + stream[d.start..d.start + |d.packet|] == stream[from..d.start + |d.packet|];
    }
  }

  ghost predicate IsRun(stream: seq<byte>, target: Target, channel: byte, run: seq<System>, events: seq<Event>) {
    && |run| == |events| + 1
    && forall k | 0 <= k < |events| :: Step(stream, target, channel, run[k], events[k], run[k + 1])
  }

  /**
   Over any run, whatever is dropped and however often the packet numbers wrap, what has been
   delivered is the device's stream, in order and without gap or repetition, up to a point
   that only moves forward.
  */
  lemma {:induction false} DeliversPrefix(stream: seq<byte>, target: Target, channel: byte, from: nat,
                                         run: seq<System>, events: seq<Event>, k: nat)
    requires channel < 128 && IsRun(stream, target, channel, run, events) && InStep(stream, from, run[0])
    requires k < |run|
    ensures InStep(stream, from, run[k])
    ensures run[k].delivered <= stream[from..]
    ensures k > 0 ==> run[k - 1].delivered <= run[k].delivered
    ensures k > 0 && events[k - 1].Answered? ==>
      run[k].delivered == stream[from..run[k].device.start + |run[k].device.packet|]
  {
    if k > 0 {
      DeliversPrefix(stream, target, channel, from, run, events, k - 1);
      StepKeepsInStep(stream, target, channel, from, run[k - 1], events[k - 1], run[k]);
    }
    var end := |run[k].delivered|;
    assert stream[from..][..end] == stream[from..from + end];
  }

  // ------------------------------------------------------------- the probe

  datatype Probed = Probed(ack: byte, data: seq<byte>, flow: bool)

  /** The probe also takes plain answers, but only a flow answer turns flow control on. */
  function Probe(target: Target, p: Probed, frame: BusFrame): Probed {
    var flow, plain := FlowOf(frame.data), PlainOf(frame.data);
    if !IsFromTarget(target, frame) then p
    else if flow.channel >= 0 then Probed(flow.number, p.data + flow.data, true)
    else if plain.channel >= 0 then p.(data := p.data + plain.data)
    else p
  }

  function ProbeAll(target: Target, p: Probed, frames: seq<BusFrame>): Probed {
    if frames == [] then p else Probe(target, ProbeAll(target, p, frames[..|frames| - 1]), frames[|frames| - 1])
  }

  /** Without plain answers from the target the probe is a poll. */
  lemma {:induction false} ProbeIsPoll(target: Target, ack: byte, frames: seq<BusFrame>)
    requires forall j | 0 <= j < |frames| :: IsFromTarget(target, frames[j]) ==> FlowOf(frames[j].data).channel >= 0
    ensures var h, p := HandleAll(target, Handled(ack, [], false), frames),
      ProbeAll(target, Probed(ack, [], false), frames);
      p == Probed(h.ack, h.data, h.any)
    decreases |frames|
  {
    hide FlowOf, PlainOf;
    if frames != [] {
      ProbeIsPoll(target, ack, frames[..|frames| - 1]);
    }
  }

  /** An answered probe leaves controller and device in step, whatever the device was doing before. */
  lemma ProbeStarts(stream: seq<byte>, target: Target, channel: byte, d: Device, ack: byte, d': Device,
                    replies: seq<BusFrame>)
    requires channel < 128 && DeviceOk(stream, d) && IsAnswer(target, channel, d', replies)
    requires Polled(stream, channel, d, PollFlowFrame(channel, 0, 48), d')
    ensures var p := ProbeAll(target, Probed(ack, [], false), replies);
      p.flow && InStep(stream, d'.start, System(p.ack, p.data, d'))
  {
    hide FlowOf, PlainOf, HandleAll, ProbeAll, FlowFrame;
    AnswerIsHandled(target, channel, d', ack, replies);
    forall j | 0 <= j < |replies|
      ensures IsFromTarget(target, replies[j]) ==> FlowOf(replies[j].data).channel >= 0
    {
      if IsFromTarget(target, replies[j]) {
        var k, fill :|
          && 0 <= k < |replies|
          && AnswerAt(target, channel, d', replies, k, fill)
          && forall i | 0 <= i < |replies| && i != k :: !IsFromTarget(target, replies[i]);
        AnswerBack(channel, d'.number, d'.packet, Padding.Nops(fill));
      }
    }
    ProbeIsPoll(target, ack, replies);
  }
}
