/**
 A diagnostic command polled with flow control: what its reader hears over a link that drops
 frames, and what its result is of the device's stream.
*/
module FlowCommand {
  import opened Bytes
  import opened DiagnosticFrames
  import opened Diagnostic
  import opened Flow
  import Padding

  /** What the frames of one read say: an answer, or none, for each frame from the target. */
  function Responses(target: Target, frames: seq<BusFrame>): seq<Response> {
    if frames == [] then []
    else
      var last := |frames| - 1;
      Responses(target, frames[..last]) + if IsFromTarget(target, frames[last]) then [FlowOf(frames[last].data)] else []
  }

  /** The number that the next poll names: that of the last answer on channel 1. */
  function AckAfter(ack: byte, responses: seq<Response>): byte {
    if responses == [] then ack
    else
      var last := |responses| - 1;
      if responses[last].channel == 1 then responses[last].number else AckAfter(ack, responses[..last])
  }

  /** What the command hears of one poll. */
  function HeardOf(target: Target, event: Event): seq<Response> {
    if event.Answered? then Responses(target, event.replies) else []
  }

  function Cycles(target: Target, events: seq<Event>): (cycles: seq<seq<Response>>)
    ensures |cycles| == |events|
  {
    seq(|events|, k requires 0 <= k < |events| => HeardOf(target, events[k]))
  }

  // ------------------------------------------------------------- one poll

  lemma {:induction false} ResponsesConcat(target: Target, a: seq<BusFrame>, b: seq<BusFrame>)
    ensures Responses(target, a + b) == Responses(target, a) + Responses(target, b)
    decreases |b|
  {
    hide FlowOf, IsFromTarget;
    if b == [] {
      assert a + b == a;
    } else {
      assert (a + b)[..|a + b| - 1] == a + b[..|b| - 1];
      ResponsesConcat(target, a, b[..|b| - 1]);
    }
  }

  lemma {:induction false} OthersSayNothing(target: Target, frames: seq<BusFrame>)
    requires forall j | 0 <= j < |frames| :: !IsFromTarget(target, frames[j])
    ensures Responses(target, frames) == []
    decreases |frames|
  {
    if frames != [] {
      OthersSayNothing(target, frames[..|frames| - 1]);
    }
  }

  /** The device's answer is heard once, wherever it stands among the replies. */
  lemma AnswerIsHeard(target: Target, d: Device, replies: seq<BusFrame>)
    requires |d.packet| <= CHUNK && IsAnswer(target, 1, d, replies)
    ensures Responses(target, replies) == [Response(1, d.number, d.packet)]
  {
    hide FlowOf, FlowFrame, IsFromTarget, Responses;
    var k, fill :|
      && 0 <= k < |replies|
      && AnswerAt(target, 1, d, replies, k, fill)
      && forall j | 0 <= j < |replies| && j != k :: !IsFromTarget(target, replies[j]);
    AnswerBack(1, d.number, d.packet, Padding.Nops(fill));
    OnlyOneSpeaks(target, replies, k);
  }

  lemma OnlyOneSpeaks(target: Target, replies: seq<BusFrame>, k: nat)
    requires k < |replies| && IsFromTarget(target, replies[k])
    requires forall j | 0 <= j < |replies| && j != k :: !IsFromTarget(target, replies[j])
    ensures Responses(target, replies) == [FlowOf(replies[k].data)]
  {
    hide FlowOf, IsFromTarget, Responses;
    var before, after := replies[..k], replies[k + 1..];
    assert replies == before + [replies[k]] + after;
    ResponsesConcat(target, before + [replies[k]], after);
    ResponsesConcat(target, before, [replies[k]]);
    OthersSayNothing(target, before);
    OthersSayNothing(target, after);
    OneSpeaks(target, replies[k]);
  }

  lemma OneSpeaks(target: Target, frame: BusFrame)
    requires IsFromTarget(target, frame)
    ensures Responses(target, [frame]) == [FlowOf(frame.data)]
  {
    hide FlowOf, IsFromTarget;
    assert [frame][..0] == [];
  }

  /** After one poll the command has taken what the link delivered, and names what it accepted. */
  lemma PollIsHeard(stream: seq<byte>, target: Target, s: System, event: Event, s': System)
    requires Step(stream, target, 1, s, event, s') && DeviceOk(stream, s'.device)
    ensures s'.delivered == s.delivered + Data(HeardOf(target, event))
    ensures s'.ack == AckAfter(s.ack, HeardOf(target, event))
  {
    hide IsAnswer, HandleAll, Responses;
    if event.Answered? {
      var d := s'.device;
      AnswerIsHeard(target, d, event.replies);
      AnswerIsHandled(target, 1, d, s.ack, event.replies);
      OneAnswer(Response(1, d.number, d.packet), s.ack);
    }
  }

  lemma OneAnswer(r: Response, ack: byte)
    requires r.channel == 1
    ensures Data([r]) == r.data && AckAfter(ack, [r]) == r.number
  {
    assert [r][..0] == [];
  }

  // ------------------------------------------------------------- a whole command

  /** Over any run the command has heard what the link has delivered since it began. */
  lemma {:induction false} DeliveredIsHeard(stream: seq<byte>, target: Target, from: nat,
                                            run: seq<System>, events: seq<Event>, k: nat)
    requires IsRun(stream, target, 1, run, events) && InStep(stream, from, run[0]) && k < |run|
    ensures run[k].delivered == run[0].delivered + AllData(Cycles(target, events)[..k])
    ensures k > 0 ==> run[k].ack == AckAfter(run[k - 1].ack, Cycles(target, events)[k - 1])
  {
    hide Step, HeardOf, AllData, Data, AckAfter, InStep, DeviceOk;
    var cycles := Cycles(target, events);
    if k == 0 {
      NoData();
      assert cycles[..0] == [];
    } else {
      DeliveredIsHeard(stream, target, from, run, events, k - 1);
      DeviceStaysOk(stream, target, from, run, events, k);
      PollIsHeard(stream, target, run[k - 1], events[k - 1], run[k]);
      AllDataStep(cycles, k - 1);
    }
  }

  lemma DeviceStaysOk(stream: seq<byte>, target: Target, from: nat, run: seq<System>, events: seq<Event>, k: nat)
    requires IsRun(stream, target, 1, run, events) && InStep(stream, from, run[0]) && k < |run|
    ensures DeviceOk(stream, run[k].device)
  {
    hide IsRun, DeviceOk;
    DeliversPrefix(stream, target, 1, from, run, events, k);
  }

  /** What is found in the beginning of a stream is found in the stream. */
  lemma OkExtends(s: seq<byte>, t: seq<byte>, result: seq<byte>)
    requires s <= t && BeforeFirstOk(s, Done(result))
    ensures BeforeFirstOk(t, Done(result))
  {
    forall p: nat | p + 2 < |s|
      ensures OkLine(s, p) <==> OkLine(t, p)
    {
      assert t[p..p + 2] == s[p..p + 2];
    }
  }

  /**
   End to end: a command whose probe or earlier reads have left `probe`, and which then polls over
   a link that drops polls and answers as it likes, hears the device's stream from where it began.
   Its result is what stands before the first line of that stream that is just OK; until it has a
   result, no such line has come in.
  */
  lemma CommandResult(stream: seq<byte>, target: Target, from: nat, run: seq<System>, events: seq<Event>, k: nat,
                      earlier: seq<byte>, probe: seq<byte>)
    requires IsRun(stream, target, 1, run, events) && InStep(stream, from, run[0]) && k < |run|
    requires run[0].delivered == earlier + probe
    ensures var received, begin := probe + AllData(Cycles(target, events)[..k]), from + |earlier|;
      && begin <= |stream| && received <= stream[begin..]
      && match Accept(ExpectOk, [], [], received)
         case Done(result) => BeforeFirstOk(stream[begin..], Done(result))
         case Reading(output, line) =>
           output + line == received && forall q | 0 <= q < |received| :: !OkLine(received, q)
  {
    hide InStep, Step, AllData, Accept, OkLine, BeforeFirstOk;
    var received := probe + AllData(Cycles(target, events)[..k]);
    DeliversPrefix(stream, target, 1, from, run, events, k);
    DeliveredIsHeard(stream, target, from, run, events, k);
    BeginsWithin(stream, from, run[k]);
    assert run[k].delivered == earlier + received;
    SuffixOfPrefix(stream, from, earlier, received);
    OkResult(received);
    OkMeans(received);
    if Accept(ExpectOk, [], [], received).Done? {
      OkExtends(received, stream[from + |earlier|..], Accept(ExpectOk, [], [], received).result);
    }
  }

  lemma OkMeans(s: seq<byte>)
    requires BeforeFirstOk(s, Accept(ExpectOk, [], [], s))
    ensures var progress := Accept(ExpectOk, [], [], s);
      progress.Reading? ==> progress.output + progress.line == s && forall q | 0 <= q < |s| :: !OkLine(s, q)
  {
    hide Accept, OkLine;
  }

  lemma BeginsWithin(stream: seq<byte>, from: nat, s: System)
    requires InStep(stream, from, s)
    ensures from <= |stream|
  {
  }

  lemma SuffixOfPrefix(stream: seq<byte>, from: nat, earlier: seq<byte>, received: seq<byte>)
    requires from <= |stream| && earlier + received <= stream[from..]
    ensures from + |earlier| <= |stream| && received <= stream[from + |earlier|..]
  {
    var rest := stream[from..];
    assert stream[from + |earlier|..] == rest[|earlier|..];
    assert received == (earlier + received)[|earlier|..];
  }

  /** In single-line mode the result is the first line of the stream. */
  lemma LineResult(stream: seq<byte>, target: Target, from: nat, run: seq<System>, events: seq<Event>, k: nat,
                   earlier: seq<byte>, probe: seq<byte>)
    requires IsRun(stream, target, 1, run, events) && InStep(stream, from, run[0]) && k < |run|
    requires run[0].delivered == earlier + probe
    ensures var received, begin := probe + AllData(Cycles(target, events)[..k]), from + |earlier|;
      && begin <= |stream| && received <= stream[begin..]
      && match Accept(ExpectSingleLine, [], [], received)
         case Done(result) =>
           && result < stream[begin..] && NoEnd(result) && IsEnd(stream[begin + |result|])
         case Reading(output, line) => output + line == received && NoEnd(received)
  {
    hide InStep, Step, AllData, Accept;
    var received, begin := probe + AllData(Cycles(target, events)[..k]), from + |earlier|;
    DeliversPrefix(stream, target, 1, from, run, events, k);
    DeliveredIsHeard(stream, target, from, run, events, k);
    BeginsWithin(stream, from, run[k]);
    assert run[k].delivered == earlier + received;
    SuffixOfPrefix(stream, from, earlier, received);
    SingleLineResult([], received);
    assert [] + received == received;
  }
}
