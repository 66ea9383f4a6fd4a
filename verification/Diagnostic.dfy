/**
 A command over the diagnostic channel (`AsyncDiagnosticCommandContext`): the command is
 sent in chunks, and the reply is put together from fragments until its end is seen.
*/
module Diagnostic {
  import opened Bytes
  import opened DiagnosticFrames

  datatype Mode = ExpectOk | ExpectSingleLine

  /** Where the reader of a reply stands. */
  datatype Progress = Reading(output: seq<byte>, line: seq<byte>) | Done(result: seq<byte>)

  const OK: seq<byte> := [79, 75]

  predicate IsEnd(b: byte) {
    b == 13 || b == 10
  }

  predicate NoEnd(s: seq<byte>) {
    forall k | 0 <= k < |s| :: !IsEnd(s[k])
  }

  /** The reply read byte by byte. */
  function Accept(mode: Mode, output: seq<byte>, line: seq<byte>, input: seq<byte>): Progress
    decreases |input|
  {
    if input == [] then Reading(output, line)
    else if !IsEnd(input[0]) then Accept(mode, output, line + [input[0]], input[1..])
    else if mode == ExpectSingleLine then Done(line)
    else if line == OK then Done(output)
    else Accept(mode, output + line + [input[0]], [], input[1..])
  }

  lemma {:induction false} AcceptConcat(mode: Mode, output: seq<byte>, line: seq<byte>, a: seq<byte>, b: seq<byte>)
    ensures Accept(mode, output, line, a + b) ==
      match Accept(mode, output, line, a)
      case Done(result) => Done(result)
      case Reading(o, l) => Accept(mode, o, l, b)
    decreases |a|
  {
    if a == [] {
      assert a + b == b;
    } else {
      assert (a + b)[1..] == a[1..] + b;
      if !IsEnd(a[0]) {
        AcceptConcat(mode, output, line + [a[0]], a[1..], b);
      } else if mode == ExpectOk && line != OK {
        AcceptConcat(mode, output + line + [a[0]], [], a[1..], b);
      }
    }
  }

  // ------------------------------------------------------------- what the result is

  /** A line holding just OK starts at `p`. */
  predicate OkLine(s: seq<byte>, p: nat) {
    p + 2 < |s| && s[p..p + 2] == OK && IsEnd(s[p + 2]) && (p == 0 || IsEnd(s[p - 1]))
  }

  /** The result is what stands before the first OK line; without one, nothing has been lost. */
  predicate BeforeFirstOk(s: seq<byte>, progress: Progress) {
    if progress.Done? then
      && progress.result <= s && OkLine(s, |progress.result|)
      && forall q | 0 <= q < |progress.result| :: !OkLine(s, q)
    else
      && progress.output + progress.line == s
      && forall q | 0 <= q < |s| :: !OkLine(s, q)
  }

  lemma {:induction false} AcceptFindsOk(output: seq<byte>, line: seq<byte>, input: seq<byte>)
    requires NoEnd(line) && (output == [] || IsEnd(output[|output| - 1]))
    requires forall q: nat | q < |output| :: !OkLine(output + line + input, q)
    ensures BeforeFirstOk(output + line + input, Accept(ExpectOk, output, line, input))
    decreases |input|
  {
    hide Accept, OkLine;
    AcceptStep(ExpectOk, output, line, input);
    var s := output + line + input;
    if input == [] {
      assert s == output + line;
      NoOkInLine(output, line);
    } else if !IsEnd(input[0]) {
      assert output + (line + [input[0]]) + input[1..] == s;
      AcceptFindsOk(output, line + [input[0]], input[1..]);
    } else if line == OK {
      OkLineAt(output, input);
    } else {
      var longer := output + line + [input[0]];
      assert longer + [] + input[1..] == s;
      forall q: nat | q < |longer|
        ensures !OkLine(s, q)
      {
        NotInLine(output, line, input, q);
      }
      AcceptFindsOk(longer, [], input[1..]);
    }
  }

  lemma AcceptStep(mode: Mode, output: seq<byte>, line: seq<byte>, input: seq<byte>)
    ensures Accept(mode, output, line, input) ==
      if input == [] then Reading(output, line)
      else if !IsEnd(input[0]) then Accept(mode, output, line + [input[0]], input[1..])
      else if mode == ExpectSingleLine then Done(line)
      else if line == OK then Done(output)
      else Accept(mode, output + line + [input[0]], [], input[1..])
  {
  }

  /** An unfinished line holds no OK line. */
  lemma NoOkInLine(output: seq<byte>, line: seq<byte>)
    requires NoEnd(line) && forall q: nat | q < |output| :: !OkLine(output + line, q)
    ensures forall q: nat | q < |output + line| :: !OkLine(output + line, q)
  {
    var s := output + line;
    assert forall k | |output| <= k < |s| :: s[k] == line[k - |output|];
  }

  lemma OkLineAt(output: seq<byte>, input: seq<byte>)
    requires input != [] && IsEnd(input[0]) && (output == [] || IsEnd(output[|output| - 1]))
    ensures OkLine(output + OK + input, |output|)
  {
    var s := output + OK + input;
    assert s[|output|..|output| + 2] == OK && s[|output| + 2] == input[0];
  }

  /** A finished line other than OK, and its end, are not the start of an OK line. */
  lemma NotInLine(output: seq<byte>, line: seq<byte>, input: seq<byte>, q: nat)
    requires NoEnd(line) && input != [] && IsEnd(input[0]) && line != OK
    requires q < |output| ==> !OkLine(output + line + input, q)
    requires q <= |output| + |line|
    ensures !OkLine(output + line + input, q)
  {
    var s := output + line + input;
    var end := |output| + |line|;
    assert s[end] == input[0] && s[|output|..end] == line;
    assert forall k | |output| <= k < end :: s[k] == line[k - |output|];
    assert q + 2 == end && q == |output| ==> s[q..q + 2] == line;
    assert q + 2 < |s| && s[q..q + 2] == OK ==> s[q] == OK[0] && s[q + 1] == OK[1];
  }

  /** In OK mode the reply ends with the first line that is just OK. */
  lemma OkResult(s: seq<byte>)
    ensures BeforeFirstOk(s, Accept(ExpectOk, [], [], s))
  {
    assert [] + [] + s == s;
    AcceptFindsOk([], [], s);
  }

  /** In single-line mode the result is the first line. */
  lemma {:induction false} SingleLineResult(line: seq<byte>, input: seq<byte>)
    requires NoEnd(line)
    ensures var s := line + input;
      match Accept(ExpectSingleLine, [], line, input)
      case Done(result) => |result| < |s| && result == s[..|result|] && NoEnd(result) && IsEnd(s[|result|])
      case Reading(output, rest) => output == [] && rest == s && NoEnd(s)
    decreases |input|
  {
    if input == [] {
      assert line + input == line;
    } else if IsEnd(input[0]) {
      assert (line + input)[..|line|] == line;
    } else {
      assert line + input == line + [input[0]] + input[1..];
      SingleLineResult(line + [input[0]], input[1..]);
    }
  }

  lemma AcceptNext(mode: Mode, output: seq<byte>, line: seq<byte>, b: byte, rest: seq<byte>)
    ensures Accept(mode, output, line, [b] + rest) ==
      if !IsEnd(b) then Accept(mode, output, line + [b], rest)
      else if mode == ExpectSingleLine then Done(line)
      else if line == OK then Done(output)
      else Accept(mode, output + line + [b], [], rest)
  {
    assert ([b] + rest)[1..] == rest;
  }

  /** A line, a line end of two characters, and the line OK. */
  lemma ShortReply()
    ensures Accept(ExpectOk, [], [], [0x61, 0x0d, 0x0a, 0x4f, 0x4b, 0x0a]) == Done([0x61, 0x0d, 0x0a])
    ensures Accept(ExpectSingleLine, [], [], [0x61, 0x0d]) == Done([0x61])
  {
    hide Accept;
    AcceptNext(ExpectOk, [], [], 0x61, [0x0d, 0x0a, 0x4f, 0x4b, 0x0a]);
    AcceptNext(ExpectOk, [], [0x61], 0x0d, [0x0a, 0x4f, 0x4b, 0x0a]);
    AcceptNext(ExpectOk, [0x61, 0x0d], [], 0x0a, [0x4f, 0x4b, 0x0a]);
    AcceptNext(ExpectOk, [0x61, 0x0d, 0x0a], [], 0x4f, [0x4b, 0x0a]);
    AcceptNext(ExpectOk, [0x61, 0x0d, 0x0a], [0x4f], 0x4b, [0x0a]);
    AcceptNext(ExpectOk, [0x61, 0x0d, 0x0a], [0x4f, 0x4b], 0x0a, []);
    AcceptNext(ExpectSingleLine, [], [], 0x61, [0x0d]);
    AcceptNext(ExpectSingleLine, [], [0x61], 0x0d, []);
    assert [0x61] + [0x0d, 0x0a, 0x4f, 0x4b, 0x0a] == [0x61, 0x0d, 0x0a, 0x4f, 0x4b, 0x0a];
    assert [0x0d] + [0x0a, 0x4f, 0x4b, 0x0a] == [0x0d, 0x0a, 0x4f, 0x4b, 0x0a];
    assert [0x0a] + [0x4f, 0x4b, 0x0a] == [0x0a, 0x4f, 0x4b, 0x0a] && [0x4f] + [0x4b, 0x0a] == [0x4f, 0x4b, 0x0a];
    assert [0x4b] + [0x0a] == [0x4b, 0x0a] && [0x4f] + [0x4b] == [0x4f, 0x4b] && [] + [0x61] == [0x61];
    assert [] + [0x61] + [0x0d] == [0x61, 0x0d] && [0x61, 0x0d] + [] + [0x0a] == [0x61, 0x0d, 0x0a];
    assert [0x0a] + [] == [0x0a] && [0x0d] + [] == [0x0d] && [] + [0x4f] == [0x4f] && [0x61] + [0x0d] == [0x61, 0x0d];
  }

  // ------------------------------------------------------------- the exchange

  /** The data of the answers on channel 1. */
  function Data(replies: seq<Response>): seq<byte> {
    if replies == [] then []
    else
      Data(replies[..|replies| - 1])
      + if replies[|replies| - 1].channel == 1 then replies[|replies| - 1].data else []
  }

  /** The answers on channel 1, one by one. */
  function Heard(replies: seq<Response>): seq<seq<byte>> {
    if replies == [] then []
    else
      Heard(replies[..|replies| - 1])
      + if replies[|replies| - 1].channel == 1 then [replies[|replies| - 1].data] else []
  }

  function HeardIn(cycles: seq<seq<Response>>): seq<seq<byte>> {
    if cycles == [] then [] else HeardIn(cycles[..|cycles| - 1]) + Heard(cycles[|cycles| - 1])
  }

  /** How many answers at the end carry nothing. */
  function EmptyTail(answers: seq<seq<byte>>): nat {
    if answers == [] || answers[|answers| - 1] != [] then 0 else EmptyTail(answers[..|answers| - 1]) + 1
  }

  lemma {:induction false} EmptyTailMeans(answers: seq<seq<byte>>, n: nat)
    ensures EmptyTail(answers) >= n <==> n <= |answers| && forall k | |answers| - n <= k < |answers| :: answers[k] == []
    decreases |answers|
  {
    if n > 0 && answers != [] {
      var before := answers[..|answers| - 1];
      EmptyTailMeans(before, n - 1);
      if EmptyTail(answers) >= n {
        assert forall k | |answers| - n <= k < |answers| - 1 :: answers[k] == before[k];
      }
    }
  }

  lemma EmptyTailStep(answers: seq<seq<byte>>, data: seq<byte>)
    ensures EmptyTail(answers + [data]) == if data == [] then EmptyTail(answers) + 1 else 0
  {
    assert (answers + [data])[..|answers|] == answers;
  }

  function AllData(cycles: seq<seq<Response>>): seq<byte> {
    if cycles == [] then [] else AllData(cycles[..|cycles| - 1]) + Data(cycles[|cycles| - 1])
  }

  function Joined(chunks: seq<seq<byte>>): seq<byte> {
    if chunks == [] then [] else Joined(chunks[..|chunks| - 1]) + chunks[|chunks| - 1]
  }

  datatype Outcome = Finished(result: seq<byte>) | TimedOut | StillReading

  class CommandContext {
    const mode: Mode
    var remaining: seq<byte>
    var line: seq<byte>
    var output: seq<byte>
    var emptyReplies: nat
    /** Everything that has come in. */
    ghost var received: seq<byte>
    ghost var heard: seq<seq<byte>>

    constructor (message: seq<byte>, mode: Mode)
      ensures Valid() && received == [] && heard == []
      ensures this.mode == mode && remaining == message + [10]
    {
      this.mode, remaining := mode, message + [10];
      line, output, emptyReplies, received, heard := [], [], 0, [], [];
    }

    ghost predicate Valid()
      reads this
    {
      NoEnd(line) && Accept(mode, [], [], received) == Reading(output, line) && emptyReplies == EmptyTail(heard)
    }

    /** The bytes received are those taken into the output and those still in the line, which may hold line ends. */
    ghost predicate Pending()
      reads this
    {
      Accept(mode, [], [], received) == Accept(mode, output, [], line) && emptyReplies == EmptyTail(heard)
    }

    /** Sends the next chunk of the command. */
    method DoWrite() returns (frame: seq<byte>, ghost chunk: seq<byte>)
      modifies this`remaining
      ensures |chunk| == (if |old(remaining)| < CHUNK then |old(remaining)| else CHUNK)
      ensures old(remaining) == chunk + remaining && frame == WriteFrame(1, chunk)
      ensures InputOf(frame) == Some(Input(1, chunk))
    {
      var toWrite := if |remaining| < CHUNK then |remaining| else CHUNK;
      chunk := remaining[..toWrite];
      frame := WriteFrame(1, remaining[..toWrite]);
      remaining := remaining[toWrite..];
      InputBack(1, chunk, []);
      assert frame + [] == frame;
    }

    /** Adds the answers to the line, then takes off complete lines until the reply ends. */
    method ProcessReplies(replies: seq<Response>) returns (done: bool, result: seq<byte>)
      requires Pending()
      modifies this`line, this`output, this`emptyReplies, this`received, this`heard
      ensures received == old(received) + Data(replies) && heard == old(heard) + Heard(replies)
      ensures done ==> Accept(mode, [], [], received) == Done(result)
      ensures !done ==> Valid()
      ensures Data(replies) == [] ==> emptyReplies == old(emptyReplies) + |Heard(replies)|
      ensures Data(replies) == [] && NoEnd(old(line)) ==> !done
    {
      ghost var before := line;
      ghost var data := Data(replies);
      CollectReplies(replies);
      received := received + data;
      AcceptConcat(mode, [], [], old(received), data);
      AcceptConcat(mode, output, [], before, data);
      done, result := TakeLines();
      if data == [] && NoEnd(before) {
        assert received == old(received);
        KeepsLine(mode, old(output), before);
      }
    }

    method CollectReplies(replies: seq<Response>)
      requires emptyReplies == EmptyTail(heard)
      modifies this`line, this`emptyReplies, this`heard
      ensures line == old(line) + Data(replies) && heard == old(heard) + Heard(replies)
      ensures emptyReplies == EmptyTail(heard)
      ensures Data(replies) == [] ==> emptyReplies == old(emptyReplies) + |Heard(replies)|
    {
      hide EmptyTail;
      assert replies[..0] == [];
      for i := 0 to |replies|
        invariant line == old(line) + Data(replies[..i]) && heard == old(heard) + Heard(replies[..i])
        invariant emptyReplies == EmptyTail(heard)
        invariant Data(replies[..i]) == [] ==> emptyReplies == old(emptyReplies) + |Heard(replies[..i])|
      {
        assert replies[..i + 1][..i] == replies[..i];
        if replies[i].channel != 1 {
          continue;
        }
        if |replies[i].data| == 0 {
          emptyReplies := emptyReplies + 1;
        } else {
          emptyReplies := 0;
        }
        EmptyTailStep(heard, replies[i].data);
        heard := heard + [replies[i].data];
        line := line + replies[i].data;
      }
      assert replies[..|replies|] == replies;
    }

    method TakeLines() returns (done: bool, result: seq<byte>)
      requires Accept(mode, [], [], received) == Accept(mode, output, [], line)
      modifies this`line, this`output
      ensures done ==> Accept(mode, [], [], received) == Done(result)
      ensures !done ==> NoEnd(line) && Accept(mode, [], [], received) == Reading(output, line)
    {
      while true
        invariant Accept(mode, [], [], received) == Accept(mode, output, [], line)
        decreases |line|
      {
        var end := FindEnd(line);
        ghost var rest := line[end..];
        KeepsLine(mode, output, line[..end]);
        AcceptConcat(mode, output, [], line[..end], rest);
        assert line == line[..end] + rest;
        if end == |line| {
          return false, [];
        }
        assert rest[0] == line[end] && rest[1..] == line[end + 1..];
        if mode == ExpectSingleLine {
          return true, line[..end];
        } else if line[..end] == OK {
          return true, output;
        }
        output := output + line[..end] + [line[end]];
        line := line[end + 1..];
      }
    }

    /**
     The command goes out in chunks, in order, which a device reads back from its frames; nothing
     has come in that could end the exchange.
    */
    method SendCommand() returns (frames: seq<seq<byte>>, ghost chunks: seq<seq<byte>>)
      requires Valid() && received == [] && heard == []
      modifies this
      ensures Valid() && received == [] && heard == [] && remaining == []
      ensures Joined(chunks) == old(remaining) && forall c | c in chunks :: |c| <= 48
      ensures |frames| == |chunks| && forall k | 0 <= k < |chunks| :: InputOf(frames[k]) == Some(Input(1, chunks[k]))
    {
      hide InputOf, WriteFrame;
      frames, chunks := [], [];
      while |remaining| > 0
        invariant Valid() && received == [] && heard == []
        invariant Joined(chunks) + remaining == old(remaining) && forall c | c in chunks :: |c| <= CHUNK
        invariant |frames| == |chunks| && forall k | 0 <= k < |chunks| ::
          InputOf(frames[k]) == Some(Input(1, chunks[k]))
        decreases |remaining|
      {
        var frame;
        ghost var chunk;
        frame, chunk := DoWrite();
        assert (chunks + [chunk])[..|chunks|] == chunks;
        frames, chunks := frames + [frame], chunks + [chunk];
        KeepsLine(mode, output, line);
        var early, nothing := ProcessReplies([]);
      }
    }

    /**
     Reads until the reply ends or five answers in a row are empty; the environment supplies what
     the probe before the first command of a connection has read, and the answers of each read. If
     every read is answered, the number of reads is bounded by the data.
    */
    method ReadReply(probe: seq<byte>, cycles: seq<seq<Response>>) returns (outcome: Outcome, used: nat)
      requires Valid() && received == [] && heard == []
      modifies this`line, this`output, this`emptyReplies, this`received, this`heard
      ensures used <= |cycles| && received == probe + AllData(cycles[..used]) && heard == HeardIn(cycles[..used])
      ensures outcome.Finished? ==> Accept(mode, [], [], received) == Done(outcome.result)
      ensures !outcome.Finished? ==> Accept(mode, [], [], received).Reading?
      ensures outcome.TimedOut? ==> EmptyTail(HeardIn(cycles[..used])) >= 5
      ensures outcome.StillReading? ==> used == |cycles| && EmptyTail(HeardIn(cycles)) < 5
      ensures (forall c | c in cycles :: Heard(c) != []) ==> used <= 5 * |AllData(cycles[..used])| + 5
    {
      hide Accept, AllData, Data, Heard, HeardIn, EmptyTail;
      used := 0;
      NoData();
      assert cycles[..0] == [];
      if |probe| > 0 {
        AcceptProbe(mode, output, line, received, probe);
        line, received := line + probe, received + probe;
        var done, result := ProcessReplies([]);
        if done {
          return Finished(result), 0;
        }
      }
      assert received == probe + AllData(cycles[..0]) && heard == HeardIn(cycles[..0]);
      while emptyReplies < 5 && used < |cycles|
        invariant Valid() && used <= |cycles| && received == probe + AllData(cycles[..used])
          && heard == HeardIn(cycles[..used])
        invariant (forall c | c in cycles :: Heard(c) != []) ==>
          used <= 5 * |AllData(cycles[..used])| + if emptyReplies < 5 then emptyReplies else 5
        decreases |cycles| - used
      {
        KeepsLine(mode, output, line);
        var done, result := ProcessReplies(cycles[used]);
        AllDataStep(cycles, used);
        assert |AllData(cycles[..used + 1])| == |AllData(cycles[..used])| + |Data(cycles[used])|;
        assert Data(cycles[used]) == [] || |Data(cycles[used])| >= 1;
        used := used + 1;
        if done {
          return Finished(result), used;
        }
      }
      assert used == |cycles| ==> cycles[..used] == cycles;
      outcome := if emptyReplies >= 5 then TimedOut else StillReading;
    }
  }

  /** Data put behind the line are read next. */
  lemma AcceptProbe(mode: Mode, output: seq<byte>, line: seq<byte>, received: seq<byte>, probe: seq<byte>)
    requires NoEnd(line) && Accept(mode, [], [], received) == Reading(output, line)
    ensures Accept(mode, [], [], received + probe) == Accept(mode, output, [], line + probe)
  {
    AcceptConcat(mode, [], [], received, probe);
    KeepsLine(mode, output, line);
    AcceptConcat(mode, output, [], line, probe);
  }

  lemma NoData()
    ensures AllData([]) == [] && HeardIn([]) == [] && Data([]) == [] && Heard([]) == []
  {
  }

  lemma AllDataStep(cycles: seq<seq<Response>>, k: nat)
    requires k < |cycles|
    ensures AllData(cycles[..k + 1]) == AllData(cycles[..k]) + Data(cycles[k])
    ensures HeardIn(cycles[..k + 1]) == HeardIn(cycles[..k]) + Heard(cycles[k])
  {
    assert cycles[..k + 1][..k] == cycles[..k];
  }

  method FindEnd(s: seq<byte>) returns (end: nat)
    ensures end <= |s| && NoEnd(s[..end]) && (end < |s| ==> IsEnd(s[end]))
  {
    end := 0;
    while end < |s| && !IsEnd(s[end])
      invariant end <= |s| && NoEnd(s[..end])
    {
      end := end + 1;
    }
  }

  lemma {:induction false} Keeps(mode: Mode, output: seq<byte>, line: seq<byte>, more: seq<byte>)
    requires NoEnd(more)
    ensures Accept(mode, output, line, more) == Reading(output, line + more)
    decreases |more|
  {
    if more == [] {
      assert line + more == line;
    } else {
      Keeps(mode, output, line + [more[0]], more[1..]);
      assert line + [more[0]] + more[1..] == line + more;
    }
  }

  lemma KeepsLine(mode: Mode, output: seq<byte>, line: seq<byte>)
    requires NoEnd(line)
    ensures Accept(mode, output, [], line) == Reading(output, line)
  {
    Keeps(mode, output, [], line);
    assert [] + line == line;
  }

  /**
   Two exchanges that get the same bytes, one perhaps reading further than the other, and cut
   into answers and reads in different ways, cannot finish with different results.
  */
  lemma FragmentsDoNotMatter(mode: Mode, a: seq<byte>, b: seq<byte>, x: seq<byte>, y: seq<byte>)
    requires a <= b || b <= a
    requires Accept(mode, [], [], a) == Done(x) && Accept(mode, [], [], b) == Done(y)
    ensures x == y
  {
    if a <= b {
      AcceptConcat(mode, [], [], a, b[|a|..]);
      assert a + b[|a|..] == b;
    } else {
      AcceptConcat(mode, [], [], b, a[|b|..]);
      assert b + a[|b|..] == a;
    }
  }
}
