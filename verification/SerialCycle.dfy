/**
 One exchange with the serial adapter (`CHILD_Cycle`, `CHILD_CheckReplies`,
 `CHILD_SendCanFdFrame`, `CHILD_FlushTransmit`): frames go out in batches, and after each
 batch the replies are counted off per sender. When a poll times out is up to the
 environment, as is how lines are spread over reads.
*/
module SerialCycle {
  import Bytes
  import opened LineProtocol
  import opened LineRoundTrip
  import Padding

  // ------------------------------------------------------------- counting

  /** How many of the frames ask the given device for a reply. */
  function Requested(frames: seq<TxFrame>, id: nat): nat {
    if frames == [] then 0
    else Requested(frames[..|frames| - 1], id) +
         if frames[|frames| - 1].replyRequired && frames[|frames| - 1].destination == id then 1 else 0
  }

  /** How many of the lines are frames from the given device. */
  function Answered(lines: seq<Meaning>, id: nat): nat {
    if lines == [] then 0
    else Answered(lines[..|lines| - 1], id) +
         if lines[|lines| - 1].Received? && lines[|lines| - 1].frame.source == id then 1 else 0
  }

  function Oks(lines: seq<Meaning>): nat {
    if lines == [] then 0 else Oks(lines[..|lines| - 1]) + if lines[|lines| - 1] == Ok then 1 else 0
  }

  function FramesIn(lines: seq<Meaning>): seq<RxFrame> {
    if lines == [] then []
    else FramesIn(lines[..|lines| - 1]) + if lines[|lines| - 1].Received? then [lines[|lines| - 1].frame] else []
  }

  /** Every frame that comes in is collected, in order. */
  lemma {:induction false} FramesInAre(lines: seq<Meaning>, k: nat)
    requires k < |lines| && lines[k].Received?
    ensures var before := |FramesIn(lines[..k])|;
      before < |FramesIn(lines)| && FramesIn(lines)[before] == lines[k].frame
    decreases |lines|
  {
    var last := |lines| - 1;
    if k < last {
      FramesInAre(lines[..last], k);
      assert lines[..last][..k] == lines[..k];
    }
  }

  /** What is still expected from a device: never less than nothing. */
  function Outstanding(frames: seq<TxFrame>, lines: seq<Meaning>, id: nat): nat {
    if Requested(frames, id) > Answered(lines, id) then Requested(frames, id) - Answered(lines, id) else 0
  }

  /** Every expected reply is in, and every frame has been acknowledged. */
  ghost predicate Satisfied(frames: seq<TxFrame>, lines: seq<Meaning>) {
    Oks(lines) >= |frames| && forall id: nat :: Outstanding(frames, lines, id) == 0
  }

  /** One frame is done with once it is acknowledged and, if it wants a reply, its destination has sent one. */
  lemma OneExchange(frame: TxFrame, reply: RxFrame)
    ensures Satisfied([frame], [Ok, Received(reply)]) <==> !frame.replyRequired || reply.source == frame.destination
    ensures !Satisfied([frame], [Received(reply)])
    ensures Satisfied([frame], [Ok]) <==> !frame.replyRequired
  {
    var both := [Ok, Received(reply)];
    assert both[..1] == [Ok] && [Ok][..0] == [] && [Received(reply)][..0] == [] && [frame][..0] == [];
    assert Oks([Ok]) == 1 && Oks(both) == 1 && Oks([Received(reply)]) == 0;
    forall id: nat
      ensures Requested([frame], id) == if frame.replyRequired && frame.destination == id then 1 else 0
      ensures Answered([Ok], id) == 0 && Answered(both, id) == if reply.source == id then 1 else 0
    {
    }
    if frame.replyRequired {
      assert Outstanding([frame], [Ok], frame.destination) == 1;
      assert Outstanding([frame], both, frame.destination) == if reply.source == frame.destination then 0 else 1;
    }
  }

  function Flatten(polls: seq<seq<Meaning>>): seq<Meaning> {
    if polls == [] then [] else Flatten(polls[..|polls| - 1]) + polls[|polls| - 1]
  }

  /** The lines up to the first whose number cannot be read: that one throws, and the cycle is over. */
  function Before(lines: seq<Meaning>): seq<Meaning> {
    if lines == [] || lines[0] == Failure then [] else [lines[0]] + Before(lines[1..])
  }

  lemma {:induction false} BeforeConcat(a: seq<Meaning>, b: seq<Meaning>)
    requires Failure !in a
    ensures Before(a + b) == a + Before(b)
  {
    if a == [] {
      assert a + b == b;
    } else {
      assert (a + b)[1..] == a[1..] + b;
      BeforeConcat(a[1..], b);
    }
  }

  /** The number of polls a batch waits for, having seen the first `k`. */
  ghost function Waited(frames: seq<TxFrame>, polls: seq<seq<Meaning>>, k: nat): (n: nat)
    requires k <= |polls|
    ensures k <= n <= |polls|
    decreases |polls| - k
  {
    if k == |polls| then k
    else if Failure in polls[k] || Satisfied(frames, Flatten(polls[..k + 1])) then k + 1
    else Waited(frames, polls, k + 1)
  }

  /**
   A batch stops waiting at the first poll that satisfies it, at one with a line that throws, or with
   the last read before the time-out.
  */
  lemma {:induction false} WaitedIsFirst(frames: seq<TxFrame>, polls: seq<seq<Meaning>>, k: nat)
    requires k <= |polls|
    ensures var n := Waited(frames, polls, k);
      && (forall j | k < j < n :: !Satisfied(frames, Flatten(polls[..j])))
      && (forall j | k <= j < n - 1 :: Failure !in polls[j])
      && (n < |polls| ==> k < n && (Satisfied(frames, Flatten(polls[..n])) || Failure in polls[n - 1]))
    decreases |polls| - k
  {
    hide Satisfied, Flatten;
    if k < |polls| && Failure !in polls[k] && !Satisfied(frames, Flatten(polls[..k + 1])) {
      WaitedIsFirst(frames, polls, k + 1);
      assert Waited(frames, polls, k) == Waited(frames, polls, k + 1);
    } else if k < |polls| {
      assert Waited(frames, polls, k) == k + 1;
    }
  }

  // ------------------------------------------------------------- order does not matter

  lemma {:induction false} CountsAreMultiset(lines: seq<Meaning>, k: nat, id: nat)
    requires k < |lines|
    ensures var others := lines[..k] + lines[k + 1..];
      && Answered(lines, id)
        == Answered(others, id) + (if lines[k].Received? && lines[k].frame.source == id then 1 else 0)
      && Oks(lines) == Oks(others) + (if lines[k] == Ok then 1 else 0)
    decreases |lines|
  {
    hide Answered, Oks;
    var last := |lines| - 1;
    var others := lines[..k] + lines[k + 1..];
    CountLast(lines, id);
    if k == last {
      assert others == lines[..last];
    } else {
      var shorter := lines[..last];
      CountsAreMultiset(shorter, k, id);
      assert others[..|others| - 1] == shorter[..k] + shorter[k + 1..] && others[|others| - 1] == lines[last];
      CountLast(others, id);
    }
  }

  lemma CountLast(lines: seq<Meaning>, id: nat)
    requires lines != []
    ensures var last := lines[|lines| - 1];
      && Answered(lines, id)
        == Answered(lines[..|lines| - 1], id) + (if last.Received? && last.frame.source == id then 1 else 0)
      && Oks(lines) == Oks(lines[..|lines| - 1]) + (if last == Ok then 1 else 0)
  {
  }

  lemma {:induction false} SameCounts(a: seq<Meaning>, b: seq<Meaning>, id: nat)
    requires multiset(a) == multiset(b)
    ensures Answered(a, id) == Answered(b, id) && Oks(a) == Oks(b)
    decreases |a|
  {
    hide Answered, Oks;
    if a == [] {
      assert |multiset(b)| == 0;
      assert b == [];
    } else {
      var last := |a| - 1;
      assert a[last] in multiset(b);
      var k :| 0 <= k < |b| && b[k] == a[last];
      WithoutOne(a, last);
      WithoutOne(b, k);
      assert a[..last] + a[last + 1..] == a[..last];
      SameCounts(a[..last], b[..k] + b[k + 1..], id);
      CountsAreMultiset(a, last, id);
      CountsAreMultiset(b, k, id);
    }
  }

  lemma WithoutOne(s: seq<Meaning>, k: nat)
    requires k < |s|
    ensures multiset(s[..k] + s[k + 1..]) == multiset(s) - multiset{s[k]}
  {
    assert s == s[..k] + [s[k]] + s[k + 1..];
  }

  /** Whether a batch is done depends only on which lines came in, not on their order. */
  lemma ArrivalOrder(frames: seq<TxFrame>, a: seq<Meaning>, b: seq<Meaning>)
    requires multiset(a) == multiset(b)
    ensures Satisfied(frames, a) <==> Satisfied(frames, b)
  {
    forall id: nat
      ensures Outstanding(frames, a, id) == Outstanding(frames, b, id) && Oks(a) == Oks(b)
    {
      SameCounts(a, b, id);
    }
    SameCounts(a, b, 0);
  }

  // ------------------------------------------------------------- a whole cycle

  function Batch(frames: seq<TxFrame>, start: nat, advance: nat): seq<TxFrame>
    requires start <= |frames|
  {
    if start + advance < |frames| then frames[start..start + advance] else frames[start..]
  }

  /** The lines heard after the batch at `start`. */
  ghost function Heard(frames: seq<TxFrame>, start: nat, advance: nat, arrivals: nat -> seq<seq<Meaning>>): seq<Meaning>
    requires start <= |frames|
  {
    Flatten(arrivals(start)[..Waited(Batch(frames, start, advance), arrivals(start), 0)])
  }

  /** The frames collected from the batch at `start` on. */
  ghost function Collected(frames: seq<TxFrame>, start: nat, advance: nat,
                           arrivals: nat -> seq<seq<Meaning>>): seq<RxFrame>
    requires frames == [] || advance > 0
    decreases |frames| - start
  {
    if start >= |frames| then []
    else
      var heard := Heard(frames, start, advance, arrivals);
      FramesIn(Before(heard)) + if Failure in heard then [] else Collected(frames, start + advance, advance, arrivals)
  }

  /** An error that mentions checksums: from then on lines are sent with one. */
  const WANTS_CHECKSUM: Meaning := Error(true)

  /** What is sent from the batch at `start` on. */
  ghost function Sent(frames: seq<TxFrame>, start: nat, advance: nat, arrivals: nat -> seq<seq<Meaning>>,
                      disableBrs: bool, active: bool): string
    requires (frames == [] || advance > 0) && forall f | f in frames :: |f.data| <= 64
    decreases |frames| - start
  {
    if start >= |frames| then ""
    else
      BatchFollows(frames, start, advance);
      var heard := Heard(frames, start, advance, arrivals);
      Lines(Batch(frames, start, advance), disableBrs, active)
      + if Failure in heard then ""
        else Sent(frames, start + advance, advance, arrivals, disableBrs, active || WANTS_CHECKSUM in heard)
  }

  /** Whether a line that throws is heard from the batch at `start` on. */
  ghost predicate Fails(frames: seq<TxFrame>, start: nat, advance: nat, arrivals: nat -> seq<seq<Meaning>>)
    requires frames == [] || advance > 0
    decreases |frames| - start
  {
    start < |frames| && (Failure in Heard(frames, start, advance, arrivals)
                         || Fails(frames, start + advance, advance, arrivals))
  }

  /** How many frames have been sent when the cycle ends. */
  ghost function SentCount(frames: seq<TxFrame>, start: nat, advance: nat, arrivals: nat -> seq<seq<Meaning>>): (n: nat)
    requires frames == [] || advance > 0
    ensures n <= |frames| && (start <= |frames| ==> start <= n)
    decreases |frames| - start
  {
    if start >= |frames| then |frames|
    else if Failure in Heard(frames, start, advance, arrivals) then Next(frames, start, advance)
    else SentCount(frames, start + advance, advance, arrivals)
  }

  lemma CycleStep(frames: seq<TxFrame>, start: nat, advance: nat, arrivals: nat -> seq<seq<Meaning>>,
                  disableBrs: bool, active: bool)
    requires start < |frames| && advance > 0 && forall f | f in frames :: |f.data| <= 64
    ensures var heard := Heard(frames, start, advance, arrivals);
      var next := start + advance;
      && (forall f | f in Batch(frames, start, advance) :: f in frames)
      && Fails(frames, start, advance, arrivals) == (Failure in heard || Fails(frames, next, advance, arrivals))
      && Collected(frames, start, advance, arrivals)
         == FramesIn(Before(heard)) + (if Failure in heard then [] else Collected(frames, next, advance, arrivals))
      && Sent(frames, start, advance, arrivals, disableBrs, active)
         == Lines(Batch(frames, start, advance), disableBrs, active)
            + (if Failure in heard then ""
               else Sent(frames, next, advance, arrivals, disableBrs, active || WANTS_CHECKSUM in heard))
  {
    hide FramesIn, Lines, Heard, Batch, Before;
    BatchFollows(frames, start, advance);
  }

  lemma CycleEnd(frames: seq<TxFrame>, start: nat, advance: nat, arrivals: nat -> seq<seq<Meaning>>,
                 disableBrs: bool, active: bool)
    requires start >= |frames| && (frames == [] || advance > 0) && forall f | f in frames :: |f.data| <= 64
    ensures Collected(frames, start, advance, arrivals) == [] && !Fails(frames, start, advance, arrivals)
    ensures Sent(frames, start, advance, arrivals, disableBrs, active) == ""
  {
  }

  /** One line for each frame, in order, with a checksum from frame `checked` on. */
  function EachOnce(frames: seq<TxFrame>, disableBrs: bool, checked: nat): string
    requires forall f | f in frames :: |f.data| <= 64
    decreases |frames|
  {
    if frames == [] then ""
    else
      EachOnce(frames[..|frames| - 1], disableBrs, checked)
        + SendLine(frames[|frames| - 1], disableBrs, |frames| > checked)
  }

  lemma {:induction false} OneKind(frames: seq<TxFrame>, batch: seq<TxFrame>, disableBrs: bool, checked: nat,
                                   active: bool)
    requires (forall f | f in frames + batch :: |f.data| <= 64)
      && if active then checked <= |frames| else checked >= |frames + batch|
    ensures (forall f | f in frames :: |f.data| <= 64) && (forall f | f in batch :: |f.data| <= 64)
    ensures EachOnce(frames + batch, disableBrs, checked)
      == EachOnce(frames, disableBrs, checked) + Lines(batch, disableBrs, active)
    decreases |batch|
  {
    hide SendLine;
    assert (forall f | f in frames :: f in frames + batch) && (forall f | f in batch :: f in frames + batch);
    if batch == [] {
      assert frames + batch == frames;
    } else {
      var shorter := batch[..|batch| - 1];
      assert (frames + batch)[..|frames + batch| - 1] == frames + shorter;
      OneKind(frames, shorter, disableBrs, checked, active);
    }
  }

  /** The end of the batch at `start`. */
  function Next(frames: seq<TxFrame>, start: nat, advance: nat): nat {
    if start + advance <= |frames| then start + advance else |frames|
  }

  lemma BatchSent(frames: seq<TxFrame>, start: nat, advance: nat, arrivals: nat -> seq<seq<Meaning>>,
                  disableBrs: bool, checked: nat, active: bool)
    requires start < |frames| && advance > 0 && forall f | f in frames :: |f.data| <= 64
    requires if active then checked <= start else checked >= Next(frames, start, advance)
    ensures (forall f | f in frames[..start] :: |f.data| <= 64)
      && forall f | f in frames[..Next(frames, start, advance)] :: |f.data| <= 64
    ensures var next, heard := Next(frames, start, advance), Heard(frames, start, advance, arrivals);
      EachOnce(frames[..start], disableBrs, checked) + Sent(frames, start, advance, arrivals, disableBrs, active)
      == EachOnce(frames[..next], disableBrs, checked)
         + if Failure in heard then ""
           else Sent(frames, next, advance, arrivals, disableBrs, active || WANTS_CHECKSUM in heard)
  {
    hide Lines, EachOnce, Heard, Batch, Sent;
    var next, heard := Next(frames, start, advance), Heard(frames, start, advance, arrivals);
    BatchFollows(frames, start, advance);
    CycleStep(frames, start, advance, arrivals, disableBrs, active);
    assert (forall f | f in frames[..start] :: f in frames) && forall f | f in frames[..next] :: f in frames;
    OneKind(frames[..start], Batch(frames, start, advance), disableBrs, checked, active);
    SentFromNext(frames, start, advance, arrivals, disableBrs, active || WANTS_CHECKSUM in heard);
    var now, sent := EachOnce(frames[..start], disableBrs, checked),
      Lines(Batch(frames, start, advance), disableBrs, active);
    var rest := if Failure in heard then ""
                else Sent(frames, start + advance, advance, arrivals, disableBrs, active || WANTS_CHECKSUM in heard);
    Regroup(now, sent, rest);
  }

  lemma Regroup(a: string, b: string, c: string)
    ensures a + (b + c) == a + b + c
  {
  }

  /** Past the end nothing is sent, however far. */
  lemma SentFromNext(frames: seq<TxFrame>, start: nat, advance: nat, arrivals: nat -> seq<seq<Meaning>>,
                     disableBrs: bool, active: bool)
    requires start < |frames| && advance > 0 && forall f | f in frames :: |f.data| <= 64
    ensures Sent(frames, start + advance, advance, arrivals, disableBrs, active)
         == Sent(frames, Next(frames, start, advance), advance, arrivals, disableBrs, active)
  {
    hide Sent;
    if start + advance > |frames| {
      CycleEnd(frames, start + advance, advance, arrivals, disableBrs, active);
      CycleEnd(frames, |frames|, advance, arrivals, disableBrs, active);
    }
  }

  lemma CountStep(frames: seq<TxFrame>, start: nat, advance: nat, arrivals: nat -> seq<seq<Meaning>>)
    requires start < |frames| && advance > 0
    ensures var next := Next(frames, start, advance);
      SentCount(frames, start, advance, arrivals)
      == if Failure in Heard(frames, start, advance, arrivals) then next else SentCount(frames, next, advance, arrivals)
    ensures SentCount(frames, |frames|, advance, arrivals) == |frames|
  {
    hide Heard;
  }

  lemma {:induction false} AllChecked(frames: seq<TxFrame>, start: nat, advance: nat,
                                      arrivals: nat -> seq<seq<Meaning>>,
                                      disableBrs: bool, checked: nat)
    requires (frames == [] || advance > 0) && (forall f | f in frames :: |f.data| <= 64) && checked <= start <= |frames|
    ensures var n := SentCount(frames, start, advance, arrivals);
      && (forall f | f in frames[..start] :: |f.data| <= 64) && (forall f | f in frames[..n] :: |f.data| <= 64)
      && EachOnce(frames[..n], disableBrs, checked)
         == EachOnce(frames[..start], disableBrs, checked) + Sent(frames, start, advance, arrivals, disableBrs, true)
    decreases |frames| - start
  {
    hide EachOnce, Heard, Sent, SentCount;
    assert forall n, f | 0 <= n <= |frames| && f in frames[..n] :: f in frames;
    if start == |frames| {
      CycleEnd(frames, start, advance, arrivals, disableBrs, true);
    } else {
      CountStep(frames, start, advance, arrivals);
      BatchSent(frames, start, advance, arrivals, disableBrs, checked, true);
      if Failure !in Heard(frames, start, advance, arrivals) {
        AllChecked(frames, Next(frames, start, advance), advance, arrivals, disableBrs, checked);
      }
    }
  }

  /**
   Whatever arrives, what is sent is one line for each of the first `SentCount` frames, in order, and
   checksums once begun go on.
  */
  lemma {:induction false} EveryFrameOnce(frames: seq<TxFrame>, start: nat, advance: nat,
                                          arrivals: nat -> seq<seq<Meaning>>,
                                          disableBrs: bool)
      returns (checked: nat)
    requires (frames == [] || advance > 0) && (forall f | f in frames :: |f.data| <= 64) && start <= |frames|
    ensures start <= checked <= |frames|
    ensures var n := SentCount(frames, start, advance, arrivals);
      && (forall f | f in frames[..start] :: |f.data| <= 64) && (forall f | f in frames[..n] :: |f.data| <= 64)
      && EachOnce(frames[..n], disableBrs, checked)
         == EachOnce(frames[..start], disableBrs, checked) + Sent(frames, start, advance, arrivals, disableBrs, false)
    decreases |frames| - start
  {
    hide EachOnce, Heard, Sent, SentCount;
    assert forall n, f | 0 <= n <= |frames| && f in frames[..n] :: f in frames;
    if start == |frames| {
      checked := start;
      CycleEnd(frames, start, advance, arrivals, disableBrs, false);
    } else {
      var next, heard := Next(frames, start, advance), Heard(frames, start, advance, arrivals);
      CountStep(frames, start, advance, arrivals);
      if Failure in heard {
        checked := next;
      } else if WANTS_CHECKSUM in heard {
        checked := next;
        AllChecked(frames, next, advance, arrivals, disableBrs, checked);
      } else {
        checked := EveryFrameOnce(frames, next, advance, arrivals, disableBrs);
      }
      BatchSent(frames, start, advance, arrivals, disableBrs, checked, false);
    }
  }

  lemma FollowingMultiple(start: nat, advance: nat)
    requires advance > 0 && start % advance == 0
    ensures (start + advance) % advance == 0
  {
    Bytes.ModUnique(start + advance, advance, start / advance + 1, 0);
  }

  lemma NextMultiple(start: nat, s: nat, advance: nat)
    requires advance > 0 && start % advance == 0 && s % advance == 0 && start < s
    ensures start + advance <= s && (start + advance) % advance == 0
  {
    var p, q := start / advance, s / advance;
    assert start == p * advance && s == q * advance;
    assert advance * (q - p) == s - start;
    Bytes.MulBound(advance, q - p);
    FollowingMultiple(start, advance);
  }

  /** A cycle fails if and only if some batch hears a line that throws. */
  lemma {:induction false} FailsExactly(frames: seq<TxFrame>, start: nat, advance: nat,
                                        arrivals: nat -> seq<seq<Meaning>>)
    requires advance > 0 && start % advance == 0
    ensures Fails(frames, start, advance, arrivals)
       <==> exists s: nat | start <= s < |frames| && s % advance == 0 :: Failure in Heard(frames, s, advance, arrivals)
    decreases |frames| - start
  {
    hide Heard;
    if start < |frames| {
      FollowingMultiple(start, advance);
      FailsExactly(frames, start + advance, advance, arrivals);
      forall s: nat | start < s < |frames| && s % advance == 0
        ensures start + advance <= s
      {
        NextMultiple(start, s, advance);
      }
    }
  }

  /** Every frame is sent if and only if no batch but the last hears a line that throws. */
  lemma {:induction false} AllSentExactly(frames: seq<TxFrame>, start: nat, advance: nat,
                                          arrivals: nat -> seq<seq<Meaning>>)
    requires advance > 0 && start % advance == 0
    ensures SentCount(frames, start, advance, arrivals) == |frames|
       <==> forall s: nat | start <= s && s + advance < |frames| && s % advance == 0 ::
         Failure !in Heard(frames, s, advance, arrivals)
    decreases |frames| - start
  {
    hide Heard;
    if start < |frames| {
      FollowingMultiple(start, advance);
      AllSentExactly(frames, start + advance, advance, arrivals);
      forall s: nat | start < s && s % advance == 0
        ensures start + advance <= s
      {
        NextMultiple(start, s, advance);
      }
    }
  }

  /** How many frames a cycle sends: none after a stale line that throws. */
  ghost function FramesSent(frames: seq<TxFrame>, stale: seq<Meaning>, advance: nat,
                            arrivals: nat -> seq<seq<Meaning>>): nat
    requires advance > 0
  {
    if Failure in stale then 0 else SentCount(frames, 0, advance, arrivals)
  }

  /**
   A cycle sends every frame if and only if no stale line throws, and none that is heard before the
   last batch.
  */
  lemma EveryFrameSent(frames: seq<TxFrame>, stale: seq<Meaning>, advance: nat, arrivals: nat -> seq<seq<Meaning>>)
    requires advance > 0 && frames != []
    ensures FramesSent(frames, stale, advance, arrivals) == |frames|
       <==> Failure !in stale
            && forall s: nat | s + advance < |frames| && s % advance == 0 ::
              Failure !in Heard(frames, s, advance, arrivals)
  {
    hide Heard, SentCount;
    AllSentExactly(frames, 0, advance, arrivals);
  }

  /** Two frames sent one by one: a line that throws after the first keeps the second from being sent. */
  lemma NoisyLineStops(frames: seq<TxFrame>, arrivals: nat -> seq<seq<Meaning>>)
    requires |frames| == 2 && arrivals(0) == [[Failure]]
    ensures SentCount(frames, 0, 1, arrivals) == 1 && Fails(frames, 0, 1, arrivals)
      && Collected(frames, 0, 1, arrivals) == []
  {
    hide Satisfied;
    assert arrivals(0)[..1] == [[Failure]] && [[Failure]][..0] == [];
    assert Flatten([[Failure]]) == Flatten([]) + [Failure];
    assert Heard(frames, 0, 1, arrivals) == [Failure];
  }

  function Lines(frames: seq<TxFrame>, disableBrs: bool, active: bool): string
    requires forall f | f in frames :: |f.data| <= 64
  {
    if frames == [] then ""
    else Lines(frames[..|frames| - 1], disableBrs, active) + SendLine(frames[|frames| - 1], disableBrs, active)
  }

  lemma LinesStep(frames: seq<TxFrame>, i: nat, disableBrs: bool, active: bool)
    requires i < |frames| && forall f | f in frames :: |f.data| <= 64
    ensures Lines(frames[..i + 1], disableBrs, active)
      == Lines(frames[..i], disableBrs, active) + SendLine(frames[i], disableBrs, active)
  {
    hide SendLine;
    assert frames[..i + 1][..i] == frames[..i];
  }

  const TX_CAPACITY: nat := 4096

  class Transport {
    const maxPipeline: int
    const disableBrs: bool
    var active: bool
    var expected: seq<nat>
    var replies: seq<RxFrame>
    const txBuffer: array<char>
    var txSize: nat
    /** Everything the file descriptor has taken. */
    var written: string

    constructor (maxPipeline: int, disableBrs: bool, active: bool)
      ensures Valid() && fresh(txBuffer) && replies == [] && written == "" && txSize == 0
      ensures this.maxPipeline == maxPipeline && this.disableBrs == disableBrs && this.active == active
    {
      this.maxPipeline, this.disableBrs, this.active := maxPipeline, disableBrs, active;
      expected, replies, written, txSize := [], [], "", 0;
      txBuffer := new char[TX_CAPACITY];
    }

    ghost predicate Valid()
      reads this
    {
      txBuffer.Length == TX_CAPACITY && txSize <= TX_CAPACITY
    }

    /** What has been sent, whether or not it is still in the buffer. */
    ghost function Output(): string
      requires Valid()
      reads this, txBuffer
    {
      written + txBuffer[..txSize]
    }

    ghost predicate Expects(frames: seq<TxFrame>, lines: seq<Meaning>)
      reads this`expected
    {
      && (forall id | 0 <= id < |expected| :: expected[id] == Outstanding(frames, lines, id))
      && (forall id: nat | id >= |expected| :: Requested(frames, id) == 0)
    }

    method Send(frame: TxFrame)
      requires Valid() && |frame.data| <= 64
      modifies this`txSize, this`written, txBuffer
      ensures Valid() && Output() == old(Output()) + SendLine(frame, disableBrs, active)
    {
      hide SendLine;
      var line := SendLine(frame, disableBrs, active);
      LineFits(frame, disableBrs, active);
      if |line| > TX_CAPACITY - txSize {
        Flush();
      }
      ghost var before := Output();
      forall k | 0 <= k < |line| {
        txBuffer[txSize + k] := line[k];
      }
      txSize := txSize + |line|;
      assert Output() == before + line;
    }

    method Flush()
      requires Valid()
      modifies this`txSize, this`written
      ensures Valid() && txSize == 0 && Output() == old(Output()) == written
    {
      written, txSize := written + txBuffer[..txSize], 0;
    }

    /** One line, counted off against its sender. */
    method Note(meaning: Meaning, ghost frames: seq<TxFrame>, ghost lines: seq<Meaning>) returns (ok: nat)
      requires Expects(frames, lines) && meaning != Failure
      modifies this`expected, this`replies, this`active
      ensures Expects(frames, lines + [meaning]) && replies == old(replies) + FramesIn([meaning])
      ensures active == (old(active) || meaning == WANTS_CHECKSUM)
      ensures ok == if meaning == Ok then 1 else 0
    {
      hide Requested;
      ghost var more := lines + [meaning];
      assert more[..|more| - 1] == lines && [meaning][..0] == [];
      assert FramesIn([]) == [];
      ok := if meaning == Ok then 1 else 0;
      if meaning == WANTS_CHECKSUM {
        active := true;
      }
      if meaning.Received? {
        var source := meaning.frame.source;
        if source < |expected| {
          expected := expected[source := if expected[source] > 0 then expected[source] - 1 else 0];
        }
        replies := replies + [meaning.frame];
      }
    }

    method AnyExpected() returns (any: bool)
      ensures any <==> exists id | 0 <= id < |expected| :: expected[id] != 0
    {
      for i := 0 to |expected|
        invariant forall id | 0 <= id < i :: expected[id] == 0
      {
        if expected[i] != 0 {
          return true;
        }
      }
      return false;
    }

    /** Waits for the replies of one batch; the environment's polls end with a time-out. */
    method CheckReplies(ghost frames: seq<TxFrame>, expectedOk: nat, polls: seq<seq<Meaning>>) returns (failed: bool)
      requires expectedOk == |frames| && Expects(frames, [])
      modifies this`expected, this`replies, this`active
      ensures var heard := Flatten(polls[..Waited(frames, polls, 0)]);
        failed == (Failure in heard) && HasSeen(frames, Before(heard), old(replies), old(active))
    {
      hide Expects, FramesIn, Oks, Before, Satisfied, Flatten, Waited;
      var ok := 0;
      var k := 0;
      NothingSeen();
      assert polls[..0] == [];
      assert HasSeen(frames, [], old(replies), old(active));
      while k < |polls|
        invariant k <= |polls| && Waited(frames, polls, 0) == Waited(frames, polls, k)
        invariant Failure !in Flatten(polls[..k]) && ok == Oks(Flatten(polls[..k]))
        invariant HasSeen(frames, Flatten(polls[..k]), old(replies), old(active))
      {
        ghost var seen := Flatten(polls[..k]);
        var count, thrown := ConsumeLines(polls[k], frames, seen);
        PollStep(frames, polls, k);
        OksConcat(seen, Before(polls[k]));
        FramesConcat(seen, Before(polls[k]));
        BeforeConcat(seen, polls[k]);
        if thrown {
          return true;
        }
        NothingThrown(polls[k]);
        ok := ok + count;
        k := k + 1;
        var any := AnyExpected();
        SatisfiedWhenCounted(frames, Flatten(polls[..k]), any);
        if !any && ok >= expectedOk {
          NothingThrown(Flatten(polls[..k]));
          return false;
        }
      }
      WaitedToEnd(frames, polls);
      NothingThrown(Flatten(polls[..k]));
      return false;
    }

    /** Expected counts, collected replies and the checksum mode are those of the lines seen. */
    ghost predicate HasSeen(frames: seq<TxFrame>, seen: seq<Meaning>, replies: seq<RxFrame>, active: bool)
      reads this`expected, this`replies, this`active
    {
      Expects(frames, seen) && this.replies == replies + FramesIn(seen)
        && this.active == (active || WANTS_CHECKSUM in seen)
    }

    /** `Satisfied` is what the early return tests. */
    lemma SatisfiedWhenCounted(frames: seq<TxFrame>, lines: seq<Meaning>, any: bool)
      requires Expects(frames, lines) && (any <==> exists id | 0 <= id < |expected| :: expected[id] != 0)
      ensures Satisfied(frames, lines) <==> !any && Oks(lines) >= |frames|
    {
      hide Requested, Answered, Oks;
      if any {
        var id :| 0 <= id < |expected| && expected[id] != 0;
        assert Outstanding(frames, lines, id) != 0;
      } else {
        forall id: nat
          ensures Outstanding(frames, lines, id) == 0
        {
          if id < |expected| {
            assert expected[id] == 0;
          }
        }
      }
    }

    method ConsumeLines(lines: seq<Meaning>, ghost frames: seq<TxFrame>,
                        ghost seen: seq<Meaning>) returns (ok: nat, failed: bool)
      requires Expects(frames, seen)
      modifies this`expected, this`replies, this`active
      ensures failed == (Failure in lines) && ok == Oks(Before(lines))
      ensures Expects(frames, seen + Before(lines)) && replies == old(replies) + FramesIn(Before(lines))
      ensures active == (old(active) || WANTS_CHECKSUM in Before(lines))
    {
      hide Requested, Answered, Outstanding, Before;
      ok := 0;
      assert seen + lines[..0] == seen && FramesIn([]) == [];
      for i := 0 to |lines|
        invariant Failure !in lines[..i]
        invariant Expects(frames, seen + lines[..i])
        invariant replies == old(replies) + FramesIn(lines[..i]) && ok == Oks(lines[..i])
        invariant active == (old(active) || WANTS_CHECKSUM in lines[..i])
      {
        if lines[i] == Failure {
          StopsAt(lines, i);
          return ok, true;
        }
        var one := Note(lines[i], frames, seen + lines[..i]);
        ok := ok + one;
        assert seen + lines[..i] + [lines[i]] == seen + lines[..i + 1];
        assert lines[..i + 1][..i] == lines[..i];
        assert FramesIn([lines[i]]) == FramesIn([]) + if lines[i].Received? then [lines[i].frame] else [];
      }
      assert lines[..|lines|] == lines;
      NothingThrown(lines);
      return ok, false;
    }

    lemma NothingExpected()
      requires forall id | 0 <= id < |expected| :: expected[id] == 0
      ensures Expects([], [])
    {
    }

    lemma NoReplyExpected(frame: TxFrame, frames: seq<TxFrame>)
      requires Expects(frames, []) && !frame.replyRequired
      ensures Expects(frames + [frame], [])
    {
      hide Requested;
      RequestedStep(frames, frame);
    }

    method Expect(frame: TxFrame, ghost frames: seq<TxFrame>)
      requires Expects(frames, []) && frame.replyRequired
      modifies this`expected
      ensures Expects(frames + [frame], [])
    {
      hide Requested;
      RequestedStep(frames, frame);
      if frame.destination + 1 > |expected| {
        expected := expected + seq(frame.destination + 1 - |expected|, _ => 0);
      }
      assert Expects(frames, []);
      expected := expected[frame.destination := expected[frame.destination] + 1];
    }

    /** Sends one batch and says what is expected back. */
    method SendBatch(frames: seq<TxFrame>) returns (expectedOk: nat)
      requires Valid() && forall f | f in frames :: |f.data| <= 64
      modifies this`expected, this`txSize, this`written, txBuffer
      ensures Valid() && expectedOk == |frames| && Expects(frames, [])
      ensures Output() == old(Output()) + Lines(frames, disableBrs, active)
    {
      hide SendLine, Lines, Expects;
      expectedOk := 0;
      expected := seq(|expected|, _ => 0);
      NothingExpected();
      LinesNone(disableBrs, active);
      for i := 0 to |frames|
        invariant Valid() && expectedOk == i && Expects(frames[..i], [])
        invariant Output() == old(Output()) + Lines(frames[..i], disableBrs, active)
      {
        var frame := frames[i];
        expectedOk := expectedOk + 1;
        Send(frame);
        LinesStep(frames, i, disableBrs, active);
        if frame.replyRequired {
          Expect(frame, frames[..i]);
        } else {
          NoReplyExpected(frame, frames[..i]);
        }
        assert frames[..i] + [frame] == frames[..i + 1];
      }
      assert frames[..|frames|] == frames;
    }

    /** One batch: after it, every device is expected to send exactly what it has not sent yet. */
    method RunBatch(frames: seq<TxFrame>, polls: seq<seq<Meaning>>) returns (failed: bool)
      requires Valid() && forall f | f in frames :: |f.data| <= 64
      modifies this`expected, this`replies, this`active, this`txSize, this`written, txBuffer
      ensures Valid() && txSize == 0 && written == old(Output()) + Lines(frames, disableBrs, old(active))
      ensures var heard := Flatten(polls[..Waited(frames, polls, 0)]);
        failed == (Failure in heard) && HasSeen(frames, Before(heard), old(replies), old(active))
    {
      var expectedOk := SendBatch(frames);
      Flush();
      failed := CheckReplies(frames, expectedOk, polls);
    }

    /** Lines left over from before a cycle are dropped, but an error among them still turns checksums on. */
    method DropStale(stale: seq<Meaning>) returns (failed: bool)
      modifies this`active
      ensures failed == (Failure in stale) && active == (old(active) || WANTS_CHECKSUM in Before(stale))
    {
      hide Before;
      for i := 0 to |stale|
        invariant Failure !in stale[..i] && active == (old(active) || WANTS_CHECKSUM in stale[..i])
      {
        if stale[i] == Failure {
          StopsAt(stale, i);
          return true;
        }
        if stale[i] == WANTS_CHECKSUM {
          active := true;
        }
      }
      assert stale[..|stale|] == stale;
      NothingThrown(stale);
      return false;
    }

    /**
     Batch after batch is written, in order, and its replies are collected until it is satisfied. A
     line whose number cannot be read, stale or heard after a batch, throws: the cycle fails there.
    */
    method Cycle(frames: seq<TxFrame>, stale: seq<Meaning>, arrivals: nat -> seq<seq<Meaning>>) returns (failed: bool)
      requires Valid() && txSize == 0 && maxPipeline != 0 && forall f | f in frames :: |f.data| <= 64
      modifies this`expected, this`replies, this`active, this`txSize, this`written, txBuffer
      ensures Valid() && txSize == 0
      ensures Failure in stale ==> failed && written == old(written) && replies == []
      ensures Failure !in stale ==>
        var advance := if maxPipeline < 0 then |frames| else maxPipeline;
        && failed == Fails(frames, 0, advance, arrivals)
        && written == old(written)
          + Sent(frames, 0, advance, arrivals, disableBrs, old(active) || WANTS_CHECKSUM in stale)
        && replies == Collected(frames, 0, advance, arrivals)
    {
      hide Sent, FramesIn, Lines, Batch, Collected, Expects, Before, Fails, Flatten, Waited, OnCourse;
      replies := [];
      failed := DropStale(stale);
      if failed {
        return;
      }
      NothingThrown(stale);
      ghost var checked := active;
      var advance := if maxPipeline < 0 then |frames| else maxPipeline;
      var start := 0;
      CourseBegins(frames, advance, arrivals, disableBrs, active, written);
      while start < |frames|
        invariant Valid() && txSize == 0
        invariant OnCourse(frames, start, advance, arrivals, disableBrs, checked, old(written), active, written,
                           replies)
        decreases |frames| - start
      {
        BatchFollows(frames, start, advance);
        ghost var before, had, wasActive := written, replies, active;
        assert Output() == before;
        failed := RunBatch(Batch(frames, start, advance), arrivals(start));
        StaysOnCourse(frames, start, advance, arrivals, disableBrs, checked, old(written), wasActive, before, had);
        if failed {
          return;
        }
        assert replies == had + FramesIn(Heard(frames, start, advance, arrivals));
        start := start + advance;
      }
      CourseEnds(frames, start, advance, arrivals, disableBrs, checked, old(written), active, written, replies);
    }
  }

  /** What is still to be sent and collected makes up the whole cycle, with what was. */
  ghost predicate OnCourse(frames: seq<TxFrame>, start: nat, advance: nat, arrivals: nat -> seq<seq<Meaning>>,
                           disableBrs: bool, checked: bool, was: string,
                           active: bool, written: string, replies: seq<RxFrame>)
    requires (frames == [] || advance > 0) && forall f | f in frames :: |f.data| <= 64
  {
    && Fails(frames, start, advance, arrivals) == Fails(frames, 0, advance, arrivals)
    && written + Sent(frames, start, advance, arrivals, disableBrs, active)
       == was + Sent(frames, 0, advance, arrivals, disableBrs, checked)
    && replies + Collected(frames, start, advance, arrivals) == Collected(frames, 0, advance, arrivals)
  }

  lemma CourseBegins(frames: seq<TxFrame>, advance: nat, arrivals: nat -> seq<seq<Meaning>>,
                     disableBrs: bool, active: bool, written: string)
    requires (frames == [] || advance > 0) && forall f | f in frames :: |f.data| <= 64
    ensures OnCourse(frames, 0, advance, arrivals, disableBrs, active, written, active, written, [])
  {
    hide Sent, Collected, Fails;
  }

  /** One batch, whether or not it ends the cycle. */
  lemma StaysOnCourse(frames: seq<TxFrame>, start: nat, advance: nat, arrivals: nat -> seq<seq<Meaning>>,
                      disableBrs: bool, checked: bool, was: string,
                      active: bool, written: string, replies: seq<RxFrame>)
    requires start < |frames| && advance > 0 && forall f | f in frames :: |f.data| <= 64
    requires OnCourse(frames, start, advance, arrivals, disableBrs, checked, was, active, written, replies)
    requires forall f | f in Batch(frames, start, advance) :: |f.data| <= 64
    ensures var heard := Heard(frames, start, advance, arrivals);
      var sent := written + Lines(Batch(frames, start, advance), disableBrs, active);
      var got := replies + FramesIn(Before(heard));
      if Failure in heard then
        && Fails(frames, 0, advance, arrivals)
        && sent == was + Sent(frames, 0, advance, arrivals, disableBrs, checked)
        && got == Collected(frames, 0, advance, arrivals)
      else
        && Before(heard) == heard
        && OnCourse(frames, start + advance, advance, arrivals, disableBrs, checked, was,
                    active || WANTS_CHECKSUM in heard, sent, got)
  {
    hide Sent, FramesIn, Lines, Batch, Collected, Before, Fails, Heard;
    var heard := Heard(frames, start, advance, arrivals);
    CycleStep(frames, start, advance, arrivals, disableBrs, active);
    if Failure !in heard {
      NothingThrown(heard);
    } else {
      var lines, collected := Lines(Batch(frames, start, advance), disableBrs, active), FramesIn(Before(heard));
      assert lines + "" == lines && collected + [] == collected;
    }
  }

  lemma CourseEnds(frames: seq<TxFrame>, start: nat, advance: nat, arrivals: nat -> seq<seq<Meaning>>,
                   disableBrs: bool, checked: bool, was: string,
                   active: bool, written: string, replies: seq<RxFrame>)
    requires start >= |frames| && (frames == [] || advance > 0) && forall f | f in frames :: |f.data| <= 64
    requires OnCourse(frames, start, advance, arrivals, disableBrs, checked, was, active, written, replies)
    ensures !Fails(frames, 0, advance, arrivals)
    ensures written == was + Sent(frames, 0, advance, arrivals, disableBrs, checked)
    ensures replies == Collected(frames, 0, advance, arrivals)
  {
    hide Sent, Collected, Fails;
    CycleEnd(frames, start, advance, arrivals, disableBrs, active);
    assert written + "" == written && replies + [] == replies;
  }

  lemma NothingThrown(lines: seq<Meaning>)
    requires Failure !in lines
    ensures Before(lines) == lines
  {
    BeforeConcat(lines, []);
    assert lines + [] == lines;
  }

  lemma StopsAt(lines: seq<Meaning>, i: nat)
    requires i < |lines| && Failure !in lines[..i] && lines[i] == Failure
    ensures Before(lines) == lines[..i]
  {
    BeforeConcat(lines[..i], lines[i..]);
    assert lines == lines[..i] + lines[i..] && lines[..i] + [] == lines[..i];
  }

  lemma BatchFollows(frames: seq<TxFrame>, start: nat, advance: nat)
    requires start <= |frames|
    ensures frames[..start] + Batch(frames, start, advance)
         == frames[..if start + advance <= |frames| then start + advance else |frames|]
    ensures forall f | f in Batch(frames, start, advance) :: f in frames
  {
  }

  lemma RequestedStep(frames: seq<TxFrame>, frame: TxFrame)
    ensures forall id: nat ::
      Requested(frames + [frame], id)
      == Requested(frames, id) + if frame.replyRequired && frame.destination == id then 1 else 0
  {
    assert (frames + [frame])[..|frames|] == frames;
  }

  /** One more poll: what has been heard, and whether the wait goes on. */
  lemma PollStep(frames: seq<TxFrame>, polls: seq<seq<Meaning>>, k: nat)
    requires k < |polls|
    ensures Flatten(polls[..k + 1]) == Flatten(polls[..k]) + polls[k]
    ensures Waited(frames, polls, k) ==
      if Failure in polls[k] || Satisfied(frames, Flatten(polls[..k + 1])) then k + 1 else Waited(frames, polls, k + 1)
  {
    hide Satisfied;
    assert polls[..k + 1][..k] == polls[..k];
  }

  lemma WaitedToEnd(frames: seq<TxFrame>, polls: seq<seq<Meaning>>)
    ensures Waited(frames, polls, |polls|) == |polls|
  {
  }

  lemma NothingSeen()
    ensures Flatten([]) == [] && FramesIn([]) == [] && Oks([]) == 0
  {
  }

  lemma LinesNone(disableBrs: bool, active: bool)
    ensures Lines([], disableBrs, active) == ""
  {
  }

  lemma {:induction false} OksConcat(a: seq<Meaning>, b: seq<Meaning>)
    ensures Oks(a + b) == Oks(a) + Oks(b)
    decreases |b|
  {
    if b == [] {
      assert a + b == a;
    } else {
      assert (a + b)[..|a + b| - 1] == a + b[..|b| - 1];
      OksConcat(a, b[..|b| - 1]);
    }
  }

  lemma {:induction false} FramesConcat(a: seq<Meaning>, b: seq<Meaning>)
    ensures FramesIn(a + b) == FramesIn(a) + FramesIn(b)
    decreases |b|
  {
    if b == [] {
      assert a + b == a;
    } else {
      assert (a + b)[..|a + b| - 1] == a + b[..|b| - 1];
      FramesConcat(a, b[..|b| - 1]);
    }
  }

  // ------------------------------------------------------------- a line fits

  lemma {:induction false} HexLength(n: nat, digits: nat)
    requires digits >= 1 && n < Pow16(digits)
    ensures |Hex(n)| <= digits
  {
    if n >= 16 {
      HexLength(n / 16, digits - 1);
    }
  }

  function Pow16(n: nat): (r: nat)
    ensures r >= 1
  {
    if n == 0 then 1 else 16 * Pow16(n - 1)
  }

  lemma LineFits(frame: TxFrame, disableBrs: bool, active: bool)
    requires |frame.data| <= 64
    ensures |SendLine(frame, disableBrs, active)| <= 160
  {
    hide Hex, HexBytes, Checksum, Padding.Padded;
    assert Pow16(8) == 0x1_0000_0000 by {
      assert Pow16(2) == 0x100 && Pow16(4) == 0x1_0000 && Pow16(6) == 0x100_0000;
    }
    HexLength(frame.id, 8);
    PaddedLength(frame.data);
    BytesBack(Padding.Padded(frame.data));
  }
}
