/**
 The receive side of the serial transport: a fixed buffer filled by reads of any size,
 from which complete lines are taken off the front (`CHILD_ConsumeData`,
 `CHILD_ConsumeLines`, `CHILD_ConsumeLine`).
*/
module LineBuffer {
  const CAPACITY: nat := 4096

  predicate IsEnd(c: char) {
    c == '\r' || c == '\n'
  }

  predicate NoEnd(s: string) {
    forall k | 0 <= k < |s| :: !IsEnd(s[k])
  }

  // ------------------------------------------------------------- character by character

  /** The lines completed by `input`, and the unfinished line; a line of `CAPACITY` characters is dropped. */
  function Feed(line: string, input: string): (r: (seq<string>, string))
    decreases |input|
  {
    if input == [] then ([], line)
    else if IsEnd(input[0]) then
      var (lines, rest) := Feed([], input[1..]);
      ([line] + lines, rest)
    else
      var longer := line + [input[0]];
      Feed(if |longer| == CAPACITY then [] else longer, input[1..])
  }

  /** The same without a limit: the input cut at every carriage return or line feed. */
  function Split(line: string, input: string): (r: (seq<string>, string))
    decreases |input|
  {
    if input == [] then ([], line)
    else if IsEnd(input[0]) then
      var (lines, rest) := Split([], input[1..]);
      ([line] + lines, rest)
    else Split(line + [input[0]], input[1..])
  }

  lemma {:induction false} FeedConcat(line: string, a: string, b: string)
    ensures var (first, middle) := Feed(line, a);
      var (second, last) := Feed(middle, b);
      Feed(line, a + b) == (first + second, last)
    decreases |a|
  {
    if a == [] {
      assert a + b == b && [] + Feed(line, b).0 == Feed(line, b).0;
    } else {
      assert (a + b)[1..] == a[1..] + b;
      if IsEnd(a[0]) {
        FeedConcat([], a[1..], b);
        var (first, middle) := Feed([], a[1..]);
        assert [line] + (first + Feed(middle, b).0) == [line] + first + Feed(middle, b).0;
      } else {
        var longer := line + [a[0]];
        FeedConcat(if |longer| == CAPACITY then [] else longer, a[1..], b);
      }
    }
  }

  /** Characters that complete no line and fill no buffer are just kept. */
  lemma {:induction false} FeedKeeps(line: string, input: string)
    requires NoEnd(input) && |line + input| < CAPACITY
    ensures Feed(line, input) == ([], line + input)
    decreases |input|
  {
    if input == [] {
      assert line + input == line;
    } else {
      FeedKeeps(line + [input[0]], input[1..]);
      assert line + [input[0]] + input[1..] == line + input;
    }
  }

  /** What is fed at a buffer's worth, seen from the buffer. */
  lemma FeedBuffer(s: string, e: nat)
    requires |s| <= CAPACITY && e <= |s| && NoEnd(s[..e]) && (e < |s| ==> IsEnd(s[e]))
    ensures e < |s| ==> Feed([], s) == ([s[..e]] + Feed([], s[e + 1..]).0, Feed([], s[e + 1..]).1)
    ensures e == |s| < CAPACITY ==> Feed([], s) == ([], s)
    ensures e == |s| == CAPACITY ==> Feed([], s) == ([], [])
  {
    if e < |s| {
      FeedAfter(s[..e], s[e..]);
      assert s == s[..e] + s[e..] && s[e..][1..] == s[e + 1..];
    } else if |s| < CAPACITY {
      FeedAfter(s, []);
      assert s + [] == s;
    } else {
      var most, last := s[..CAPACITY - 1], [s[CAPACITY - 1]];
      FeedAfter(most, last);
      assert s == most + last && last[1..] == [];
    }
  }

  lemma FeedAfter(kept: string, more: string)
    requires NoEnd(kept) && |kept| < CAPACITY
    ensures Feed([], kept + more) == Feed(kept, more)
  {
    FeedKeeps([], kept);
    assert [] + kept == kept && [] + Feed(kept, more).0 == Feed(kept, more).0;
    FeedConcat([], kept, more);
  }

  predicate AllShort(lines: seq<string>, rest: string) {
    |rest| < CAPACITY && forall k | 0 <= k < |lines| :: |lines[k]| < CAPACITY
  }

  lemma {:induction false} FeedIsShort(line: string, input: string)
    requires |line| < CAPACITY && NoEnd(line)
    ensures AllShort(Feed(line, input).0, Feed(line, input).1) && NoEnd(Feed(line, input).1)
    decreases |input|
  {
    if input != [] {
      var longer := line + [input[0]];
      FeedIsShort(if IsEnd(input[0]) || |longer| == CAPACITY then [] else longer, input[1..]);
    }
  }

  lemma {:induction false} ShortIsFed(line: string, input: string)
    requires |line| < CAPACITY && AllShort(Split(line, input).0, Split(line, input).1)
    ensures Feed(line, input) == Split(line, input)
    decreases |input|
  {
    if input != [] {
      if IsEnd(input[0]) {
        var (lines, rest) := Split([], input[1..]);
        assert ([line] + lines)[1..] == lines;
        ShortIsFed([], input[1..]);
      } else {
        SplitGrows(line + [input[0]], input[1..]);
        ShortIsFed(line + [input[0]], input[1..]);
      }
    }
  }

  /** The unfinished line at the start is part of the first line or of the rest. */
  lemma {:induction false} SplitGrows(line: string, input: string)
    ensures AllShort(Split(line, input).0, Split(line, input).1) ==> |line| < CAPACITY
    decreases |input|
  {
    if input != [] {
      if IsEnd(input[0]) {
        assert Split(line, input).0[0] == line;
      } else {
        SplitGrows(line + [input[0]], input[1..]);
      }
    }
  }

  /** The buffer delivers exactly the lines of the stream if and only if none of them fills it. */
  lemma DeliversAllLines(stream: string)
    ensures Feed([], stream) == Split([], stream) <==> AllShort(Split([], stream).0, Split([], stream).1)
  {
    FeedIsShort([], stream);
    if AllShort(Split([], stream).0, Split([], stream).1) {
      ShortIsFed([], stream);
    }
  }

  lemma EndOfLine(line: string)
    ensures Feed(line, "\n") == ([line], "") && Split(line, "\n") == ([line], "")
  {
    var end := "\n";
    var none: seq<string> := [];
    assert end[1..] == [] && [line] + none == [line];
    assert Feed([], []) == (none, []) && Split([], []) == (none, []);
  }

  lemma {:induction false} SplitKeeps(line: string, input: string)
    requires NoEnd(input)
    ensures Split(line, input + "\n") == ([line + input], "")
    decreases |input|
  {
    if input == "" {
      assert input + "\n" == "\n" && line + input == line;
      EndOfLine(line);
    } else {
      assert (input + "\n")[1..] == input[1..] + "\n" && line + [input[0]] + input[1..] == line + input;
      SplitKeeps(line + [input[0]], input[1..]);
    }
  }

  /** One character: a carriage return or line feed ends the line, any other is kept, and the 4096th drops it. */
  lemma OneCharacter(line: string, c: char)
    requires |line| < 4096
    ensures Feed(line, [c]) ==
      if c == '\r' || c == '\n' then ([line], "")
      else if |line| == 4095 then ([], "")
      else ([], line + [c])
  {
    var none: seq<string> := [];
    assert [c][1..] == [] && [line] + none == [line];
    assert forall kept :: Feed(kept, []) == (none, kept);
  }

  /** A line of 4096 characters comes out empty. */
  lemma LongLineIsLost()
    ensures var line := seq(4096, _ => 'x');
      Split([], line + "\n") == ([line], "") && Feed([], line + "\n") == ([""], "")
  {
    var line := seq(CAPACITY, _ => 'x');
    SplitKeeps("", line);
    assert "" + line == line;
    FeedBuffer(line, CAPACITY);
    FeedConcat("", line, "\n");
    EndOfLine("");
    assert [] + [""] == [""];
  }

  // ------------------------------------------------------------- the buffer

  class Receiver {
    const buffer: array<char>
    var pos: nat
    /** Everything read so far, and every line handed on so far. */
    ghost var stream: string
    ghost var delivered: seq<string>

    constructor ()
      ensures Valid() && fresh(buffer) && stream == [] && delivered == []
    {
      buffer := new char[CAPACITY];
      pos, stream, delivered := 0, [], [];
    }

    ghost predicate Valid()
      reads this, buffer
    {
      && buffer.Length == CAPACITY && pos < CAPACITY
      && NoEnd(buffer[..pos])
      && Feed([], stream) == (delivered, buffer[..pos])
    }

    /** One `read`, of any size that fits, and the lines it completes. */
    method ConsumeData(chunk: string) returns (lines: seq<string>)
      requires Valid() && |chunk| <= CAPACITY - pos
      modifies this, buffer
      ensures Valid() && stream == old(stream) + chunk && delivered == old(delivered) + lines
    {
      hide Feed;
      ghost var before := buffer[..pos];
      forall k | 0 <= k < |chunk| {
        buffer[pos + k] := chunk[k];
      }
      pos := pos + |chunk|;
      ghost var all := buffer[..pos];
      assert all == before + chunk;
      ghost var (fed, rest) := Feed([], all);
      assert Feed([], stream + chunk) == (delivered + fed, rest) by {
        FeedConcat([], stream, chunk);
        FeedAfter(before, chunk);
      }
      lines := [];
      assert [] + fed == fed;
      while true
        invariant buffer.Length == CAPACITY && pos <= CAPACITY
        invariant (fed, rest) == (lines + Feed([], buffer[..pos]).0, Feed([], buffer[..pos]).1)
        invariant stream == old(stream) && delivered == old(delivered)
        decreases pos
      {
        ghost var held := buffer[..pos];
        var found, line := ConsumeLine();
        if !found {
          FeedBuffer(held, pos);
          break;
        }
        FeedBuffer(held, |line|);
        assert lines + ([line] + Feed([], buffer[..pos]).0) == lines + [line] + Feed([], buffer[..pos]).0;
        lines := lines + [line];
      }
      stream, delivered := stream + chunk, delivered + lines;
      if pos >= CAPACITY {
        // The line buffer is overrun: drop everything.
        pos := 0;
      }
      assert buffer[..pos] == rest && fed == lines + [] == lines;
      assert Feed([], stream) == (old(delivered) + fed, rest);
    }

    /** Takes the first complete line off the buffer. */
    method ConsumeLine() returns (found: bool, line: string)
      requires buffer.Length == CAPACITY && pos <= CAPACITY
      modifies this`pos, buffer
      ensures pos <= old(pos)
      ensures !found ==> pos == old(pos) && buffer[..pos] == old(buffer[..pos]) && NoEnd(buffer[..pos])
      ensures found ==> |line| < old(pos) && pos == old(pos) - |line| - 1
      ensures found ==> var held := old(buffer[..pos]);
        NoEnd(line) && line == held[..|line|] && IsEnd(held[|line|]) && buffer[..pos] == held[|line| + 1..]
    {
      var end := 0;
      while end < pos && !IsEnd(buffer[end])
        invariant end <= pos && NoEnd(buffer[..end])
      {
        end := end + 1;
      }
      if end == pos {
        return false, [];
      }
      found, line := true, buffer[..end];
      ghost var held := buffer[..pos];
      pos := pos - end - 1;
      // memmove
      forall k | 0 <= k < pos {
        buffer[k] := buffer[end + 1 + k];
      }
      assert buffer[..pos] == held[end + 1..];
    }
  }

  /** However the stream is cut into reads, the same lines come out. */
  lemma {:induction false} CutsDoNotMatter(line: string, chunks: seq<string>)
    ensures FeedAll(line, chunks) == Feed(line, Concat(chunks))
    decreases |chunks|
  {
    if chunks != [] {
      FeedConcat(line, chunks[0], Concat(chunks[1..]));
      CutsDoNotMatter(Feed(line, chunks[0]).1, chunks[1..]);
    }
  }

  function Concat(chunks: seq<string>): string {
    if chunks == [] then [] else chunks[0] + Concat(chunks[1..])
  }

  function FeedAll(line: string, chunks: seq<string>): (seq<string>, string)
    decreases |chunks|
  {
    if chunks == [] then ([], line)
    else
      var (first, middle) := Feed(line, chunks[0]);
      var (others, last) := FeedAll(middle, chunks[1..]);
      (first + others, last)
  }
}
