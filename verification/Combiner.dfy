/**
 Writing into a CAN-FD frame (`CanData`, `WriteCanData`) and grouping registers
 into blocks (`WriteCombiner`).
*/
module Combiner {
  import opened Bytes
  import opened Registers

  const CAPACITY: nat := 64

  class CanData {
    const data: array<byte>
    var size: nat

    constructor ()
      ensures Valid() && fresh(data) && Contents() == []
    {
      data := new byte[CAPACITY];
      size := 0;
    }

    ghost predicate Valid()
      reads this
    {
      data.Length == CAPACITY && size <= CAPACITY
    }

    ghost function Contents(): seq<byte>
      requires Valid()
      reads this, data
    {
      data[..size]
    }

    /** Appends; the source aborts when the frame is too small. */
    method Append(bytes: seq<byte>)
      requires Valid() && size + |bytes| <= CAPACITY
      modifies this, data
      ensures Valid() && Contents() == old(Contents()) + bytes
    {
      forall k | 0 <= k < |bytes| {
        data[size + k] := bytes[k];
      }
      size := size + |bytes|;
    }

    method AppendVaruint(value: nat)
      requires Valid() && size + |Varuint(value)| <= CAPACITY
      modifies this, data
      ensures Valid() && Contents() == old(Contents()) + Varuint(value)
    {
      var left := value;
      while true
        invariant Valid() && size + |Varuint(left)| <= CAPACITY
        invariant Contents() + Varuint(left) == old(Contents()) + Varuint(value)
        decreases left
      {
        ghost var before := Contents();
        var group := left % 128;
        left := left / 128;
        if left == 0 {
          Append([group]);
          break;
        }
        Append([group + 128]);
        assert Contents() + Varuint(left) == before + ([group + 128] + Varuint(left));
      }
    }
  }

  /** What one call adds to the expected reply size: at the start of a block, all of the block. */
  function ReplyBytesAt(start: nat, res: seq<Resolution>, i: nat): nat
    requires i < |res|
  {
    if StartsBlock(res, i) then |HeaderAt(Reply, start, res, i)| + Run(res, i) * Width(res[i]) else 0
  }

  function ReplyBytes(start: nat, res: seq<Resolution>, i: nat): nat
    requires i <= |res|
    decreases |res| - i
  {
    if i == |res| then 0 else ReplyBytesAt(start, res, i) + ReplyBytes(start, res, i + 1)
  }

  lemma BlockStarts(kind: Kind, start: nat, res: seq<Resolution>, i: nat)
    requires i < |res| && res[i] != Ignore && (i == 0 || res[i - 1] != res[i])
    ensures HeaderAt(kind, start, res, i) == Header(kind, res[i], Run(res, i), start + i)
    ensures ReplyBytesAt(start, res, i) == |Header(Reply, res[i], Run(res, i), start + i)| + Run(res, i) * Width(res[i])
  {
  }

  lemma NoBlockStarts(kind: Kind, start: nat, res: seq<Resolution>, i: nat)
    requires i < |res| && (res[i] == Ignore || (i > 0 && res[i - 1] == res[i]))
    ensures HeaderAt(kind, start, res, i) == [] && ReplyBytesAt(start, res, i) == 0
  {
  }

  lemma AddTwice(size: nat, a: nat, b: nat)
    ensures ((size + a) % 256 + b) % 256 == (size + (a + b)) % 256
  {
    AddBytes(size + a, b);
  }

  lemma RunStep(res: seq<Resolution>, i: nat)
    requires i < |res|
    ensures Run(res, i) == if i + 1 < |res| && res[i + 1] == res[i] then 1 + Run(res, i + 1) else 1
  {
  }

  class WriteCombiner {
    const frame: CanData
    const kind: Kind
    const start: uint16
    const resolutions: seq<Resolution>
    var current: Resolution
    var offset: nat
    var replySize: byte

    constructor (frame: CanData, kind: Kind, start: uint16, resolutions: seq<Resolution>)
      requires |resolutions| < 0x8000
      ensures Valid() && offset == 0 && replySize == 0
      ensures this.frame == frame && this.kind == kind && this.start == start && this.resolutions == resolutions
    {
      this.frame, this.kind, this.start, this.resolutions := frame, kind, start, resolutions;
      current, offset, replySize := Ignore, 0, 0;
    }

    ghost predicate Valid()
      reads this
    {
      && offset <= |resolutions| < 0x8000
      && current == if offset == 0 then Ignore else resolutions[offset - 1]
    }

    /** Writes the framing due at the next register, if any; tells whether its value is to be written. */
    method MaybeWrite() returns (write: bool)
      requires Valid() && offset < |resolutions| && frame.Valid()
      requires frame.size + |HeaderAt(kind, start, resolutions, offset)| <= CAPACITY
      modifies this, frame, frame.data
      ensures Valid() && frame.Valid() && offset == old(offset) + 1
      ensures write <==> resolutions[old(offset)] != Ignore
      ensures frame.Contents() == old(frame.Contents()) + HeaderAt(kind, start, resolutions, old(offset))
      ensures replySize == (old(replySize) + ReplyBytesAt(start, resolutions, old(offset))) % 256
    {
      hide Header, HeaderAt, Varuint, ReplyBytesAt, Run, Width;
      var thisOffset := offset;
      offset := offset + 1;
      if current == resolutions[thisOffset] {
        NoBlockStarts(kind, start, resolutions, thisOffset);
        return current != Ignore;
      }
      var newResolution := resolutions[thisOffset];
      current := newResolution;
      if newResolution == Ignore {
        NoBlockStarts(kind, start, resolutions, thisOffset);
        return false;
      }
      BlockStarts(kind, start, resolutions, thisOffset);
      StartBlock(newResolution, thisOffset);
      return true;
    }

    /** The framing of the run that starts at a register, and what it adds to the reply. */
    method StartBlock(res: Resolution, from: nat)
      requires frame.Valid() && from < |resolutions| && res == resolutions[from] && res != Ignore
      requires frame.size + |Header(kind, res, Run(resolutions, from), start + from)| <= CAPACITY
      modifies `replySize, frame, frame.data
      ensures frame.Valid()
      ensures frame.Contents() == old(frame.Contents()) + Header(kind, res, Run(resolutions, from), start + from)
      ensures replySize == (old(replySize) + (|Header(Reply, res, Run(resolutions, from), start + from)| +
                                             Run(resolutions, from) * Width(res))) % 256
    {
      hide Header, Run, Width;
      var count := CountAlike(from);
      var startSize := frame.size;
      WriteHeader(res, count, start + from);
      var endSize := frame.size;
      assert endSize - startSize == |Header(kind, res, count, start + from)|;
      HeaderLength(kind, Reply, res, count, start + from);
      var valueSize := count * Width(res);
      AddTwice(replySize, endSize - startSize, valueSize);
      replySize := (replySize + (endSize - startSize)) % 256;
      replySize := (replySize + valueSize) % 256;
    }

    /** How many registers in a row have the same resolution. */
    method CountAlike(from: nat) returns (count: nat)
      requires from < |resolutions|
      ensures count == Run(resolutions, from)
    {
      hide Run;
      count := 1;
      var i := from + 1;
      while i < |resolutions| && resolutions[i] == resolutions[from]
        invariant from < i <= |resolutions| && count == i - from
        invariant resolutions[i - 1] == resolutions[from]
        invariant Run(resolutions, from) == count - 1 + Run(resolutions, i - 1)
      {
        RunStep(resolutions, i - 1);
        count := count + 1;
        i := i + 1;
      }
      RunStep(resolutions, i - 1);
    }

    method WriteHeader(res: Resolution, count: nat, register: nat)
      requires frame.Valid() && res != Ignore && count >= 1
      requires frame.size + |Header(kind, res, count, register)| <= CAPACITY
      modifies frame, frame.data
      ensures frame.Valid()
      ensures frame.Contents() == old(frame.Contents()) + Header(kind, res, count, register)
    {
      var command: byte := Base(kind) + 4 * Code(res);
      if count <= 3 {
        // the shorthand form
        frame.Append([command + count]);
      } else {
        frame.Append([command]);
        frame.Append([count % 256]);
      }
      frame.AppendVaruint(register);
    }
  }

  lemma HeaderLength(kind: Kind, other: Kind, res: Resolution, count: nat, register: nat)
    requires res != Ignore && count >= 1
    ensures |Header(kind, res, count, register)| == |Header(other, res, count, register)|
  {
  }

  lemma OneMore(n: nat, width: nat)
    requires n > 0
    ensures n * width == width + (n - 1) * width
  {
  }

  /** The running total of `MaybeWrite` is the length of the reply, whatever values it carries. */
  lemma {:induction false} ReplyBytesIsLength(start: nat, res: seq<Resolution>, values: seq<seq<byte>>, i: nat)
    requires Fitting(Reply, res, values) && i <= |res|
    ensures |Encode(Reply, start, res, values, i)|
         == ReplyBytes(start, res, i) +
            if i < |res| && res[i] != Ignore && !StartsBlock(res, i) then Run(res, i) * Width(res[i]) else 0
    decreases |res| - i
  {
    hide Header, HeaderAt, ReplyBytesAt, Run, Width;
    if i < |res| {
      ReplyBytesIsLength(start, res, values, i + 1);
      RunStep(res, i);
      if res[i] != Ignore && (i == 0 || res[i - 1] != res[i]) {
        BlockStarts(Reply, start, res, i);
        OneMore(Run(res, i), Width(res[i]));
      } else {
        NoBlockStarts(Reply, start, res, i);
        OneMore(Run(res, i), Width(res[i]));
      }
    }
  }
}
