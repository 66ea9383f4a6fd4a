/**
 The resumable reader of reply frames (`MultiplexParser`): it keeps an offset, a
 count of registers still to come in the current block (held in eight signed
 bits) and the register number due next.
*/
module Parser {
  import opened Bytes
  import opened Registers

  class MultiplexParser {
    const data: seq<byte>
    var offset: nat
    var remaining: int8
    var resolution: Resolution
    var register: uint16

    constructor (data: seq<byte>)
      ensures this.data == data && offset == 0 && remaining == 0 && Valid()
      ensures Pending(0) == Decode({Reply}, data)
    {
      this.data := data;
      offset, remaining, resolution, register := 0, 0, Ignore, 0;
    }

    ghost predicate Valid()
      reads this
    {
      offset <= |data|
    }

    /** What is still to be read if the bytes before `from` are gone. The wrapped count is a count modulo 256. */
    ghost function Pending(from: nat): seq<Item>
      requires from <= |data|
      reads this
    {
      Take({Reply}, Reply, resolution, register, remaining % 256, data[from..])
    }

    method ReadByte() returns (b: byte)
      requires Valid() && offset < |data|
      modifies this`offset
      ensures Valid() && offset == old(offset) + 1 && b == data[old(offset)]
    {
      b := data[offset];
      offset := offset + 1;
    }

    /** At most five bytes; the result is truncated to sixteen bits. */
    method ReadVaruint16() returns (result: uint16)
      requires Valid()
      modifies this`offset
      ensures Valid() && old(offset) <= offset
      ensures var (value, rest) := ReadVaruint(data[old(offset)..], VARUINT_LIMIT);
        result == value % REGISTERS && data[offset..] == rest
    {
      hide Decode, Take, ReadHead, Merge;
      result := 0;
      var scale := 1;   // 2 to the power `shift`
      ghost var (total, final) := ReadVaruint(data[offset..], VARUINT_LIMIT);
      MergeStart(total);
      for i := 0 to 5
        invariant Valid() && old(offset) <= offset
        invariant ReadVaruint(data[offset..], 5 - i).1 == final
        invariant total % REGISTERS == Merge(result, scale, ReadVaruint(data[offset..], 5 - i).0)
      {
        if offset == |data| {
          MergeEnd(result, scale);
          return;
        }
        ghost var before := data[offset..];
        var b := ReadByte();
        assert before[1..] == data[offset..];
        MergeByte(result, scale, b % 128, ReadVaruint(data[offset..], 4 - i).0);
        result := Merge(result, scale, b % 128);
        scale := scale * 128;
        if b < 128 {
          return;
        }
      }
      MergeEnd(result, scale);
    }

    /** The next register in the frame, leaving the offset at its value; `done` when there is none. */
    method Next() returns (done: bool, value: uint16, res: Resolution)
      requires Valid()
      modifies this
      ensures Valid() && old(offset) <= offset
      ensures done ==> old(Pending(offset)) == []
      ensures !done ==> offset + Width(res) <= |data|
      ensures !done ==>
        old(Pending(offset))
          == [Item(Reply, value, res, data[offset..offset + Width(res)])] + Pending(offset + Width(res))
    {
      hide Decode, Take, ReadHead, ReadVaruint;
      TakeAtEnd(Reply, resolution, register, remaining % 256, data[offset..]);
      if offset >= |data| {
        return true, 0, Int8;
      }
      if remaining != 0 {
        ghost var left, ahead := remaining % 256, register;
        WrapModulo(remaining - 1);
        remaining := Wrap8(remaining - 1);
        value := register;
        register := (register + 1) % REGISTERS;
        TakeFrom(Reply, resolution, ahead, left, data, offset);
        if offset + Width(resolution) > |data| {
          return true, 0, Int8;
        }
        return false, value, resolution;
      }
      TakeNone({Reply}, Reply, resolution, register, data[offset..]);
      done, value, res := NextBlock();
    }

    /** The part of `Next` that looks for another header. */
    method NextBlock() returns (done: bool, value: uint16, res: Resolution)
      requires Valid() && offset < |data| && remaining == 0
      modifies this
      ensures Valid() && old(offset) <= offset
      ensures done ==> Decode({Reply}, data[old(offset)..]) == []
      ensures !done ==> offset + Width(res) <= |data|
      ensures !done ==>
        Decode({Reply}, data[old(offset)..])
        == [Item(Reply, value, res, data[offset..offset + Width(res)])] + Pending(offset + Width(res))
    {
      hide Decode, Take, ReadVaruint, ReadHead, ResolutionOf, TakeAfterVaruint;
      ghost var all := Decode({Reply}, data[offset..]);
      while offset < |data|
        invariant Valid() && remaining == 0 && old(offset) <= offset
        invariant all == Decode({Reply}, data[offset..])
        decreases |data| - offset
      {
        ghost var bs := data[offset..];
        DecodeReply(bs);
        var command := ReadByte();
        assert bs[1..] == data[offset..];
        if command == NOP {
          continue;
        }
        if offset >= |data| {
          break;
        }
        if 0x20 <= command < 0x30 {
          resolution := ResolutionOf(command / 4 % 4);
          var count: int := Wrap8(command % 4);   // an int8_t
          if count == 0 {
            var b := ReadByte();
            count := Wrap8(b);
            assert bs[2..] == data[offset..];
            if offset >= |data| {
              assert data[offset..] == [];
              DecodeReply(data[offset..]);
              break;
            }
          }
          if count == 0 {
            continue;
          }
          done, value, res := OpenBlock(count);
          return;
        }
        offset := |data|;
        assert all == [];
        return true, 0, Int8;
      }
      assert data[offset..] == [];
      DecodeReply(data[offset..]);
      return true, 0, Int8;
    }

    /** The part of `NextBlock` after the count: the start register, then the block's first value. */
    method OpenBlock(count: int) returns (done: bool, value: uint16, res: Resolution)
      requires Valid() && count % 256 != 0
      modifies this
      ensures Valid() && old(offset) <= offset
      ensures done ==> old(TakeAfterVaruint(resolution, count % 256, data[offset..])) == []
      ensures !done ==> offset + Width(res) <= |data|
      ensures !done ==>
        old(TakeAfterVaruint(resolution, count % 256, data[offset..]))
        == [Item(Reply, value, res, data[offset..offset + Width(res)])] + Pending(offset + Width(res))
    {
      hide Decode, Take, ReadVaruint, ReadHead, Wrap8;
      register := ReadVaruint16();
      WrapModulo(count - 1);
      remaining := Wrap8(count - 1);
      TakeFrom(Reply, resolution, register, count % 256, data, offset);
      if offset + Width(resolution) > |data| {
        return true, 0, Int8;
      }
      value := register;
      register := (register + 1) % REGISTERS;
      return false, value, resolution;
    }

    /** Reads the value that the last `Next` announced, in the width of its resolution. */
    method ReadValue(res: Resolution) returns (value: seq<byte>)
      requires Valid() && offset + Width(res) <= |data|
      modifies this`offset
      ensures Valid() && offset == old(offset) + Width(res)
      ensures value == data[old(offset)..offset]
    {
      value := data[offset..offset + Width(res)];
      offset := offset + Width(res);
    }
  }

  /** No value fits in no bytes. */
  lemma TakeAtEnd(kind: Kind, res: Resolution, register: uint16, count: nat, bs: seq<byte>)
    requires kind != Read
    ensures bs == [] ==> Take({kind}, kind, res, register, count, bs) == []
  {
  }

  /** `Take` unfolded once, at an offset into the frame. */
  lemma TakeFrom(kind: Kind, res: Resolution, register: uint16, count: nat, data: seq<byte>, offset: nat)
    requires kind != Read && count >= 1 && offset <= |data|
    ensures offset + Width(res) > |data| ==> Take({kind}, kind, res, register, count, data[offset..]) == []
    ensures offset + Width(res) <= |data| ==>
      Take({kind}, kind, res, register, count, data[offset..])
      == [Item(kind, register, res, data[offset..offset + Width(res)])] +
         Take({kind}, kind, res, (register + 1) % REGISTERS, count - 1, data[offset + Width(res)..])
  {
    var bs, width := data[offset..], Width(res);
    if width <= |bs| {
      assert bs[..width] == data[offset..offset + width] && bs[width..] == data[offset + width..];
    }
  }

  /** `Decode` unfolded once, when only replies are accepted. */
  lemma DecodeReply(bs: seq<byte>)
    ensures bs == [] ==> Decode({Reply}, bs) == []
    ensures bs != [] && bs[0] == NOP ==> Decode({Reply}, bs) == Decode({Reply}, bs[1..])
    ensures bs != [] && bs[0] != NOP && (|bs| == 1 || !(0x20 <= bs[0] < 0x30)) ==> Decode({Reply}, bs) == []
    ensures |bs| > 1 && 0x20 <= bs[0] < 0x30 && bs[0] % 4 != 0 ==>
      Decode({Reply}, bs) == TakeAfterVaruint(ResolutionOf(bs[0] / 4 % 4), bs[0] % 4, bs[1..])
    ensures |bs| > 1 && 0x20 <= bs[0] < 0x30 && bs[0] % 4 == 0 ==>
      Decode({Reply}, bs)
      == if |bs| == 2 then []
         else if bs[1] == 0 then Decode({Reply}, bs[2..])
         else TakeAfterVaruint(ResolutionOf(bs[0] / 4 % 4), bs[1], bs[2..])
  {
  }

  ghost function TakeAfterVaruint(res: Resolution, count: nat, bs: seq<byte>): seq<Item> {
    var (register, rest) := ReadVaruint(bs, VARUINT_LIMIT);
    Take({Reply}, Reply, res, register % REGISTERS, count, rest)
  }

  lemma WrapModulo(n: int)
    ensures Wrap8(n) % 256 == n % 256
  {
  }

  /** Seven-bit groups do not overlap, so the source's `|` is `+`; sixteen bits are kept. */
  function Merge(result: uint16, scale: int, group: int): uint16 {
    (result + scale * group) % REGISTERS
  }

  lemma MergeStart(value: int)
    ensures Merge(0, 1, value) == value % REGISTERS
  {
  }

  lemma MergeEnd(result: uint16, scale: int)
    ensures Merge(result, scale, 0) == result
  {
  }

  lemma SplitProduct(scale: int, low: int, value: int)
    ensures scale * (low + 128 * value) == scale * low + scale * 128 * value
  {
  }

  lemma MergeByte(result: uint16, scale: int, low: int, value: int)
    ensures Merge(result, scale, low + 128 * value) == Merge(Merge(result, scale, low), scale * 128, value)
  {
    var sum, high := result + scale * low, scale * 128 * value;
    SplitProduct(scale, low, value);
    AddWords(sum, high);
  }
}
