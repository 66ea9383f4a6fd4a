/**
 The promise in the comment on `WriteCombiner`: its grouping of registers needs
 the fewest bytes. No byte string at all that decodes to the same registers and
 values is shorter, whatever blocks, count forms, paddings or varuints it uses.
*/
module Framing {
  import opened Bytes
  import opened Registers

  /** `second` can share a block with `first`, which comes right before it. */
  predicate Continues(first: Item, second: Item) {
    && second.kind == first.kind && second.resolution == first.resolution
    && second.register == (first.register + 1) % REGISTERS
  }

  /** How many of the leading items fit one block. */
  function Leading(items: seq<Item>): (n: nat)
    requires items != []
    ensures 1 <= n <= |items|
  {
    if |items| > 1 && Continues(items[0], items[1]) then 1 + Leading(items[1..]) else 1
  }

  function HeaderSize(register: nat, count: nat): nat {
    (if count <= 3 then 1 else 2) + |Varuint(register)|
  }

  /** Header bytes when every block is as long as it can be. */
  function HeaderBytes(items: seq<Item>): nat {
    if items == [] then 0
    else HeaderSize(items[0].register, Leading(items)) + HeaderBytes(items[Leading(items)..])
  }

  function ValueBytes(items: seq<Item>): nat {
    if items == [] then 0 else |items[0].value| + ValueBytes(items[1..])
  }

  // ---------------------------------------------------------- a lower bound

  predicate OneBlock(items: seq<Item>) {
    forall i | 0 < i < |items| :: Continues(items[i - 1], items[i])
  }

  lemma {:induction false} LeadingOfBlock(block: seq<Item>, rest: seq<Item>)
    requires block != [] && OneBlock(block)
    ensures Leading(block + rest)
         == |block| + if rest != [] && Continues(block[|block| - 1], rest[0]) then Leading(rest) else 0
  {
    var all := block + rest;
    assert all[1..] == block[1..] + rest;
    if |block| > 1 {
      assert Continues(block[0], block[1]);
      assert forall i | 0 < i < |block[1..]| :: block[1..][i - 1] == block[i] && block[1..][i] == block[i + 1];
      LeadingOfBlock(block[1..], rest);
    } else {
      assert all[1..] == rest;
    }
  }

  /** Joining a block to the next one never costs bytes. */
  lemma JoinBlocks(block: seq<Item>, rest: seq<Item>)
    requires block != [] && OneBlock(block)
    ensures HeaderBytes(block + rest) <= HeaderSize(block[0].register, |block|) + HeaderBytes(rest)
  {
    hide Varuint;
    var all := block + rest;
    LeadingOfBlock(block, rest);
    if rest != [] && Continues(block[|block| - 1], rest[0]) {
      assert all[Leading(all)..] == rest[Leading(rest)..];
    } else {
      assert all[Leading(all)..] == rest;
    }
  }

  lemma {:induction false} ValueBytesConcat(a: seq<Item>, b: seq<Item>)
    ensures ValueBytes(a + b) == ValueBytes(a) + ValueBytes(b)
  {
    if a == [] {
      assert a + b == b;
    } else {
      assert (a + b)[1..] == a[1..] + b;
      ValueBytesConcat(a[1..], b);
    }
  }

  /** A varuint that reads as `v` modulo 65536 is at least as long as the shortest one for it. */
  lemma {:induction false} ReadVaruintSize(bs: seq<byte>, left: nat)
    requires bs != [] && left > 0
    ensures |Varuint(ReadVaruint(bs, left).0 % REGISTERS)| <= |bs| - |ReadVaruint(bs, left).1|
  {
    var (v, rest) := ReadVaruint(bs, left);
    ReadVaruintBound(bs, left);
    var used := |bs| - |rest|;
    assert v % REGISTERS <= v by {
      ModuloIsSmaller(v);
    }
    VaruintLength(v % REGISTERS, used);
  }

  lemma ModuloIsSmaller(v: nat)
    ensures v % REGISTERS <= v
  {
  }

  lemma {:induction false} ReadVaruintBound(bs: seq<byte>, left: nat)
    ensures ReadVaruint(bs, left).0 < Pow128(|bs| - |ReadVaruint(bs, left).1|)
  {
    if left > 0 && bs != [] && bs[0] >= 128 {
      ReadVaruintBound(bs[1..], left - 1);
    }
  }

  /** The bytes a head takes are enough for the header of any block of at most its count. */
  lemma HeadSize(accept: set<Kind>, bs: seq<byte>, n: nat)
    requires ReadHead(accept, bs).Block? && 1 <= n <= ReadHead(accept, bs).count
    ensures HeaderSize(ReadHead(accept, bs).register, n) <= |bs| - |ReadHead(accept, bs).rest|
  {
    hide Varuint, ReadVaruint;
    var tail := if bs[0] % 4 == 0 then bs[2..] else bs[1..];
    ReadVaruintSize(tail, VARUINT_LIMIT);
  }

  /** The items of one block, and those after it. */
  lemma {:induction false} TakeSplits(accept: set<Kind>, kind: Kind, res: Resolution, register: uint16, count: nat,
                                      bs: seq<byte>)
    returns (block: seq<Item>, rest: seq<byte>)
    ensures |rest| <= |bs| && |block| <= count && OneBlock(block)
    ensures block != [] ==> block[0].register == register && block[0].kind == kind && block[0].resolution == res
    ensures Take(accept, kind, res, register, count, bs) == block + Decode(accept, rest)
      || (Take(accept, kind, res, register, count, bs) == block && rest == [])
    ensures ValueBytes(block) + |rest| <= |bs|
    decreases count
  {
    hide Decode, ReadHead;
    var width := ValueWidth(kind, res);
    if count == 0 {
      block, rest := [], bs;
      assert block + Decode(accept, rest) == Decode(accept, rest);
    } else if |bs| < width {
      block, rest := [], [];
    } else {
      var tail;
      tail, rest := TakeSplits(accept, kind, res, (register + 1) % REGISTERS, count - 1, bs[width..]);
      var first := Item(kind, register, res, bs[..width]);
      block := [first] + tail;
      assert block[1..] == tail;
      forall i | 0 < i < |block|
        ensures Continues(block[i - 1], block[i])
      {
        if i > 1 {
          assert Continues(tail[i - 2], tail[i - 1]);
        }
      }
      assert [first] + (tail + Decode(accept, rest)) == block + Decode(accept, rest);
    }
  }

  lemma {:induction false} DecodeNeedsBytes(accept: set<Kind>, bs: seq<byte>)
    ensures HeaderBytes(Decode(accept, bs)) + ValueBytes(Decode(accept, bs)) <= |bs|
    decreases |bs|
  {
    match ReadHead(accept, bs)
    case Stop =>
    case Skip(rest) =>
      DecodeNeedsBytes(accept, rest);
    case Block(kind, res, count, register, after) =>
      BlockNeedsBytes(accept, bs);
  }

  lemma {:induction false} BlockNeedsBytes(accept: set<Kind>, bs: seq<byte>)
    requires ReadHead(accept, bs).Block?
    ensures HeaderBytes(Decode(accept, bs)) + ValueBytes(Decode(accept, bs)) <= |bs|
    decreases |bs|, 0
  {
    hide ReadHead, Varuint, Leading, Continues, HeaderSize, Take;
    var Block(kind, res, count, register, after) := ReadHead(accept, bs);
    var block, rest := TakeSplits(accept, kind, res, register, count, after);
    var others := if Decode(accept, bs) == block then [] else Decode(accept, rest);
    assert Decode(accept, bs) == block + others by {
      assert block + [] == block;
    }
    assert HeaderBytes(others) + ValueBytes(others) <= |rest| by {
      if others != [] {
        DecodeNeedsBytes(accept, rest);
      }
    }
    ValueBytesConcat(block, others);
    if block != [] {
      JoinBlocks(block, others);
      HeadSize(accept, bs, |block|);
    } else {
      assert block + others == others;
    }
  }

  // ---------------------------------------------------------- the encoder reaches it

  lemma {:induction false} ItemsAhead(kind: Kind, start: nat, res: seq<Resolution>, values: seq<seq<byte>>, i: nat)
    requires |values| == |res| && i <= |res| && start + |res| <= REGISTERS
    ensures var items := Items(kind, start, res, values, i);
      items != [] ==> items[0].register >= start + i
    decreases |res| - i
  {
    if i < |res| {
      ItemsAhead(kind, start, res, values, i + 1);
    }
  }

  /** The register after a run cannot share its block. */
  lemma RunDoesNotContinue(kind: Kind, start: nat, res: seq<Resolution>, values: seq<seq<byte>>, i: nat)
    requires |values| == |res| && i < |res| && res[i] != Ignore && start + |res| <= REGISTERS
    requires i + 1 < |res| ==> res[i + 1] != res[i]
    ensures var others := Items(kind, start, res, values, i + 1);
      others != [] ==> !Continues(Item(kind, (start + i) % REGISTERS, res[i], values[i]), others[0])
  {
    if i + 1 < |res| {
      ItemsAhead(kind, start, res, values, i + 2);
    }
  }

  lemma {:induction false} LeadingIsRun(kind: Kind, start: nat, res: seq<Resolution>, values: seq<seq<byte>>, i: nat)
    requires |values| == |res| && i < |res| && res[i] != Ignore && start + |res| <= REGISTERS
    ensures var items, n := Items(kind, start, res, values, i), Run(res, i);
      items != [] && Leading(items) == n && n <= |items| && items[n..] == Items(kind, start, res, values, i + n)
    decreases |res| - i
  {
    hide Items, Encode, HeaderAt;
    EncodeStep(kind, start, res, values, i, []);
    var items, others := Items(kind, start, res, values, i), Items(kind, start, res, values, i + 1);
    assert items[1..] == others;
    if i + 1 < |res| && res[i + 1] == res[i] {
      LeadingIsRun(kind, start, res, values, i + 1);
      EncodeStep(kind, start, res, values, i + 1, []);
      assert items[Run(res, i)..] == others[Run(res, i) - 1..];
    } else {
      RunDoesNotContinue(kind, start, res, values, i);
    }
  }

  /** The values of one block, then the rest. */
  lemma {:induction false} EncodeRun(kind: Kind, start: nat, res: seq<Resolution>, values: seq<seq<byte>>, i: nat,
                                     n: nat)
    requires Fitting(kind, res, values) && i < |res| && res[i] != Ignore && 1 <= n <= Run(res, i)
    ensures |Encode(kind, start, res, values, i)|
         == |HeaderAt(kind, start, res, i)| + n * ValueWidth(kind, res[i]) + |Encode(kind, start, res, values, i + n)|
    ensures ValueBytes(Items(kind, start, res, values, i))
         == n * ValueWidth(kind, res[i]) + ValueBytes(Items(kind, start, res, values, i + n))
    decreases n
  {
    hide Items, Encode, Header, ValueWidth;
    EncodeStep(kind, start, res, values, i, []);
    var items := Items(kind, start, res, values, i);
    assert items[1..] == Items(kind, start, res, values, i + 1);
    if n > 1 {
      EncodeRun(kind, start, res, values, i + 1, n - 1);
      assert n * ValueWidth(kind, res[i]) == ValueWidth(kind, res[i]) + (n - 1) * ValueWidth(kind, res[i]);
    }
  }

  lemma FirstBlock(items: seq<Item>)
    requires items != []
    ensures HeaderBytes(items) == HeaderSize(items[0].register, Leading(items)) + HeaderBytes(items[Leading(items)..])
  {
  }

  lemma HeaderAtSize(kind: Kind, start: nat, res: seq<Resolution>, i: nat)
    requires i < |res| && StartsBlock(res, i)
    ensures |HeaderAt(kind, start, res, i)| == HeaderSize(start + i, Run(res, i))
  {
  }

  /** What is left after a whole run. */
  lemma RunSize(kind: Kind, start: nat, res: seq<Resolution>, values: seq<seq<byte>>, i: nat)
    requires Fitting(kind, res, values) && i < |res| && start + |res| <= REGISTERS && StartsBlock(res, i)
    ensures var items, n := Items(kind, start, res, values, i), Run(res, i);
      var later := Items(kind, start, res, values, i + n);
      |Encode(kind, start, res, values, i)| - HeaderBytes(items) - ValueBytes(items)
      == |Encode(kind, start, res, values, i + n)| - HeaderBytes(later) - ValueBytes(later)
  {
    hide Encode, Items, Leading, ValueBytes, ValueWidth, HeaderBytes, HeaderSize, HeaderAt, Run;
    var items, n := Items(kind, start, res, values, i), Run(res, i);
    LeadingIsRun(kind, start, res, values, i);
    EncodeRun(kind, start, res, values, i, n);
    EncodeStep(kind, start, res, values, i, []);
    FirstBlock(items);
    HeaderAtSize(kind, start, res, i);
    assert items[0].register == start + i;
  }

  lemma {:induction false} EncodeSize(kind: Kind, start: nat, res: seq<Resolution>, values: seq<seq<byte>>, i: nat)
    requires Fitting(kind, res, values) && i <= |res| && start + |res| <= REGISTERS
    requires i == 0 || i == |res| || res[i] == Ignore || res[i - 1] != res[i]
    ensures |Encode(kind, start, res, values, i)|
         == HeaderBytes(Items(kind, start, res, values, i)) + ValueBytes(Items(kind, start, res, values, i))
    decreases |res| - i
  {
    hide Encode, Items, HeaderBytes, ValueBytes, ValueWidth, Header;
    if i == |res| {
      EncodeEnd(kind, start, res, values);
    } else if res[i] == Ignore {
      EncodeStep(kind, start, res, values, i, []);
      EncodeSize(kind, start, res, values, i + 1);
    } else {
      RunEnds(res, i);
      RunSize(kind, start, res, values, i);
      EncodeSize(kind, start, res, values, i + Run(res, i));
    }
  }

  lemma EncodeEnd(kind: Kind, start: nat, res: seq<Resolution>, values: seq<seq<byte>>)
    requires |values| == |res|
    ensures Encode(kind, start, res, values, |res|) == [] && Items(kind, start, res, values, |res|) == []
    ensures HeaderBytes([]) == ValueBytes([]) == 0
  {
  }

  lemma {:induction false} RunEnds(res: seq<Resolution>, i: nat)
    requires i < |res|
    ensures res[i + Run(res, i) - 1] == res[i]
    ensures i + Run(res, i) < |res| ==> res[i + Run(res, i)] != res[i]
    decreases |res| - i
  {
    if i + 1 < |res| && res[i + 1] == res[i] {
      RunEnds(res, i + 1);
    }
  }

  /** The combiner's encoding is a shortest one. */
  lemma EncodeIsShortest(accept: set<Kind>, kind: Kind, start: nat, res: seq<Resolution>, values: seq<seq<byte>>,
                         other: seq<byte>)
    requires Fitting(kind, res, values) && start + |res| <= REGISTERS
    requires Decode(accept, other) == Items(kind, start, res, values, 0)
    ensures |Encode(kind, start, res, values, 0)| <= |other|
  {
    hide *;
    DecodeNeedsBytes(accept, other);
    EncodeSize(kind, start, res, values, 0);
  }
}
