/**
 The register protocol carried in CAN-FD frames: runs of consecutive registers
 share one header (command, optional count, varuint start register).

 `Encode` is the byte string the combiner and the value writers produce between
 them; `Decode` is a block-by-block reader that knows nothing about how the
 bytes were produced.
*/
module Registers {
  import opened Bytes

  datatype Resolution = Int8 | Int16 | Int32 | Float | Ignore

  /** What a block asks for: write these values, send these back, here they are. */
  datatype Kind = Write | Read | Reply

  datatype Item = Item(kind: Kind, register: uint16, resolution: Resolution, value: seq<byte>)

  const NOP: byte := 0x50
  const REGISTERS: int := 0x1_0000

  function Width(res: Resolution): nat {
    match res
    case Int8 => 1
    case Int16 => 2
    case Int32 => 4
    case Float => 4
    case Ignore => 1
  }

  function Code(res: Resolution): nat
    requires res != Ignore
  {
    match res
    case Int8 => 0
    case Int16 => 1
    case Int32 => 2
    case Float => 3
  }

  function ResolutionOf(code: int): (res: Resolution) {
    if code == 0 then Int8 else if code == 1 then Int16 else if code == 2 then Int32 else Float
  }

  function Base(kind: Kind): byte {
    match kind
    case Write => 0x00
    case Read => 0x10
    case Reply => 0x20
  }

  function KindOf(command: byte): Option<Kind> {
    if command < 0x10 then Some(Write)
    else if command < 0x20 then Some(Read)
    else if command < 0x30 then Some(Reply)
    else None
  }

  /** A read request names registers but carries no values. */
  function ValueWidth(kind: Kind, res: Resolution): nat {
    if kind == Read then 0 else Width(res)
  }

  // ------------------------------------------------------------- varuint

  /** ULEB128, section 7.6 of DWARF Version 5. */
  function Varuint(v: nat): (r: seq<byte>)
    ensures 1 <= |r|
  {
    if v < 128 then [v] else [v % 128 + 128] + Varuint(v / 128)
  }

  const VARUINT_LIMIT: nat := 5

  /** The number at the front of `bs`, read from at most `left` bytes, and what follows it. */
  function ReadVaruint(bs: seq<byte>, left: nat): (r: (nat, seq<byte>))
    ensures |r.1| <= |bs|
    ensures left > 0 && bs != [] ==> |r.1| < |bs|
  {
    if left == 0 || bs == [] then (0, bs)
    else if bs[0] < 128 then (bs[0], bs[1..])
    else
      var (v, rest) := ReadVaruint(bs[1..], left - 1);
      (bs[0] - 128 + 128 * v, rest)
  }

  /** Seven bits to a byte, lowest first, and the high bit on all but the last. */
  lemma VaruintBytes(v: nat)
    ensures v < 0x80 ==> Varuint(v) == [v]
    ensures 0x80 <= v < 0x4000 ==> Varuint(v) == [0x80 + v % 0x80, v / 0x80]
    ensures 0x4000 <= v < 0x20_0000 ==> Varuint(v) == [0x80 + v % 0x80, 0x80 + v / 0x80 % 0x80, v / 0x4000]
  {
    hide Varuint;
    VaruintStep(v);
    VaruintStep(v / 0x80);
    assert v / 0x80 / 0x80 == v / 0x4000;
    VaruintStep(v / 0x4000);
  }

  lemma VaruintStep(v: nat)
    ensures Varuint(v) == if v < 0x80 then [v] else [0x80 + v % 0x80] + Varuint(v / 0x80)
  {
  }

  lemma {:induction false} VaruintLength(v: nat, limit: nat)
    ensures v < Pow128(limit) && limit >= 1 ==> |Varuint(v)| <= limit
  {
    if v >= 128 && limit > 1 {
      VaruintLength(v / 128, limit - 1);
    }
  }

  function Pow128(n: nat): (r: nat)
    ensures r >= 1
  {
    if n == 0 then 1 else 128 * Pow128(n - 1)
  }

  lemma {:induction false} VaruintRoundTrip(v: nat, limit: nat, tail: seq<byte>)
    requires v < Pow128(limit)
    requires limit >= 1
    ensures ReadVaruint(Varuint(v) + tail, limit) == (v, tail)
  {
    var bs := Varuint(v) + tail;
    if v < 128 {
      assert bs[1..] == tail;
    } else {
      VaruintRoundTrip(v / 128, limit - 1, tail);
      assert bs[1..] == Varuint(v / 128) + tail;
    }
  }

  // ------------------------------------------------------------- encoder

  /** How many registers from `i` on share the resolution at `i`. */
  function Run(res: seq<Resolution>, i: nat): (n: nat)
    requires i < |res|
    ensures 1 <= n <= |res| - i
    decreases |res| - i
  {
    if i + 1 < |res| && res[i + 1] == res[i] then 1 + Run(res, i + 1) else 1
  }

  predicate StartsBlock(res: seq<Resolution>, i: nat)
    requires i < |res|
  {
    res[i] != Ignore && (i == 0 || res[i - 1] != res[i])
  }

  function Header(kind: Kind, res: Resolution, count: nat, register: nat): (r: seq<byte>)
    requires res != Ignore && count >= 1
  {
    var command: byte := Base(kind) + 4 * Code(res);
    (if count <= 3 then [command + count] else [command, count % 256]) + Varuint(register)
  }

  /** The command byte of a single register, for every kind and resolution. */
  lemma SingleHeaders()
    ensures Header(Write, Int8, 1, 0) == [0x01, 0x00] && Header(Write, Int16, 1, 0) == [0x05, 0x00]
    ensures Header(Write, Int32, 1, 0) == [0x09, 0x00] && Header(Write, Float, 1, 0) == [0x0d, 0x00]
    ensures Header(Read, Int8, 1, 0) == [0x11, 0x00] && Header(Read, Int16, 1, 0) == [0x15, 0x00]
    ensures Header(Read, Int32, 1, 0) == [0x19, 0x00] && Header(Read, Float, 1, 0) == [0x1d, 0x00]
    ensures Header(Reply, Int8, 1, 0) == [0x21, 0x00] && Header(Reply, Int16, 1, 0) == [0x25, 0x00]
    ensures Header(Reply, Int32, 1, 0) == [0x29, 0x00] && Header(Reply, Float, 1, 0) == [0x2d, 0x00]
  {
    assert Varuint(0) == [0];
  }

  /** The count of a run: in the command byte up to three registers, in a byte of its own beyond. */
  lemma HeaderCounts(kind: Kind, res: Resolution, count: nat, register: nat)
    requires res != Ignore && 1 <= count < 256
    ensures var one, many := Header(kind, res, 1, register), Header(kind, res, count, register);
      if count <= 3 then many == [one[0] - 1 + count] + one[1..]
      else many == [one[0] - 1, count] + one[1..]
  {
    hide Varuint;
    HeaderIs(kind, res, 1, register);
    HeaderIs(kind, res, count, register);
  }

  /** The framing bytes due just before register `i`; none inside a block or for an ignored register. */
  function HeaderAt(kind: Kind, start: nat, res: seq<Resolution>, i: nat): (r: seq<byte>)
    requires i < |res|
  {
    if StartsBlock(res, i) then Header(kind, res[i], Run(res, i), start + i) else []
  }

  /** One value for each register that is not ignored, of the width its resolution has. */
  predicate Fitting(kind: Kind, res: seq<Resolution>, values: seq<seq<byte>>) {
    |values| == |res| &&
    forall i | 0 <= i < |res| :: res[i] != Ignore ==> |values[i]| == ValueWidth(kind, res[i])
  }

  function EncodeAt(kind: Kind, start: nat, res: seq<Resolution>, values: seq<seq<byte>>, i: nat): seq<byte>
    requires |values| == |res| && i < |res|
  {
    HeaderAt(kind, start, res, i) + (if res[i] == Ignore then [] else values[i])
  }

  /** Everything written from register `i` on. */
  function Encode(kind: Kind, start: nat, res: seq<Resolution>, values: seq<seq<byte>>, i: nat): seq<byte>
    requires |values| == |res| && i <= |res|
    decreases |res| - i
  {
    if i == |res| then [] else EncodeAt(kind, start, res, values, i) + Encode(kind, start, res, values, i + 1)
  }

  /** The registers that are not ignored, with their values, from register `i` on. */
  function Items(kind: Kind, start: nat, res: seq<Resolution>, values: seq<seq<byte>>, i: nat): seq<Item>
    requires |values| == |res| && i <= |res|
    decreases |res| - i
  {
    if i == |res| then []
    else if res[i] == Ignore then Items(kind, start, res, values, i + 1)
    else [Item(kind, (start + i) % REGISTERS, res[i], values[i])] + Items(kind, start, res, values, i + 1)
  }

  // ------------------------------------------------------------- decoder

  /** What stands at a block boundary. */
  datatype Head =
    | Stop
    | Skip(rest: seq<byte>)
    | Block(kind: Kind, resolution: Resolution, count: nat, register: uint16, rest: seq<byte>)

  function ReadHead(accept: set<Kind>, bs: seq<byte>): (h: Head)
    ensures h.Skip? ==> |h.rest| < |bs|
    ensures h.Block? ==> |h.rest| < |bs| && 1 <= h.count < 256 && h.resolution != Ignore && h.kind in accept
  {
    if bs == [] then Stop
    else if bs[0] == NOP then Skip(bs[1..])
    else if |bs| == 1 || KindOf(bs[0]) == None || KindOf(bs[0]).value !in accept then Stop
    else
      var kind, res, short := KindOf(bs[0]).value, ResolutionOf(bs[0] / 4 % 4), bs[0] % 4;
      if short == 0 && |bs| == 2 then Stop
      else if short == 0 && bs[1] == 0 then Skip(bs[2..])
      else
        var count, tail := if short == 0 then bs[1] else short, if short == 0 then bs[2..] else bs[1..];
        var (register, rest) := ReadVaruint(tail, VARUINT_LIMIT);
        Block(kind, res, count, register % REGISTERS, rest)
  }

  /** The items in `bs`, up to the first block that is malformed, cut short or not of an accepted kind. */
  function Decode(accept: set<Kind>, bs: seq<byte>): seq<Item>
    decreases |bs|, 0
  {
    match ReadHead(accept, bs)
    case Stop => []
    case Skip(rest) => Decode(accept, rest)
    case Block(kind, res, count, register, rest) => Take(accept, kind, res, register, count, rest)
  }

  /** `count` registers of one block, then whatever follows. */
  function Take(accept: set<Kind>, kind: Kind, res: Resolution, register: uint16, count: nat, bs: seq<byte>): seq<Item>
    decreases |bs|, count + 1
  {
    var width := ValueWidth(kind, res);
    if count == 0 then Decode(accept, bs)
    else if |bs| < width then []
    else
      [Item(kind, register, res, bs[..width])] +
      Take(accept, kind, res, (register + 1) % REGISTERS, count - 1, bs[width..])
  }

  // ------------------------------------------------------------- round trip

  /** A run of 256 or more does not fit the one-byte count. */
  predicate ShortRuns(res: seq<Resolution>) {
    forall i | 0 <= i < |res| && StartsBlock(res, i) :: Run(res, i) < 256
  }

  lemma CommandByte(kind: Kind, res: Resolution, low: nat)
    requires res != Ignore && low <= 3
    ensures var command: byte := Base(kind) + 4 * Code(res) + low;
      KindOf(command) == Some(kind) && ResolutionOf(command / 4 % 4) == res && command % 4 == low && command != NOP
  {
  }

  lemma ReadNumber(register: nat, tail: seq<byte>)
    requires register < 2 * REGISTERS
    ensures ReadVaruint(Varuint(register) + tail, VARUINT_LIMIT) == (register, tail)
  {
    assert Pow128(5) == 0x8_0000_0000 by {
      assert Pow128(1) == 128 && Pow128(2) == 0x4000 && Pow128(3) == 0x20_0000;
    }
    VaruintRoundTrip(register, VARUINT_LIMIT, tail);
  }

  /** A header that starts with this command byte and, for the long form, this count. */
  lemma HeadAfter(accept: set<Kind>, bs: seq<byte>, kind: Kind, res: Resolution, count: nat, number: seq<byte>)
    requires kind in accept && bs != [] && number != []
    requires KindOf(bs[0]) == Some(kind) && ResolutionOf(bs[0] / 4 % 4) == res && bs[0] != NOP
    requires if bs[0] % 4 != 0 then count == bs[0] % 4 && bs[1..] == number
             else |bs| > 2 && count == bs[1] && count > 0 && bs[2..] == number
    ensures var (register, rest) := ReadVaruint(number, VARUINT_LIMIT);
      ReadHead(accept, bs) == Block(kind, res, count, register % REGISTERS, rest)
  {
    hide ReadVaruint, KindOf, ResolutionOf;
  }

  lemma ReadHeader(accept: set<Kind>, kind: Kind, res: Resolution, count: nat, register: nat, tail: seq<byte>)
    requires kind in accept && res != Ignore && 1 <= count < 256 && register < 2 * REGISTERS
    ensures ReadHead(accept, Header(kind, res, count, register) + tail)
         == Block(kind, res, count, register % REGISTERS, tail)
  {
    hide Varuint, ReadVaruint, KindOf, ResolutionOf, Base, Code, ReadHead, Header;
    var number := Varuint(register) + tail;
    ReadNumber(register, tail);
    HeaderIs(kind, res, count, register);
    var bs := Header(kind, res, count, register) + tail;
    if count <= 3 {
      CommandByte(kind, res, count);
      assert bs[0] == Header(kind, res, count, register)[0] && bs[1..] == number;
    } else {
      CommandByte(kind, res, 0);
      assert bs[0] == Header(kind, res, count, register)[0] && bs[1] == count && bs[2..] == number;
    }
    HeadAfter(accept, bs, kind, res, count, number);
  }

  lemma HeaderIs(kind: Kind, res: Resolution, count: nat, register: nat)
    requires res != Ignore && 1 <= count < 256
    ensures var command: byte := Base(kind) + 4 * Code(res);
      Header(kind, res, count, register)
      == (if count <= 3 then [(command + count) as byte] else [command, count as byte]) + Varuint(register)
  {
    hide Varuint;
  }

  /** `Encode` and `Items` unfolded at register `i`. */
  lemma EncodeStep(kind: Kind, start: nat, res: seq<Resolution>, values: seq<seq<byte>>, i: nat, tail: seq<byte>)
    requires |values| == |res| && i < |res|
    ensures res[i] == Ignore ==>
      && Encode(kind, start, res, values, i) == Encode(kind, start, res, values, i + 1)
      && Items(kind, start, res, values, i) == Items(kind, start, res, values, i + 1)
    ensures res[i] != Ignore ==>
      && Encode(kind, start, res, values, i) + tail
      == HeaderAt(kind, start, res, i) + (values[i] + (Encode(kind, start, res, values, i + 1) + tail))
      && Items(kind, start, res, values, i)
      == [Item(kind, (start + i) % REGISTERS, res[i], values[i])] + Items(kind, start, res, values, i + 1)
  {
    hide HeaderAt;
    var header, rest := HeaderAt(kind, start, res, i), Encode(kind, start, res, values, i + 1);
    HeaderOfIgnored(kind, start, res, i);
    if res[i] == Ignore {
      assert [] + [] + rest == rest;
    } else {
      assert header + values[i] + rest + tail == header + (values[i] + (rest + tail));
    }
  }

  lemma EncodeEnd(kind: Kind, start: nat, res: seq<Resolution>, values: seq<seq<byte>>)
    requires |values| == |res|
    ensures Encode(kind, start, res, values, |res|) == [] && Items(kind, start, res, values, |res|) == []
  {
  }

  lemma HeaderOfIgnored(kind: Kind, start: nat, res: seq<Resolution>, i: nat)
    requires i < |res|
    ensures res[i] == Ignore ==> HeaderAt(kind, start, res, i) == []
  {
  }

  lemma DecodeBlock(accept: set<Kind>, bs: seq<byte>, kind: Kind, res: Resolution, count: nat, register: uint16,
                    rest: seq<byte>)
    requires ReadHead(accept, bs) == Block(kind, res, count, register, rest)
    ensures Decode(accept, bs) == Take(accept, kind, res, register, count, rest)
  {
  }

  lemma NothingDecodes(accept: set<Kind>)
    ensures Decode(accept, []) == []
  {
  }

  /** One more register in front of a block whose remainder is known. */
  lemma TakeOne(accept: set<Kind>, kind: Kind, res: Resolution, register: nat, count: nat, value: seq<byte>,
                next: seq<byte>,
                others: seq<Item>, after: seq<Item>)
    requires count >= 1 && |value| == ValueWidth(kind, res)
    requires Take(accept, kind, res, (register + 1) % REGISTERS, count - 1, next) == others + after
    ensures Take(accept, kind, res, register % REGISTERS, count, value + next)
         == [Item(kind, register % REGISTERS, res, value)] + others + after
  {
    hide Decode, ReadHead, Take;
    var bs := value + next;
    assert bs[..|value|] == value && bs[|value|..] == next;
    AddWords(register, 1);
    TakeStep(accept, kind, res, register % REGISTERS, count, bs);
  }

  lemma TakeStep(accept: set<Kind>, kind: Kind, res: Resolution, register: uint16, count: nat, bs: seq<byte>)
    requires count >= 1 && ValueWidth(kind, res) <= |bs|
    ensures var width := ValueWidth(kind, res);
      Take(accept, kind, res, register, count, bs)
      == [Item(kind, register, res, bs[..width])]
        + Take(accept, kind, res, (register + 1) % REGISTERS, count - 1, bs[width..])
  {
    hide Decode;
  }

  lemma TakeNone(accept: set<Kind>, kind: Kind, res: Resolution, register: uint16, bs: seq<byte>)
    ensures Take(accept, kind, res, register, 0, bs) == Decode(accept, bs)
  {
  }

  /**
   Whatever is appended, decoding gives back exactly the registers that are not
   ignored, in order, with their values, and then the decoding of what was appended.
  */
  lemma {:induction false} DecodeEncode(accept: set<Kind>, kind: Kind, start: nat, res: seq<Resolution>,
                                        values: seq<seq<byte>>, i: nat, tail: seq<byte>)
    requires kind in accept && start < REGISTERS && |res| <= REGISTERS && i <= |res|
    requires Fitting(kind, res, values) && ShortRuns(res)
    requires i == 0 || i == |res| || res[i] == Ignore || res[i - 1] != res[i]
    ensures Decode(accept, Encode(kind, start, res, values, i) + tail)
         == Items(kind, start, res, values, i) + Decode(accept, tail)
    decreases |res| - i, 1
  {
    hide Decode, Take, ReadHead, Header, ReadVaruint, Encode, Items;
    if i == |res| {
      EncodeEnd(kind, start, res, values);
      assert [] + tail == tail && [] + Decode(accept, tail) == Decode(accept, tail);
    } else {
      EncodeStep(kind, start, res, values, i, tail);
      if res[i] == Ignore {
        DecodeEncode(accept, kind, start, res, values, i + 1, tail);
      } else {
        var next := Encode(kind, start, res, values, i + 1) + tail;
        ReadHeader(accept, kind, res[i], Run(res, i), start + i, values[i] + next);
        DecodeBlock(accept, Encode(kind, start, res, values, i) + tail,
                    kind, res[i], Run(res, i), (start + i) % REGISTERS, values[i] + next);
        TakeEncode(accept, kind, start, res, values, i, tail);
        TakeOne(accept, kind, res[i], start + i, Run(res, i), values[i], next,
                Items(kind, start, res, values, i + 1), Decode(accept, tail));
      }
    }
  }

  /** The registers of a block that come after register `i`. */
  lemma {:induction false} TakeEncode(accept: set<Kind>, kind: Kind, start: nat, res: seq<Resolution>,
                                      values: seq<seq<byte>>, i: nat, tail: seq<byte>)
    requires kind in accept && start < REGISTERS && |res| <= REGISTERS && i < |res| && res[i] != Ignore
    requires Fitting(kind, res, values) && ShortRuns(res)
    ensures Take(accept, kind, res[i], (start + i + 1) % REGISTERS, Run(res, i) - 1,
                 Encode(kind, start, res, values, i + 1) + tail)
         == Items(kind, start, res, values, i + 1) + Decode(accept, tail)
    decreases |res| - i, 0
  {
    hide Decode, Take, ReadHead, Header, ReadVaruint, Encode, Items;
    if i + 1 < |res| && res[i + 1] == res[i] {
      TakeEncode(accept, kind, start, res, values, i + 1, tail);
      EncodeStep(kind, start, res, values, i + 1, tail);
      var next := values[i + 1] + (Encode(kind, start, res, values, i + 2) + tail);
      assert HeaderAt(kind, start, res, i + 1) + next == next;
      TakeOne(accept, kind, res[i], start + i + 1, Run(res, i) - 1, values[i + 1],
              Encode(kind, start, res, values, i + 2) + tail,
              Items(kind, start, res, values, i + 2), Decode(accept, tail));
    } else {
      TakeNone(accept, kind, res[i], (start + i + 1) % REGISTERS, Encode(kind, start, res, values, i + 1) + tail);
      DecodeEncode(accept, kind, start, res, values, i + 1, tail);
    }
  }

  // ------------------------------------------------------------- sizes

  /** A block's values alone take `Run` times the width of its resolution. */
  lemma {:induction false} EncodeHoldsRun(kind: Kind, start: nat, res: seq<Resolution>, values: seq<seq<byte>>, i: nat)
    requires kind != Read && i < |res| && res[i] != Ignore && Fitting(kind, res, values)
    ensures Run(res, i) <= |Encode(kind, start, res, values, i)|
    decreases |res| - i
  {
    hide Varuint, HeaderAt;
    if i + 1 < |res| && res[i + 1] == res[i] {
      EncodeHoldsRun(kind, start, res, values, i + 1);
    }
  }

  lemma {:induction false} EncodeSuffix(kind: Kind, start: nat, res: seq<Resolution>, values: seq<seq<byte>>, i: nat,
                                        j: nat)
    requires |values| == |res| && i <= j <= |res|
    ensures |Encode(kind, start, res, values, j)| <= |Encode(kind, start, res, values, i)|
    decreases j - i
  {
    hide Varuint, HeaderAt;
    if i < j {
      EncodeSuffix(kind, start, res, values, i + 1, j);
    }
  }

  /** Values that fit a frame whose size is a byte never form a run the count byte cannot hold. */
  lemma FrameHasShortRuns(kind: Kind, start: nat, res: seq<Resolution>, values: seq<seq<byte>>)
    requires kind != Read && Fitting(kind, res, values)
    requires |Encode(kind, start, res, values, 0)| < 256
    ensures ShortRuns(res)
  {
    forall i | 0 <= i < |res| && StartsBlock(res, i)
      ensures Run(res, i) < 256
    {
      EncodeSuffix(kind, start, res, values, 0, i);
      EncodeHoldsRun(kind, start, res, values, i);
    }
  }
}
