/**
 The reply to a query, block by block: its size is what the query foretold, it carries exactly
 what was asked, and its readers find every register in its place.
*/
module QueryReply {
  import opened Bytes
  import opened Registers
  import opened Numbers
  import opened Combiner
  import opened Query
  import opened QueryFrame

  /** Consecutive registers of a reply with their values. */
  datatype Part = Part(start: uint16, res: seq<Resolution>, values: seq<seq<byte>>) {
    ghost predicate Valid() {
      Fitting(Reply, res, values) && |res| <= REGISTERS
    }
  }

  /** The values a device answers a query with. */
  datatype Values = Values(servo: seq<seq<byte>>, status: seq<seq<byte>>, gpio: seq<seq<byte>>, pwm: seq<seq<byte>>,
                           extra: seq<seq<byte>>)

  ghost function Blocks(f: Format, v: Values): seq<Part>
    requires Acceptable(Extra(f))
  {
    [Part(MODE, Servo(f), v.servo), Part(MOTOR_TEMPERATURE, Status(f), v.status),
     Part(AUX1_GPIO_STATUS, Gpio(f), v.gpio),
     Part(AUX1_PWM_INPUT_PERIOD, PwmInput(f), v.pwm), Part(First(Extra(f)), Resolutions(Extra(f)), v.extra)]
  }

  ghost predicate AllValid(blocks: seq<Part>) {
    forall k | 0 <= k < |blocks| :: blocks[k].Valid()
  }

  /** The bytes of a reply. */
  ghost function ReplyOf(blocks: seq<Part>): seq<byte>
    requires AllValid(blocks)
  {
    if blocks == [] then []
    else Encode(Reply, blocks[0].start, blocks[0].res, blocks[0].values, 0) + ReplyOf(blocks[1..])
  }

  ghost function ItemsOf(blocks: seq<Part>): seq<Item>
    requires AllValid(blocks)
  {
    if blocks == [] then []
    else Items(Reply, blocks[0].start, blocks[0].res, blocks[0].values, 0) + ItemsOf(blocks[1..])
  }

  ghost function SizeOf(blocks: seq<Part>): nat {
    if blocks == [] then 0 else ReplyBytes(blocks[0].start, blocks[0].res, 0) + SizeOf(blocks[1..])
  }

  lemma {:induction false} SizeIsLength(blocks: seq<Part>)
    requires AllValid(blocks)
    ensures |ReplyOf(blocks)| == SizeOf(blocks)
  {
    hide Encode, ReplyBytes;
    if blocks != [] {
      assert blocks[0].Valid();
      ReplyBytesIsLength(blocks[0].start, blocks[0].res, blocks[0].values, 0);
      SizeIsLength(blocks[1..]);
    }
  }

  /** Sixteen extra entries and twenty fields never fill more than 248 bytes. */
  lemma QueryCost(f: Format)
    requires |f.extra| <= MAX_EXTRA && Acceptable(Extra(f))
    ensures QueryReplyBytes(f) <= 248
  {
    hide ReplyBytes, Resolutions, First, Asked;
    ReplyCost(MODE, Servo(f), 0, 6);
    ReplyCost(MOTOR_TEMPERATURE, Status(f), 0, 6);
    ReplyCost(AUX1_GPIO_STATUS, Gpio(f), 0, 6);
    ReplyCost(AUX1_PWM_INPUT_PERIOD, PwmInput(f), 0, 6);
    ListCost(Extra(f));
  }

  /** The size that `Query::Make` returns is the length of the reply, whatever it carries: it always fits its byte. */
  lemma ReturnedSizeExact(f: Format, v: Values)
    requires |f.extra| <= MAX_EXTRA && Acceptable(Extra(f)) && AllValid(Blocks(f, v))
    ensures QueryReplyBytes(f) < 256 && QueryReplyBytes(f) % 256 == |ReplyOf(Blocks(f, v))|
  {
    hide ReplyOf, ReplyBytes, Resolutions, First;
    var blocks := Blocks(f, v);
    QueryCost(f);
    SizeIsLength(blocks);
    assert SizeOf(blocks[5..]) == 0;
    assert blocks[1..][1..] == blocks[2..] && blocks[2..][1..] == blocks[3..] && blocks[3..][1..] == blocks[4..]
      && blocks[4..][1..] == blocks[5..];
    assert SizeOf(blocks[3..]) == ReplyBytes(AUX1_PWM_INPUT_PERIOD, PwmInput(f), 0) + SizeOf(blocks[4..]);
    assert SizeOf(blocks[1..]) == ReplyBytes(MOTOR_TEMPERATURE, Status(f), 0) + SizeOf(blocks[2..]);
  }

  /** The blocks of a reply decode one after the other, and then what follows them. */
  lemma {:induction false} BlocksDecode(blocks: seq<Part>, tail: seq<byte>)
    requires AllValid(blocks) && |ReplyOf(blocks)| < 256
    ensures Decode({Reply}, ReplyOf(blocks) + tail) == ItemsOf(blocks) + Decode({Reply}, tail)
  {
    hide Encode, Items, Decode;
    if blocks == [] {
      assert ReplyOf(blocks) + tail == tail && ItemsOf(blocks) + Decode({Reply}, tail) == Decode({Reply}, tail);
    } else {
      var block := blocks[0];
      assert block.Valid();
      var bytes, rest := Encode(Reply, block.start, block.res, block.values, 0), ReplyOf(blocks[1..]);
      FrameHasShortRuns(Reply, block.start, block.res, block.values);
      DecodeEncode({Reply}, Reply, block.start, block.res, block.values, 0, rest + tail);
      BlocksDecode(blocks[1..], tail);
      assert ReplyOf(blocks) + tail == bytes + (rest + tail);
    }
  }

  /** What would have to be asked to be answered with these items. */
  function Asks(items: seq<Item>): (r: seq<Item>)
    ensures |r| == |items|
    ensures forall k | 0 <= k < |items| :: r[k] == Item(Read, items[k].register, items[k].resolution, [])
  {
    seq(|items|, k requires 0 <= k < |items| => Item(Read, items[k].register, items[k].resolution, []))
  }

  lemma {:induction false} AsksItems(start: nat, res: seq<Resolution>, values: seq<seq<byte>>, i: nat)
    requires |values| == |res| && i <= |res|
    ensures Asks(Items(Reply, start, res, values, i)) == Items(Read, start, res, NoValues(|res|), i)
    decreases |res| - i
  {
    if i < |res| {
      AsksItems(start, res, values, i + 1);
    }
  }

  ghost function AskedOf(blocks: seq<Part>): seq<Item> {
    if blocks == [] then []
    else Items(Read, blocks[0].start, blocks[0].res, NoValues(|blocks[0].res|), 0) + AskedOf(blocks[1..])
  }

  lemma {:induction false} AsksBlocks(blocks: seq<Part>)
    requires AllValid(blocks)
    ensures Asks(ItemsOf(blocks)) == AskedOf(blocks)
  {
    hide Items;
    if blocks != [] {
      assert blocks[0].Valid();
      AsksItems(blocks[0].start, blocks[0].res, blocks[0].values, 0);
      AsksBlocks(blocks[1..]);
    }
  }

  /** The reply carries exactly what the query asked for, register by register, in order. */
  lemma ReplyAnswersQuery(f: Format, v: Values)
    requires |f.extra| <= MAX_EXTRA && Acceptable(Extra(f))
    requires AllValid(Blocks(f, v))
    ensures Asks(Decode({Reply}, ReplyOf(Blocks(f, v)))) == Decode({Write, Read}, QueryBytes(f))
  {
    hide Decode, Encode, Items, ReplyOf, ItemsOf, Resolutions, First, Listed, Numbered, Fields, Request;
    var blocks := Blocks(f, v);
    ReturnedSizeExact(f, v);
    BlocksDecode(blocks, []);
    NothingDecodes({Reply});
    assert ReplyOf(blocks) + [] == ReplyOf(blocks) && ItemsOf(blocks) + [] == ItemsOf(blocks);
    AsksBlocks(blocks);
    QueryNames(f, []);
    NothingDecodes({Write, Read});
    assert QueryBytes(f) + [] == QueryBytes(f);
    AskedIsListed(f, v);
  }

  lemma AskedIsListed(f: Format, v: Values)
    requires Acceptable(Extra(f))
    ensures AskedOf(Blocks(f, v)) == Listed(Fields(f)) + Listed(Named(Extra(f)))
  {
    hide Items, Resolutions, First, Listed, Numbered, Fields;
    var blocks := Blocks(f, v);
    var a, b, c, d := Numbered(MODE, Servo(f)), Numbered(MOTOR_TEMPERATURE, Status(f)),
                      Numbered(AUX1_GPIO_STATUS, Gpio(f)), Numbered(AUX1_PWM_INPUT_PERIOD, PwmInput(f));
    AskedBlock(MODE, Servo(f));
    AskedBlock(MOTOR_TEMPERATURE, Status(f));
    AskedBlock(AUX1_GPIO_STATUS, Gpio(f));
    AskedBlock(AUX1_PWM_INPUT_PERIOD, PwmInput(f));
    ResolutionsName(Extra(f));
    assert blocks[1..][1..] == blocks[2..] && blocks[2..][1..] == blocks[3..] && blocks[3..][1..] == blocks[4..]
      && blocks[4..][1..] == [];
    var e := Listed(Named(Extra(f)));
    assert AskedOf(blocks[4..]) == e + [] == e;
    assert AskedOf(blocks[3..]) == Listed(d) + e;
    assert AskedOf(blocks[2..]) == Listed(c) + (Listed(d) + e);
    assert AskedOf(blocks[1..]) == Listed(b) + (Listed(c) + (Listed(d) + e));
    FieldsAreBlocks(f);
    ListedConcat(a, b + (c + d));
    ListedConcat(b, c + d);
    ListedConcat(c, d);
  }

  lemma AskedBlock(start: uint16, res: seq<Resolution>)
    requires start + |res| <= 0x7fff
    ensures Items(Read, start, res, NoValues(|res|), 0) == Listed(Numbered(start, res))
  {
    hide Items, Listed;
    BlockItems(start, res, 0);
    assert Numbered(start, res)[0..] == Numbered(start, res);
  }

  // ------------------------------------------------------------- what the reader keeps

  /** A named field holds the reading of the last item for its register. */
  lemma {:induction false} FieldIsLast(result: Result, items: seq<Item>, k: nat)
    requires k < |items| && FieldType(items[k].register).Some?
    requires forall j | k < j < |items| :: items[j].register != items[k].register
    ensures items[k].register in NoteAll(result, items).fields
    ensures NoteAll(result, items).fields[items[k].register]
         == ReadConcrete(FieldType(items[k].register).value, items[k].resolution, items[k].value)
    decreases |items|
  {
    hide ReadConcrete, FieldType, Generic;
    if k == 0 {
      FieldIsKept(Note(result, items[0]), items[1..], items[0].register);
    } else {
      FieldIsLast(Note(result, items[0]), items[1..], k - 1);
    }
  }

  lemma {:induction false} FieldIsKept(result: Result, items: seq<Item>, register: uint16)
    requires forall j | 0 <= j < |items| :: items[j].register != register
    ensures register in NoteAll(result, items).fields <==> register in result.fields
    ensures register in result.fields ==> NoteAll(result, items).fields[register] == result.fields[register]
    decreases |items|
  {
    hide ReadConcrete, FieldType, Generic;
    if items != [] {
      FieldIsKept(Note(result, items[0]), items[1..], register);
    }
  }

  /** The items that have no field of their own. */
  function Unnamed(items: seq<Item>): seq<Item> {
    if items == [] then []
    else if FieldType(items[0].register).Some? then Unnamed(items[1..])
    else [items[0]] + Unnamed(items[1..])
  }

  lemma NoteExtra(result: Result, item: Item)
    ensures Note(result, item).extra
         == if FieldType(item.register).None? && |result.extra| < MAX_EXTRA then result.extra + [Generic(item)]
            else result.extra
  {
    hide ReadConcrete, FieldType, Generic;
  }

  function Front<T>(s: seq<T>, n: nat): seq<T> {
    if |s| <= n then s else s[..n]
  }

  /** The extra entries are the first sixteen registers without a field, in order. */
  lemma {:induction false} ExtraIsFirst(result: Result, items: seq<Item>)
    requires |result.extra| <= 16
    ensures NoteAll(result, items).extra == result.extra + GenericAll(Front(Unnamed(items), 16 - |result.extra|))
    decreases |items|
  {
    hide Note, FieldType, Generic;
    var free := MAX_EXTRA - |result.extra|;
    if items != [] {
      var item, others := items[0], Unnamed(items[1..]);
      NoteExtra(result, item);
      ExtraIsFirst(Note(result, item), items[1..]);
      if FieldType(item.register).None? {
        assert Unnamed(items) == [item] + others;
        if free > 0 {
          assert Front([item] + others, free) == [item] + Front(others, free - 1);
          assert GenericAll([item] + Front(others, free - 1)) == [Generic(item)] + GenericAll(Front(others, free - 1));
        }
      }
    }
  }
}
