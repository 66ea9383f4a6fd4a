/**
 From a query to what its reader returns: the reply of a device, padded to a frame length,
 is parsed into one reading for every register asked for.
*/
module ReplyRoundTrip {
  import opened Bytes
  import opened Registers
  import opened Numbers
  import opened Combiner
  import opened Query
  import opened QueryFrame
  import opened QueryReply
  import Padding

  /** A padded reply means what its blocks mean. */
  lemma PaddedReplyDecodes(blocks: seq<Part>)
    requires AllValid(blocks) && |ReplyOf(blocks)| <= 64
    ensures Decode({Reply}, Padding.Padded(ReplyOf(blocks))) == ItemsOf(blocks)
  {
    hide Decode, ReplyOf, ItemsOf, Padding.Nops, Padding.RoundUpDlc;
    var size := |ReplyOf(blocks)|;
    Padding.RoundsUpToLeast(size);
    Padding.NopsDecode({Reply}, Padding.RoundUpDlc(size) - size);
    BlocksDecode(blocks, Padding.Nops(Padding.RoundUpDlc(size) - size));
    assert ItemsOf(blocks) + [] == ItemsOf(blocks);
  }

  // ------------------------------------------------------------- one block

  /** Where a register stands in a block, if it does. */
  function At(block: Part, register: uint16): nat {
    (register - block.start) % REGISTERS
  }

  predicate Carries(block: Part, register: uint16) {
    At(block, register) < |block.res| && block.res[At(block, register)] != Ignore
  }

  /** The block's value for a register, read as the field that the register stands for. */
  ghost function ReadingIn(block: Part, register: uint16): Reading
    requires block.Valid() && Carries(block, register) && FieldType(register).Some?
  {
    ReadConcrete(FieldType(register).value, block.res[At(block, register)], block.values[At(block, register)])
  }

  lemma AtIs(start: uint16, i: nat, register: uint16)
    requires i < REGISTERS
    ensures (start + i) % REGISTERS == register <==> i == (register - start) % REGISTERS
  {
  }

  /** What a block does to one field. */
  lemma {:induction false} BlockField(result: Result, block: Part, i: nat, register: uint16)
    requires block.Valid() && i <= |block.res| && FieldType(register).Some?
    ensures var after := NoteAll(result, Items(Reply, block.start, block.res, block.values, i));
      if Carries(block, register) && At(block, register) >= i then
        register in after.fields && after.fields[register] == ReadingIn(block, register)
      else
        && (register in after.fields <==> register in result.fields)
        && (register in after.fields ==> after.fields[register] == result.fields[register])
    decreases |block.res| - i
  {
    hide ReadConcrete, FieldType, Generic, Items, Note, NoteAll;
    var items := Items(Reply, block.start, block.res, block.values, i);
    EncodeEndOrStep(block, i);
    if i == |block.res| {
      NoteStep(result, items);
    } else if block.res[i] == Ignore {
      BlockField(result, block, i + 1, register);
    } else {
      NoteStep(result, items);
      AtIs(block.start, i, register);
      NoteOne(result, items[0], register);
      assert items[1..] == Items(Reply, block.start, block.res, block.values, i + 1);
      BlockField(Note(result, items[0]), block, i + 1, register);
    }
  }

  lemma EncodeEndOrStep(block: Part, i: nat)
    requires block.Valid() && i <= |block.res|
    ensures var items := Items(Reply, block.start, block.res, block.values, i);
      if i == |block.res| then items == []
      else if block.res[i] == Ignore then items == Items(Reply, block.start, block.res, block.values, i + 1)
      else items == [Item(Reply, (block.start + i) % REGISTERS, block.res[i], block.values[i])]
                    + Items(Reply, block.start, block.res, block.values, i + 1)
  {
  }

  lemma NoteStep(result: Result, items: seq<Item>)
    ensures NoteAll(result, items) == if items == [] then result else NoteAll(Note(result, items[0]), items[1..])
  {
    hide Note;
  }

  lemma NoteOne(result: Result, item: Item, register: uint16)
    requires FieldType(register).Some?
    ensures var after := Note(result, item);
      if item.register == register then
        register in after.fields
          && after.fields[register] == ReadConcrete(FieldType(register).value, item.resolution, item.value)
      else
        && (register in after.fields <==> register in result.fields)
        && (register in after.fields ==> after.fields[register] == result.fields[register])
  {
    hide ReadConcrete, FieldType, Generic;
  }

  lemma {:induction false} NoteConcat(result: Result, a: seq<Item>, b: seq<Item>)
    ensures NoteAll(result, a + b) == NoteAll(NoteAll(result, a), b)
    decreases |a|
  {
    hide Note;
    if a == [] {
      assert a + b == b;
    } else {
      assert (a + b)[1..] == a[1..] + b;
      NoteConcat(Note(result, a[0]), a[1..], b);
    }
  }

  // ------------------------------------------------------------- the whole reply

  /** The reading of the last block that carries a register. */
  ghost function LastReading(blocks: seq<Part>, register: uint16): Option<Reading>
    requires AllValid(blocks) && FieldType(register).Some?
  {
    if blocks == [] then None
    else if LastReading(blocks[1..], register).Some? then LastReading(blocks[1..], register)
    else
      assert blocks[0].Valid();
      if Carries(blocks[0], register) then Some(ReadingIn(blocks[0], register)) else None
  }

  lemma {:induction false} BlocksField(result: Result, blocks: seq<Part>, register: uint16)
    requires AllValid(blocks) && FieldType(register).Some?
    ensures var after := NoteAll(result, ItemsOf(blocks));
      match LastReading(blocks, register)
      case Some(reading) => register in after.fields && after.fields[register] == reading
      case None =>
        && (register in after.fields <==> register in result.fields)
        && (register in after.fields ==> after.fields[register] == result.fields[register])
    decreases |blocks|
  {
    hide Items, Note, FieldType, ReadingIn, Carries;
    if blocks != [] {
      var block := blocks[0];
      assert block.Valid();
      var first := Items(Reply, block.start, block.res, block.values, 0);
      NoteConcat(result, first, ItemsOf(blocks[1..]));
      BlockField(result, block, 0, register);
      BlocksField(NoteAll(result, first), blocks[1..], register);
    }
  }

  /** The fixed block that a named register belongs to. */
  ghost function FieldPart(f: Format, v: Values, register: uint16): Part {
    if register < 0x00a then Part(MODE, Servo(f), v.servo)
    else if register < 0x05e then Part(MOTOR_TEMPERATURE, Status(f), v.status)
    else if register < 0x072 then Part(AUX1_GPIO_STATUS, Gpio(f), v.gpio)
    else Part(AUX1_PWM_INPUT_PERIOD, PwmInput(f), v.pwm)
  }

  ghost function ExtraPart(f: Format, v: Values): Part
    requires Acceptable(Extra(f))
  {
    Part(First(Extra(f)), Resolutions(Extra(f)), v.extra)
  }

  /** Only its own block can carry a named register, apart from the extra entries. */
  lemma OwnPart(f: Format, v: Values, register: uint16)
    requires FieldType(register).Some?
    ensures var own := FieldPart(f, v, register);
      && (Carries(Part(MODE, Servo(f), v.servo), register) ==> own.start == MODE)
      && (Carries(Part(MOTOR_TEMPERATURE, Status(f), v.status), register) ==> own.start == MOTOR_TEMPERATURE)
      && (Carries(Part(AUX1_GPIO_STATUS, Gpio(f), v.gpio), register) ==> own.start == AUX1_GPIO_STATUS)
      && (Carries(Part(AUX1_PWM_INPUT_PERIOD, PwmInput(f), v.pwm), register) ==> own.start == AUX1_PWM_INPUT_PERIOD)
  {
    hide FieldType;
    FieldRange(register);
    Within(Part(MODE, Servo(f), v.servo), register);
    Within(Part(MOTOR_TEMPERATURE, Status(f), v.status), register);
    Within(Part(AUX1_GPIO_STATUS, Gpio(f), v.gpio), register);
    Within(Part(AUX1_PWM_INPUT_PERIOD, PwmInput(f), v.pwm), register);
  }

  lemma FieldRange(register: uint16)
    requires FieldType(register).Some?
    ensures register < 0x008 || 0x00a <= register < 0x010 || 0x05e <= register < 0x060 || 0x072 <= register < 0x076
  {
  }

  lemma Within(block: Part, register: uint16)
    requires block.start + |block.res| <= REGISTERS
    ensures Carries(block, register) ==> block.start <= register < block.start + |block.res|
  {
  }

  /**
   End to end: a query's reply, padded and parsed, gives every field that was asked for the
   reading of its value, if no extra entry asks for the field's register. If one does, the field
   holds the reading of the extra entry's value instead. A field that nothing asks for is left alone.
  */
  lemma FieldComesBack(f: Format, v: Values, register: uint16)
    requires Acceptable(Extra(f)) && AllValid(Blocks(f, v)) && |ReplyOf(Blocks(f, v))| <= 64
      && FieldType(register).Some?
    ensures var fields := NoteAll(Result(map[], []), Decode({Reply}, Padding.Padded(ReplyOf(Blocks(f, v))))).fields;
      var own, extra := FieldPart(f, v, register), ExtraPart(f, v);
      && own.Valid() && extra.Valid()
      && (register in fields <==> Carries(extra, register) || Carries(own, register))
      && (register in fields
          ==> fields[register] == ReadingIn(if Carries(extra, register) then extra else own, register))
  {
    hide Decode, ReplyOf, ItemsOf, NoteAll, Carries, ReadingIn, FieldType, Resolutions, First, Padding.Padded;
    var blocks := Blocks(f, v);
    PaddedReplyDecodes(blocks);
    BlocksField(Result(map[], []), blocks, register);
    OwnPart(f, v, register);
    assert blocks[0].Valid() && blocks[1].Valid() && blocks[2].Valid() && blocks[3].Valid() && blocks[4].Valid();
    assert blocks[1..][1..] == blocks[2..] && blocks[2..][1..] == blocks[3..] && blocks[3..][1..] == blocks[4..]
      && blocks[4..][1..] == [];
    assert LastReading(blocks[4..], register)
      == if Carries(blocks[4], register) then Some(ReadingIn(blocks[4], register)) else None;
    LastStep(blocks, 3, register);
    LastStep(blocks, 2, register);
    LastStep(blocks, 1, register);
    LastStep(blocks, 0, register);
    assert blocks[0..] == blocks;
  }

  lemma LastStep(blocks: seq<Part>, k: nat, register: uint16)
    requires AllValid(blocks) && k < |blocks| && FieldType(register).Some?
    ensures AllValid(blocks[k..]) && AllValid(blocks[k + 1..]) && blocks[k].Valid()
    ensures LastReading(blocks[k..], register) ==
      if LastReading(blocks[k + 1..], register).Some? then LastReading(blocks[k + 1..], register)
      else if Carries(blocks[k], register) then Some(ReadingIn(blocks[k], register)) else None
  {
    hide Carries, ReadingIn, FieldType;
    assert blocks[k..][1..] == blocks[k + 1..];
  }

  /** The extra block carries a register exactly if an entry before the first repetition asks for it. */
  lemma ExtraCarries(f: Format, v: Values, register: uint16)
    requires Acceptable(Extra(f))
    ensures Carries(ExtraPart(f, v), register) <==>
      exists k :: 0 <= k < |Named(Extra(f))| && Named(Extra(f))[k].resolution != Ignore
               && Named(Extra(f))[k].register as int % REGISTERS == register
  {
    hide Dense, Wanted, Distinct;
    var items := Extra(f);
    var part := ExtraPart(f, v);
    if items != [] {
      NamedIncreases(items);
      var named, first, at := Named(items), items[0].register as int, At(part, register);
      forall k | 0 <= k < |named|
        ensures named[k].register as int % REGISTERS == register <==> at == named[k].register as int - first
        ensures 0 <= named[k].register as int - first < |part.res|
      {
        SameRegister(first, named[k].register as int, register);
      }
      if at < |part.res| {
        assert part.res[at] == Wanted(named, first + at);
        if k :| 0 <= k < |named| && named[k].register as int == first + at {
          WantedAt(named, k);
        } else {
          NotWanted(named, first + at);
        }
      }
    }
  }

  // ------------------------------------------------------------- the current of a motor

  /** The extra list asks for a register. */
  ghost predicate AsksExtra(f: Format, register: uint16)
    requires Acceptable(Extra(f))
  {
    exists k :: 0 <= k < |Named(Extra(f))| && Named(Extra(f))[k].resolution != Ignore
             && Named(Extra(f))[k].register as int % REGISTERS == register
  }

  const Q_CURRENT: uint16 := 0x004

  /** A reply gives a current exactly if the query asks for one; otherwise it stays NaN. */
  lemma CurrentIsRead(f: Format, v: Values)
    requires Acceptable(Extra(f)) && AllValid(Blocks(f, v)) && |ReplyOf(Blocks(f, v))| <= 64
    ensures Q_CURRENT in NoteAll(Result(map[], []), Decode({Reply}, Padding.Padded(ReplyOf(Blocks(f, v))))).fields
      <==> f.qCurrent != Ignore || AsksExtra(f, Q_CURRENT)
  {
    hide Decode, ReplyOf, NoteAll, Named, Padding.Padded, Resolutions, First;
    FieldComesBack(f, v, Q_CURRENT);
    ExtraCarries(f, v, Q_CURRENT);
    assert At(FieldPart(f, v, Q_CURRENT), Q_CURRENT) == 4;
  }

  /** The query of a controller whose options ask for nothing else. */
  const DEFAULT: Format :=
    Format(Int8, Float, Float, Float, Ignore, Ignore, Ignore, Ignore, Ignore, Ignore, Ignore, Int8, Int8, Int8,
           Ignore, Ignore, Ignore, Ignore, Ignore, Ignore, seq(MAX_EXTRA, _ => ItemFormat(END, Ignore)))

  /** The reply to the default query fits a frame and never gives a current. */
  lemma DefaultHasNoCurrent(v: Values)
    requires Acceptable(Extra(DEFAULT)) && AllValid(Blocks(DEFAULT, v))
    ensures |ReplyOf(Blocks(DEFAULT, v))| <= 64
    ensures Q_CURRENT !in NoteAll(Result(map[], []),
                                  Decode({Reply}, Padding.Padded(ReplyOf(Blocks(DEFAULT, v))))).fields
  {
    hide Decode, ReplyOf, NoteAll, Padding.Padded;
    ReturnedSizeExact(DEFAULT, v);
    DefaultReplySize();
    CurrentIsRead(DEFAULT, v);
  }

  lemma DefaultReplySize()
    ensures Extra(DEFAULT) == [] && Acceptable(Extra(DEFAULT)) && QueryReplyBytes(DEFAULT) <= 64
  {
    hide ReplyBytes, Resolutions, First, Asked;
    ReplyCost(MODE, Servo(DEFAULT), 0, 6);
    ReplyCost(MOTOR_TEMPERATURE, Status(DEFAULT), 0, 6);
    ReplyCost(AUX1_GPIO_STATUS, Gpio(DEFAULT), 0, 6);
    ReplyCost(AUX1_PWM_INPUT_PERIOD, PwmInput(DEFAULT), 0, 6);
    NothingIsAcceptable();
    ListCost(Extra(DEFAULT));
    NoneAsked(Servo(DEFAULT), 4);
    AskedStep(Servo(DEFAULT), 0);
    AskedStep(Servo(DEFAULT), 1);
    AskedStep(Servo(DEFAULT), 2);
    AskedStep(Servo(DEFAULT), 3);
    NoneAsked(Gpio(DEFAULT), 0);
    NoneAsked(PwmInput(DEFAULT), 0);
  }

  lemma NothingIsAcceptable()
    ensures Extra(DEFAULT) == [] && Acceptable([])
  {
  }

  lemma AskedStep(res: seq<Resolution>, i: nat)
    requires i < |res|
    ensures Asked(res, i) <= 1 + Asked(res, i + 1)
  {
  }

  lemma {:induction false} NoneAsked(res: seq<Resolution>, i: nat)
    requires i <= |res| && forall k | i <= k < |res| :: res[k] == Ignore
    ensures Asked(res, i) == 0
    decreases |res| - i
  {
    if i < |res| {
      NoneAsked(res, i + 1);
    }
  }

  lemma SameRegister(first: int, other: int, register: uint16)
    requires 0 <= other - first < REGISTERS
    ensures other % REGISTERS == register <==> other - first == (register - first % REGISTERS) % REGISTERS
  {
  }

  /** No entry of the extra list stands for a register with a field of its own. */
  lemma ExtraHasNoField(items: seq<Item>, k: nat)
    requires k < |NoteAll(Result(map[], []), items).extra|
    ensures exists j :: 0 <= j < |items| && FieldType(items[j].register).None?
                     && NoteAll(Result(map[], []), items).extra[k] == Generic(items[j])
  {
    hide Note, NoteAll, FieldType, Generic;
    ExtraIsFirst(Result(map[], []), items);
    assert NoteAll(Result(map[], []), items).extra[k] == Generic(Unnamed(items)[k]);
    var j := UnnamedFrom(items, k);
    assert items[j] == Unnamed(items)[k];
  }

  lemma {:induction false} UnnamedFrom(items: seq<Item>, k: nat) returns (j: nat)
    requires k < |Unnamed(items)|
    ensures j < |items| && items[j] == Unnamed(items)[k] && FieldType(items[j].register).None?
  {
    hide FieldType;
    if FieldType(items[0].register).None? && k == 0 {
      j := 0;
    } else {
      var before := UnnamedFrom(items[1..], if FieldType(items[0].register).None? then k - 1 else k);
      j := before + 1;
    }
  }
}
