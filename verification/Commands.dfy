/**
 Commands as register writes (`PositionMode::Make` and its siblings): a mode write, then
 one register per field, framed by the combiner.
*/
module Commands {
  import opened Bytes
  import opened Registers
  import opened Doubles
  import opened Numbers
  import opened Combiner

  /** A value about to be written: scaled, or a whole number. */
  datatype Field =
    | Mapped(value: Double, concrete: Concrete, resolution: Resolution)
    | Whole(number: int, resolution: Resolution)

  function FieldBytes(field: Field, float: FloatBytes): (bytes: seq<byte>)
    ensures field.resolution != Ignore ==> |bytes| == Width(field.resolution)
  {
    if field.resolution == Ignore then []
    else match field
      case Mapped(value, concrete, res) => WriteMapped(value, concrete, res, float)
      case Whole(number, res) => WriteInt(number, res, float)
  }

  ghost function FieldResolutions(fields: seq<Field>): (res: seq<Resolution>)
    ensures |res| == |fields| && forall k | 0 <= k < |fields| :: res[k] == fields[k].resolution
  {
    seq(|fields|, k requires 0 <= k < |fields| => fields[k].resolution)
  }

  ghost function FieldValues(fields: seq<Field>, float: FloatBytes): (values: seq<seq<byte>>)
    ensures |values| == |fields| && forall k | 0 <= k < |fields| :: values[k] == FieldBytes(fields[k], float)
  {
    seq(|fields|, k requires 0 <= k < |fields| => FieldBytes(fields[k], float))
  }

  /** The bytes of the fields from `i` on. */
  ghost function FieldsFrom(start: uint16, fields: seq<Field>, float: FloatBytes, i: nat): seq<byte>
    requires i <= |fields|
  {
    Encode(Write, start, FieldResolutions(fields), FieldValues(fields, float), i)
  }

  /** Each field that is not ignored, written to its own register. */
  ghost function Writes(start: uint16, fields: seq<Field>, float: FloatBytes, i: nat): seq<Item>
    requires i <= |fields| && start + |fields| <= REGISTERS
    decreases |fields| - i
  {
    if i == |fields| then []
    else
      (if fields[i].resolution == Ignore then []
       else [Item(Write, start + i, fields[i].resolution, FieldBytes(fields[i], float))])
      + Writes(start, fields, float, i + 1)
  }

  /** The combiner of one command, with a record of the fields it is to write and of the bytes that must result. */
  class FieldWriter {
    const combiner: WriteCombiner
    const float: FloatBytes
    ghost const fields: seq<Field>
    ghost const target: seq<byte>

    constructor (frame: CanData, start: uint16, resolutions: seq<Resolution>, float: FloatBytes,
                 ghost fields: seq<Field>)
      requires frame.Valid() && |fields| < 0x8000 && resolutions == FieldResolutions(fields)
      requires frame.size + |FieldsFrom(start, fields, float, 0)| <= CAPACITY
      ensures Valid() && combiner.frame == frame && combiner.offset == 0 && fresh(combiner)
      ensures this.fields == fields && target == frame.Contents() + FieldsFrom(start, fields, float, 0)
    {
      combiner := new WriteCombiner(frame, Write, start, resolutions);
      this.float, this.fields := float, fields;
      target := frame.Contents() + FieldsFrom(start, fields, float, 0);
    }

    ghost predicate Valid()
      reads combiner, combiner.frame, combiner.frame.data
    {
      && combiner.Valid() && combiner.frame.Valid()
      && combiner.kind == Write && combiner.resolutions == FieldResolutions(fields)
      && |target| <= CAPACITY
      && combiner.frame.Contents() + FieldsFrom(combiner.start, fields, float, combiner.offset) == target
    }

    /** `if (combiner.MaybeWrite()) { frame->Write...(value, resolution); }` */
    method Put(field: Field)
      requires Valid() && combiner.offset < |fields| && field == fields[combiner.offset]
      modifies combiner, combiner.frame, combiner.frame.data
      ensures Valid() && combiner.offset == old(combiner.offset) + 1
    {
      hide HeaderAt, ReplyBytesAt, FieldBytes, FieldsFrom, Encode, Width;
      ghost var i, start := combiner.offset, combiner.start;
      ghost var res, values := FieldResolutions(fields), FieldValues(fields, float);
      ghost var before := combiner.frame.Contents();
      FieldsStep(start, fields, float, i);
      var write := combiner.MaybeWrite();
      if write {
        combiner.frame.Append(FieldBytes(field, float));
      }
      ghost var rest := FieldsFrom(start, fields, float, i + 1);
      assert combiner.frame.Contents() == before + (HeaderAt(Write, start, res, i) + FieldBytes(field, float));
      assert combiner.frame.Contents() + rest
        == before + (HeaderAt(Write, start, res, i) + FieldBytes(field, float) + rest);
    }

    /** The combiner must have seen every field when it goes away. */
    lemma Done()
      requires Valid() && combiner.offset == |fields|
      ensures combiner.frame.Valid() && combiner.frame.Contents() == target
    {
      assert FieldsFrom(combiner.start, fields, float, |fields|) == [];
    }
  }

  /** Every command starts by writing the mode register. */
  method Begin(frame: CanData, mode: byte, start: uint16, resolutions: seq<Resolution>, float: FloatBytes,
               ghost fields: seq<Field>)
    returns (writer: FieldWriter)
    requires frame.Valid() && |fields| < 0x8000 && resolutions == FieldResolutions(fields)
    requires frame.size + |CommandBytes(mode, start, fields, float)| <= CAPACITY
    modifies frame, frame.data
    ensures fresh(writer) && fresh(writer.combiner) && writer.Valid()
    ensures writer.combiner.frame == frame && writer.combiner.offset == 0 && writer.fields == fields
    ensures writer.target == old(frame.Contents()) + CommandBytes(mode, start, fields, float)
  {
    hide FieldsFrom, FieldResolutions;
    ghost var before, body := frame.Contents(), FieldsFrom(start, fields, float, 0);
    frame.Append([0x01]);
    frame.Append([0x00]);
    frame.Append([mode]);
    assert frame.Contents() + body == before + ([0x01, 0x00, mode] + body) by {
      assert frame.Contents() == before + [0x01] + [0x00] + [mode];
    }
    writer := new FieldWriter(frame, start, resolutions, float, fields);
  }

  lemma FieldsStep(start: uint16, fields: seq<Field>, float: FloatBytes, i: nat)
    requires i < |fields|
    ensures FieldsFrom(start, fields, float, i)
         == HeaderAt(Write, start, FieldResolutions(fields), i) + FieldBytes(fields[i], float)
           + FieldsFrom(start, fields, float, i + 1)
    ensures fields[i].resolution == Ignore ==>
      HeaderAt(Write, start, FieldResolutions(fields), i) == [] && FieldBytes(fields[i], float) == []
  {
    hide Encode, Header, WriteMapped, WriteInt;
    EncodeTidy(start, FieldResolutions(fields), FieldValues(fields, float), i);
  }

  lemma EncodeTidy(start: nat, res: seq<Resolution>, values: seq<seq<byte>>, i: nat)
    requires |values| == |res| && i < |res|
    ensures Encode(Write, start, res, values, i)
         == HeaderAt(Write, start, res, i) + (if res[i] == Ignore then [] else values[i])
           + Encode(Write, start, res, values, i + 1)
  {
  }

  lemma ModeDecodes(accept: set<Kind>, mode: byte, tail: seq<byte>)
    requires Write in accept
    ensures Decode(accept, [0x01, 0x00, mode] + tail) == [Item(Write, 0, Int8, [mode])] + Decode(accept, tail)
  {
    hide Decode, Encode, Items;
    ModeEncode(mode);
    DecodeEncode(accept, Write, 0, [Int8], [[mode]], 0, tail);
  }

  /** The mode write is what the combiner would write for one 8-bit register. */
  lemma ModeEncode(mode: byte)
    ensures Encode(Write, 0, [Int8], [[mode]], 0) == [0x01, 0x00, mode]
    ensures Items(Write, 0, [Int8], [[mode]], 0) == [Item(Write, 0, Int8, [mode])]
  {
    var res, values := [Int8], [[mode]];
    assert Varuint(0) == [0];
    assert Items(Write, 0, res, values, 1) == [] && Encode(Write, 0, res, values, 1) == [];
    assert HeaderAt(Write, 0, res, 0) == [0x01] + Varuint(0);
  }

  lemma {:induction false} WritesAreItems(start: uint16, fields: seq<Field>, float: FloatBytes, i: nat)
    requires i <= |fields| && start + |fields| <= REGISTERS
    ensures Writes(start, fields, float, i)
      == Items(Write, start, FieldResolutions(fields), FieldValues(fields, float), i)
    decreases |fields| - i
  {
    hide FieldBytes, Writes, Items, FieldResolutions, FieldValues;
    WritesStep(start, fields, float, i);
    if i < |fields| {
      WritesAreItems(start, fields, float, i + 1);
    }
  }

  /** `Writes` and `Items` unfolded at field `i`. */
  lemma WritesStep(start: uint16, fields: seq<Field>, float: FloatBytes, i: nat)
    requires i <= |fields| && start + |fields| <= REGISTERS
    ensures var res, values := FieldResolutions(fields), FieldValues(fields, float);
      if i == |fields| then Writes(start, fields, float, i) == [] == Items(Write, start, res, values, i)
      else
        var head := if fields[i].resolution == Ignore then []
                    else [Item(Write, start + i, fields[i].resolution, FieldBytes(fields[i], float))];
        && Writes(start, fields, float, i) == head + Writes(start, fields, float, i + 1)
        && Items(Write, start, res, values, i) == head + Items(Write, start, res, values, i + 1)
  {
    hide FieldBytes;
  }

  /** Each field reaches its register with its own value; nothing else is written, whatever follows. */
  lemma FieldsDecode(accept: set<Kind>, start: uint16, fields: seq<Field>, float: FloatBytes, tail: seq<byte>)
    requires Write in accept && |fields| < 256 && start + |fields| <= REGISTERS
    ensures Decode(accept, FieldsFrom(start, fields, float, 0) + tail)
         == Writes(start, fields, float, 0) + Decode(accept, tail)
  {
    hide Decode, Encode, Items, FieldBytes;
    WritesAreItems(start, fields, float, 0);
    DecodeEncode(accept, Write, start, FieldResolutions(fields), FieldValues(fields, float), 0, tail);
  }

  /** A mode write followed by the command's fields. */
  ghost function CommandBytes(mode: byte, start: uint16, fields: seq<Field>, float: FloatBytes): seq<byte> {
    [0x01, 0x00, mode] + FieldsFrom(start, fields, float, 0)
  }

  lemma CommandDecodes(accept: set<Kind>, mode: byte, start: uint16, fields: seq<Field>, float: FloatBytes,
                       tail: seq<byte>)
    requires Write in accept && |fields| < 256 && start + |fields| <= REGISTERS
    ensures Decode(accept, CommandBytes(mode, start, fields, float) + tail)
         == [Item(Write, 0, Int8, [mode])] + Writes(start, fields, float, 0) + Decode(accept, tail)
  {
    hide Decode, FieldsFrom, Writes;
    var body := FieldsFrom(start, fields, float, 0);
    assert CommandBytes(mode, start, fields, float) + tail == [0x01, 0x00, mode] + (body + tail);
    ModeDecodes(accept, mode, body + tail);
    FieldsDecode(accept, start, fields, float, tail);
  }

  // ------------------------------------------------------------- what a device reads

  /** The items that write a register. */
  function WritesTo(items: seq<Item>, register: uint16): seq<Item> {
    if items == [] then []
    else
      (if items[0].kind == Write && items[0].register == register then [items[0]] else [])
      + WritesTo(items[1..], register)
  }

  /** What the bytes of a field say about its value to a reader of its type. */
  predicate Recovers(field: Field, bytes: seq<byte>, float: FloatBytes) {
    match field
    case Mapped(value, concrete, res) =>
      if res == Float then bytes == [float(value).0, float(value).1, float(value).2, float(value).3]
      else
        var reading := ReadConcrete(concrete, res, bytes);
        if !value.Finite? then reading == NotANumber
        else reading.Number? && Quantised(value.r, Scale(concrete, res), Max(res), reading.r)
    case Whole(number, res) =>
      if res == Float then
        var value := Finite(number as real);
        bytes == [float(value).0, float(value).1, float(value).2, float(value).3]
      else
        ReadConcrete(Int, res, bytes) ==
          if res == Int32 && number == -0x8000_0000 then NotANumber
          else Number((if number > Max(res) then Max(res)
                       else if number < -Max(res) then -Max(res)
                       else number) as real)
  }

  lemma FieldRecovers(field: Field, float: FloatBytes)
    requires field.resolution != Ignore && (field.Whole? ==> -0x8000_0000 <= field.number < 0x8000_0000)
    ensures Recovers(field, FieldBytes(field, float), float)
  {
    hide ReadConcrete, Quantised, Scale, Max;
    match field
    case Mapped(value, concrete, res) =>
      if res != Float {
        hide WriteMapped;
        MappedReadBack(value, concrete, res, float);
      }
    case Whole(number, res) =>
      if res != Float {
        hide WriteInt;
        WholeReadBack(number, res, float);
      }
  }

  /** A field reaches its register, once and with its value, unless it is ignored. */
  predicate Delivers(items: seq<Item>, register: uint16, field: Field, float: FloatBytes) {
    var written := WritesTo(items, register);
    if field.resolution == Ignore then written == []
    else |written| == 1 && written[0].resolution == field.resolution && Recovers(field, written[0].value, float)
  }

  lemma {:induction false} FieldIsWritten(start: uint16, fields: seq<Field>, float: FloatBytes, i: nat, k: nat)
    requires i <= |fields| && k < |fields| && start + |fields| <= REGISTERS
    ensures WritesTo(Writes(start, fields, float, i), start + k)
         == if k < i || fields[k].resolution == Ignore then []
            else [Item(Write, start + k, fields[k].resolution, FieldBytes(fields[k], float))]
    decreases |fields| - i
  {
    hide FieldBytes, Writes, WritesTo, Items;
    WritesStep(start, fields, float, i);
    if i < |fields| {
      var rest := Writes(start, fields, float, i + 1);
      FieldIsWritten(start, fields, float, i + 1, k);
      if fields[i].resolution == Ignore {
        assert [] + rest == rest;
      } else {
        WritesToFirst(Item(Write, start + i, fields[i].resolution, FieldBytes(fields[i], float)), rest, start + k);
      }
    } else {
      NothingWritten(start + k);
    }
  }

  lemma WritesToFirst(item: Item, rest: seq<Item>, register: uint16)
    ensures WritesTo([item] + rest, register)
      == (if item.kind == Write && item.register == register then [item] else []) + WritesTo(rest, register)
  {
    assert ([item] + rest)[1..] == rest;
  }

  lemma NothingWritten(register: uint16)
    ensures WritesTo([], register) == []
  {
  }

  lemma FieldDelivered(start: uint16, fields: seq<Field>, float: FloatBytes, k: nat)
    requires k < |fields| && start + |fields| <= REGISTERS
    requires fields[k].Whole? && fields[k].resolution != Ignore ==> -0x8000_0000 <= fields[k].number < 0x8000_0000
    ensures Delivers(Writes(start, fields, float, 0), start + k, fields[k], float)
  {
    hide FieldBytes, Writes, Recovers;
    FieldIsWritten(start, fields, float, 0, k);
    if fields[k].resolution != Ignore {
      FieldRecovers(fields[k], float);
    }
  }

  /** In a decoded command the mode register holds the mode and every other register its own field. */
  lemma CommandDelivers(mode: byte, start: uint16, fields: seq<Field>, float: FloatBytes, k: nat)
    requires 0 < start && start + |fields| <= REGISTERS && k < |fields| < 256
    requires fields[k].Whole? && fields[k].resolution != Ignore ==> -0x8000_0000 <= fields[k].number < 0x8000_0000
    ensures Delivers(Decode({Write}, CommandBytes(mode, start, fields, float)), start + k, fields[k], float)
  {
    hide FieldBytes, Writes, Recovers, Decode, CommandBytes;
    var bytes := CommandBytes(mode, start, fields, float);
    CommandDecodes({Write}, mode, start, fields, float, []);
    FieldDelivered(start, fields, float, k);
    NothingDecodes({Write});
    var written := Writes(start, fields, float, 0);
    assert bytes + [] == bytes
      && [Item(Write, 0, Int8, [mode])] + written + [] == [Item(Write, 0, Int8, [mode])] + written;
    assert ([Item(Write, 0, Int8, [mode])] + written)[1..] == written;
  }

  /** The mode is written first. */
  lemma CommandStarts(mode: byte, start: uint16, fields: seq<Field>, float: FloatBytes)
    requires start + |fields| <= REGISTERS && |fields| < 256
    ensures var items := Decode({Write}, CommandBytes(mode, start, fields, float));
      items != [] && items[0] == Item(Write, 0x000, Int8, [mode])
  {
    hide Writes, Decode, CommandBytes;
    var bytes := CommandBytes(mode, start, fields, float);
    CommandDecodes({Write}, mode, start, fields, float, []);
    assert bytes + [] == bytes;
  }

  lemma IgnoredIsNotWritten(items: seq<Item>, register: uint16, field: Field, float: FloatBytes)
    ensures field.resolution == Ignore && Delivers(items, register, field, float) ==> WritesTo(items, register) == []
  {
    hide Recovers;
  }

  // ------------------------------------------------------------- the commands

  const MODE_VOLTAGE_FOC: byte := 7
  const MODE_CURRENT: byte := 9
  const MODE_POSITION: byte := 10
  const MODE_STAY_WITHIN: byte := 13

  /** A double that may be converted to an `int32_t`. */
  predicate IsInt32(value: Double) {
    value.Finite? && -0x8000_0000 <= Truncate(value.r) < 0x8000_0000
  }

  function ToInt(value: Double): int {
    if value.Finite? then Truncate(value.r) else 0
  }

  datatype PositionCommand = PositionCommand(
    position: Double, velocity: Double, feedforwardTorque: Double, kpScale: Double, kdScale: Double,
    maximumTorque: Double,
    stopPosition: Double, watchdogTimeout: Double, velocityLimit: Double, accelLimit: Double,
    fixedVoltageOverride: Double,
    ilimitScale: Double, fixedCurrentOverride: Double, ignorePositionBounds: Double)

  datatype PositionFormat = PositionFormat(
    position: Resolution, velocity: Resolution, feedforwardTorque: Resolution, kpScale: Resolution, kdScale: Resolution,
    maximumTorque: Resolution, stopPosition: Resolution, watchdogTimeout: Resolution, velocityLimit: Resolution,
    accelLimit: Resolution, fixedVoltageOverride: Resolution, ilimitScale: Resolution, fixedCurrentOverride: Resolution,
    ignorePositionBounds: Resolution)

  const COMMAND_POSITION: uint16 := 0x020

  /** What each register from 0x020 on is to hold. */
  ghost function PositionField(c: PositionCommand, f: PositionFormat, register: int): Field {
    match register
    case 0x020 => Mapped(c.position, Position, f.position)
    case 0x021 => Mapped(c.velocity, Velocity, f.velocity)
    case 0x022 => Mapped(c.feedforwardTorque, Torque, f.feedforwardTorque)
    case 0x023 => Mapped(c.kpScale, Pwm, f.kpScale)
    case 0x024 => Mapped(c.kdScale, Pwm, f.kdScale)
    case 0x025 => Mapped(c.maximumTorque, Torque, f.maximumTorque)
    case 0x026 => Mapped(c.stopPosition, Position, f.stopPosition)
    case 0x027 => Mapped(c.watchdogTimeout, Time, f.watchdogTimeout)
    case 0x028 => Mapped(c.velocityLimit, Velocity, f.velocityLimit)
    case 0x029 => Mapped(c.accelLimit, Acceleration, f.accelLimit)
    case 0x02a => Mapped(c.fixedVoltageOverride, Voltage, f.fixedVoltageOverride)
    case 0x02b => Mapped(c.ilimitScale, Pwm, f.ilimitScale)
    case 0x02c => Mapped(c.fixedCurrentOverride, Current, f.fixedCurrentOverride)
    case _ => Whole(ToInt(c.ignorePositionBounds), f.ignorePositionBounds)
  }

  ghost function PositionFields(c: PositionCommand, f: PositionFormat): (fields: seq<Field>)
    ensures |fields| == 14 && forall k | 0 <= k < 14 :: fields[k] == PositionField(c, f, COMMAND_POSITION + k)
  {
    seq(14, k => PositionField(c, f, COMMAND_POSITION + k))
  }

  function PositionResolutions(ghost c: PositionCommand, f: PositionFormat): (res: seq<Resolution>)
    ensures res == FieldResolutions(PositionFields(c, f))
  {
    [f.position, f.velocity, f.feedforwardTorque, f.kpScale, f.kdScale, f.maximumTorque,
     f.stopPosition, f.watchdogTimeout, f.velocityLimit, f.accelLimit, f.fixedVoltageOverride,
     f.ilimitScale, f.fixedCurrentOverride, f.ignorePositionBounds]
  }

  lemma PositionFieldBack(c: PositionCommand, f: PositionFormat, float: FloatBytes, register: uint16)
    requires 0x020 <= register <= 0x02d && (f.ignorePositionBounds != Ignore ==> IsInt32(c.ignorePositionBounds))
    ensures Delivers(Decode({Write}, CommandBytes(MODE_POSITION, COMMAND_POSITION, PositionFields(c, f), float)),
                     register, PositionField(c, f, register), float)
  {
    hide Delivers, Decode, CommandBytes, PositionFields, Truncate;
    CommandDelivers(MODE_POSITION, COMMAND_POSITION, PositionFields(c, f), float, register - COMMAND_POSITION);
  }

  /** A decoded position command: its mode, and every register by its number, field, type and resolution. */
  lemma PositionReadsBack(c: PositionCommand, f: PositionFormat, float: FloatBytes)
    requires f.ignorePositionBounds != Ignore ==> IsInt32(c.ignorePositionBounds)
    ensures var items := Decode({Write}, CommandBytes(MODE_POSITION, COMMAND_POSITION, PositionFields(c, f), float));
      && items != [] && items[0] == Item(Write, 0x000, Int8, [10])
      && Delivers(items, 0x020, Mapped(c.position, Position, f.position), float)
      && Delivers(items, 0x021, Mapped(c.velocity, Velocity, f.velocity), float)
      && Delivers(items, 0x022, Mapped(c.feedforwardTorque, Torque, f.feedforwardTorque), float)
      && Delivers(items, 0x023, Mapped(c.kpScale, Pwm, f.kpScale), float)
      && Delivers(items, 0x024, Mapped(c.kdScale, Pwm, f.kdScale), float)
      && Delivers(items, 0x025, Mapped(c.maximumTorque, Torque, f.maximumTorque), float)
      && Delivers(items, 0x026, Mapped(c.stopPosition, Position, f.stopPosition), float)
      && Delivers(items, 0x027, Mapped(c.watchdogTimeout, Time, f.watchdogTimeout), float)
      && Delivers(items, 0x028, Mapped(c.velocityLimit, Velocity, f.velocityLimit), float)
      && Delivers(items, 0x029, Mapped(c.accelLimit, Acceleration, f.accelLimit), float)
      && Delivers(items, 0x02a, Mapped(c.fixedVoltageOverride, Voltage, f.fixedVoltageOverride), float)
      && Delivers(items, 0x02b, Mapped(c.ilimitScale, Pwm, f.ilimitScale), float)
      && Delivers(items, 0x02c, Mapped(c.fixedCurrentOverride, Current, f.fixedCurrentOverride), float)
      && (if f.ignorePositionBounds == Ignore then WritesTo(items, 0x02d) == []
          else Delivers(items, 0x02d, Whole(Truncate(c.ignorePositionBounds.r), f.ignorePositionBounds), float))
  {
    hide Delivers, Decode, CommandBytes, PositionFields, Truncate;
    CommandStarts(MODE_POSITION, COMMAND_POSITION, PositionFields(c, f), float);
    IgnoredIsNotWritten(Decode({Write}, CommandBytes(MODE_POSITION, COMMAND_POSITION, PositionFields(c, f), float)),
                        0x02d, PositionField(c, f, 0x02d), float);
    PositionFieldBack(c, f, float, 0x020);
    PositionFieldBack(c, f, float, 0x021);
    PositionFieldBack(c, f, float, 0x022);
    PositionFieldBack(c, f, float, 0x023);
    PositionFieldBack(c, f, float, 0x024);
    PositionFieldBack(c, f, float, 0x025);
    PositionFieldBack(c, f, float, 0x026);
    PositionFieldBack(c, f, float, 0x027);
    PositionFieldBack(c, f, float, 0x028);
    PositionFieldBack(c, f, float, 0x029);
    PositionFieldBack(c, f, float, 0x02a);
    PositionFieldBack(c, f, float, 0x02b);
    PositionFieldBack(c, f, float, 0x02c);
    PositionFieldBack(c, f, float, 0x02d);
  }

  method MakePosition(frame: CanData, c: PositionCommand, f: PositionFormat, float: FloatBytes)
    requires frame.Valid() && (f.ignorePositionBounds != Ignore ==> IsInt32(c.ignorePositionBounds))
    requires frame.size + |CommandBytes(MODE_POSITION, COMMAND_POSITION, PositionFields(c, f), float)| <= CAPACITY
    modifies frame, frame.data
    ensures frame.Valid()
    ensures frame.Contents()
      == old(frame.Contents()) + CommandBytes(MODE_POSITION, COMMAND_POSITION, PositionFields(c, f), float)
  {
    hide FieldsFrom, CommandBytes, Writes, PositionResolutions, FieldWriter.Valid, CanData.Contents;
    ghost var fields := PositionFields(c, f);
    var writer := Begin(frame, MODE_POSITION, COMMAND_POSITION, PositionResolutions(c, f), float, fields);
    writer.Put(Mapped(c.position, Position, f.position));
    writer.Put(Mapped(c.velocity, Velocity, f.velocity));
    writer.Put(Mapped(c.feedforwardTorque, Torque, f.feedforwardTorque));
    writer.Put(Mapped(c.kpScale, Pwm, f.kpScale));
    writer.Put(Mapped(c.kdScale, Pwm, f.kdScale));
    writer.Put(Mapped(c.maximumTorque, Torque, f.maximumTorque));
    writer.Put(Mapped(c.stopPosition, Position, f.stopPosition));
    writer.Put(Mapped(c.watchdogTimeout, Time, f.watchdogTimeout));
    writer.Put(Mapped(c.velocityLimit, Velocity, f.velocityLimit));
    writer.Put(Mapped(c.accelLimit, Acceleration, f.accelLimit));
    writer.Put(Mapped(c.fixedVoltageOverride, Voltage, f.fixedVoltageOverride));
    writer.Put(Mapped(c.ilimitScale, Pwm, f.ilimitScale));
    writer.Put(Mapped(c.fixedCurrentOverride, Current, f.fixedCurrentOverride));
    writer.Put(Whole(ToInt(c.ignorePositionBounds), f.ignorePositionBounds));
    writer.Done();
  }

  datatype VFocCommand = VFocCommand(thetaRad: Double, voltage: Double, thetaRadRate: Double)

  datatype VFocFormat = VFocFormat(thetaRad: Resolution, voltage: Resolution, thetaRadRate: Resolution)

  const VFOC_THETA: uint16 := 0x018

  function OverPi(value: Double): Double {
    match value
    case Finite(r) => Finite(r / PI)
    case _ => value
  }

  /** Angles are sent in units of half turns; registers 0x01a to 0x01d are left alone. */
  ghost function VFocField(c: VFocCommand, f: VFocFormat, register: int): Field {
    match register
    case 0x018 => Mapped(OverPi(c.thetaRad), Pwm, f.thetaRad)
    case 0x019 => Mapped(c.voltage, Voltage, f.voltage)
    case 0x01a => Whole(0, Ignore)
    case 0x01b => Whole(0, Ignore)
    case 0x01c => Whole(0, Ignore)
    case 0x01d => Whole(0, Ignore)
    case _ => Mapped(OverPi(c.thetaRadRate), Velocity, f.thetaRadRate)
  }

  ghost function VFocFields(c: VFocCommand, f: VFocFormat): (fields: seq<Field>)
    ensures |fields| == 7 && forall k | 0 <= k < 7 :: fields[k] == VFocField(c, f, VFOC_THETA + k)
  {
    seq(7, k => VFocField(c, f, VFOC_THETA + k))
  }

  function VFocResolutions(ghost c: VFocCommand, f: VFocFormat): (res: seq<Resolution>)
    ensures res == FieldResolutions(VFocFields(c, f))
  {
    [f.thetaRad, f.voltage, Ignore, Ignore, Ignore, Ignore, f.thetaRadRate]
  }

  lemma VFocFieldBack(c: VFocCommand, f: VFocFormat, float: FloatBytes, register: uint16)
    requires 0x018 <= register <= 0x01e
    ensures Delivers(Decode({Write}, CommandBytes(MODE_VOLTAGE_FOC, VFOC_THETA, VFocFields(c, f), float)),
                     register, VFocField(c, f, register), float)
  {
    hide Delivers, Decode, CommandBytes, VFocFields;
    CommandDelivers(MODE_VOLTAGE_FOC, VFOC_THETA, VFocFields(c, f), float, register - VFOC_THETA);
  }

  /** A decoded voltage command: angles in half turns, and nothing in the registers between. */
  lemma VFocReadsBack(c: VFocCommand, f: VFocFormat, float: FloatBytes)
    ensures var items := Decode({Write}, CommandBytes(MODE_VOLTAGE_FOC, VFOC_THETA, VFocFields(c, f), float));
      && items != [] && items[0] == Item(Write, 0x000, Int8, [7])
      && (c.thetaRad.Finite? ==>
          Delivers(items, 0x018, Mapped(Finite(c.thetaRad.r / 3.14159265358979323846), Pwm, f.thetaRad), float))
      && (!c.thetaRad.Finite? ==> Delivers(items, 0x018, Mapped(c.thetaRad, Pwm, f.thetaRad), float))
      && Delivers(items, 0x019, Mapped(c.voltage, Voltage, f.voltage), float)
      && WritesTo(items, 0x01a) == WritesTo(items, 0x01b) == WritesTo(items, 0x01c) == WritesTo(items, 0x01d) == []
      && (c.thetaRadRate.Finite? ==>
          Delivers(items, 0x01e, Mapped(Finite(c.thetaRadRate.r / 3.14159265358979323846), Velocity, f.thetaRadRate),
                   float))
      && (!c.thetaRadRate.Finite? ==>
          Delivers(items, 0x01e, Mapped(c.thetaRadRate, Velocity, f.thetaRadRate), float))
  {
    hide Delivers, Decode, CommandBytes, VFocFields;
    var items := Decode({Write}, CommandBytes(MODE_VOLTAGE_FOC, VFOC_THETA, VFocFields(c, f), float));
    CommandStarts(MODE_VOLTAGE_FOC, VFOC_THETA, VFocFields(c, f), float);
    VFocFieldBack(c, f, float, 0x018);
    VFocFieldBack(c, f, float, 0x019);
    VFocFieldBack(c, f, float, 0x01a);
    VFocFieldBack(c, f, float, 0x01b);
    VFocFieldBack(c, f, float, 0x01c);
    VFocFieldBack(c, f, float, 0x01d);
    VFocFieldBack(c, f, float, 0x01e);
    forall register: uint16 | 0x01a <= register <= 0x01d
      ensures WritesTo(items, register) == []
    {
      VFocFieldBack(c, f, float, register);
      IgnoredIsNotWritten(items, register, Whole(0, Ignore), float);
    }
  }

  method MakeVFoc(frame: CanData, c: VFocCommand, f: VFocFormat, float: FloatBytes)
    requires frame.Valid()
    requires frame.size + |CommandBytes(MODE_VOLTAGE_FOC, VFOC_THETA, VFocFields(c, f), float)| <= CAPACITY
    modifies frame, frame.data
    ensures frame.Valid()
    ensures frame.Contents()
      == old(frame.Contents()) + CommandBytes(MODE_VOLTAGE_FOC, VFOC_THETA, VFocFields(c, f), float)
  {
    hide FieldsFrom, CommandBytes, Writes, VFocResolutions, FieldWriter.Valid, CanData.Contents;
    ghost var fields := VFocFields(c, f);
    var writer := Begin(frame, MODE_VOLTAGE_FOC, VFOC_THETA, VFocResolutions(c, f), float, fields);
    writer.Put(Mapped(OverPi(c.thetaRad), Pwm, f.thetaRad));
    writer.Put(Mapped(c.voltage, Voltage, f.voltage));
    writer.Put(Whole(0, Ignore));
    writer.Put(Whole(0, Ignore));
    writer.Put(Whole(0, Ignore));
    writer.Put(Whole(0, Ignore));
    writer.Put(Mapped(OverPi(c.thetaRadRate), Velocity, f.thetaRadRate));
    writer.Done();
  }

  datatype CurrentCommand = CurrentCommand(d: Double, q: Double)

  datatype CurrentFormat = CurrentFormat(d: Resolution, q: Resolution)

  const COMMAND_Q_CURRENT: uint16 := 0x01c

  /** On the wire q comes before d. */
  ghost function CurrentFields(c: CurrentCommand, f: CurrentFormat): seq<Field> {
    [Mapped(c.q, Current, f.q),                                                    // 0x01c
     Mapped(c.d, Current, f.d)]                                                    // 0x01d
  }

  /** A decoded current command: its mode, and q and d current. */
  lemma CurrentReadsBack(c: CurrentCommand, f: CurrentFormat, float: FloatBytes)
    ensures var items := Decode({Write}, CommandBytes(MODE_CURRENT, COMMAND_Q_CURRENT, CurrentFields(c, f), float));
      && items != [] && items[0] == Item(Write, 0x000, Int8, [9])
      && Delivers(items, 0x01c, Mapped(c.q, Current, f.q), float)
      && Delivers(items, 0x01d, Mapped(c.d, Current, f.d), float)
  {
    hide Delivers, Decode, CommandBytes;
    CommandStarts(MODE_CURRENT, COMMAND_Q_CURRENT, CurrentFields(c, f), float);
    CommandDelivers(MODE_CURRENT, COMMAND_Q_CURRENT, CurrentFields(c, f), float, 0);
    CommandDelivers(MODE_CURRENT, COMMAND_Q_CURRENT, CurrentFields(c, f), float, 1);
  }

  method MakeCurrent(frame: CanData, c: CurrentCommand, f: CurrentFormat, float: FloatBytes)
    requires frame.Valid()
    requires frame.size + |CommandBytes(MODE_CURRENT, COMMAND_Q_CURRENT, CurrentFields(c, f), float)| <= CAPACITY
    modifies frame, frame.data
    ensures frame.Valid()
    ensures frame.Contents()
      == old(frame.Contents()) + CommandBytes(MODE_CURRENT, COMMAND_Q_CURRENT, CurrentFields(c, f), float)
  {
    hide FieldsFrom, CommandBytes, Writes, FieldWriter.Valid, CanData.Contents;
    ghost var fields := CurrentFields(c, f);
    var writer := Begin(frame, MODE_CURRENT, COMMAND_Q_CURRENT, [f.q, f.d], float, fields);
    writer.Put(Mapped(c.q, Current, f.q));
    writer.Put(Mapped(c.d, Current, f.d));
    writer.Done();
  }

  datatype StayWithinCommand = StayWithinCommand(
    lowerBound: Double, upperBound: Double, feedforwardTorque: Double, kpScale: Double, kdScale: Double,
    maximumTorque: Double, watchdogTimeout: Double, ilimitScale: Double, ignorePositionBounds: Double)

  datatype StayWithinFormat = StayWithinFormat(
    lowerBound: Resolution, upperBound: Resolution, feedforwardTorque: Resolution, kpScale: Resolution,
    kdScale: Resolution,
    maximumTorque: Resolution, watchdogTimeout: Resolution, ilimitScale: Resolution, ignorePositionBounds: Resolution)

  const STAY_WITHIN_LOWER: uint16 := 0x040

  ghost function StayWithinField(c: StayWithinCommand, f: StayWithinFormat, register: int): Field {
    match register
    case 0x040 => Mapped(c.lowerBound, Position, f.lowerBound)
    case 0x041 => Mapped(c.upperBound, Position, f.upperBound)
    case 0x042 => Mapped(c.feedforwardTorque, Torque, f.feedforwardTorque)
    case 0x043 => Mapped(c.kpScale, Pwm, f.kpScale)
    case 0x044 => Mapped(c.kdScale, Pwm, f.kdScale)
    case 0x045 => Mapped(c.maximumTorque, Torque, f.maximumTorque)
    case 0x046 => Mapped(c.watchdogTimeout, Time, f.watchdogTimeout)
    case 0x047 => Mapped(c.ilimitScale, Pwm, f.ilimitScale)
    case _ => Whole(ToInt(c.ignorePositionBounds), f.ignorePositionBounds)
  }

  ghost function StayWithinFields(c: StayWithinCommand, f: StayWithinFormat): (fields: seq<Field>)
    ensures |fields| == 9 && forall k | 0 <= k < 9 :: fields[k] == StayWithinField(c, f, STAY_WITHIN_LOWER + k)
  {
    seq(9, k => StayWithinField(c, f, STAY_WITHIN_LOWER + k))
  }

  function StayWithinResolutions(ghost c: StayWithinCommand, f: StayWithinFormat): (res: seq<Resolution>)
    ensures res == FieldResolutions(StayWithinFields(c, f))
  {
    [f.lowerBound, f.upperBound, f.feedforwardTorque, f.kpScale, f.kdScale, f.maximumTorque,
     f.watchdogTimeout, f.ilimitScale, f.ignorePositionBounds]
  }

  lemma StayWithinFieldBack(c: StayWithinCommand, f: StayWithinFormat, float: FloatBytes, register: uint16)
    requires 0x040 <= register <= 0x048 && (f.ignorePositionBounds != Ignore ==> IsInt32(c.ignorePositionBounds))
    ensures Delivers(Decode({Write}, CommandBytes(MODE_STAY_WITHIN, STAY_WITHIN_LOWER, StayWithinFields(c, f), float)),
                     register, StayWithinField(c, f, register), float)
  {
    hide Delivers, Decode, CommandBytes, StayWithinFields, Truncate;
    CommandDelivers(MODE_STAY_WITHIN, STAY_WITHIN_LOWER, StayWithinFields(c, f), float, register - STAY_WITHIN_LOWER);
  }

  /** A decoded stay-within command: its mode, and every register by its number, field, type and resolution. */
  lemma StayWithinReadsBack(c: StayWithinCommand, f: StayWithinFormat, float: FloatBytes)
    requires f.ignorePositionBounds != Ignore ==> IsInt32(c.ignorePositionBounds)
    ensures var items := Decode({Write},
        CommandBytes(MODE_STAY_WITHIN, STAY_WITHIN_LOWER, StayWithinFields(c, f), float));
      && items != [] && items[0] == Item(Write, 0x000, Int8, [13])
      && Delivers(items, 0x040, Mapped(c.lowerBound, Position, f.lowerBound), float)
      && Delivers(items, 0x041, Mapped(c.upperBound, Position, f.upperBound), float)
      && Delivers(items, 0x042, Mapped(c.feedforwardTorque, Torque, f.feedforwardTorque), float)
      && Delivers(items, 0x043, Mapped(c.kpScale, Pwm, f.kpScale), float)
      && Delivers(items, 0x044, Mapped(c.kdScale, Pwm, f.kdScale), float)
      && Delivers(items, 0x045, Mapped(c.maximumTorque, Torque, f.maximumTorque), float)
      && Delivers(items, 0x046, Mapped(c.watchdogTimeout, Time, f.watchdogTimeout), float)
      && Delivers(items, 0x047, Mapped(c.ilimitScale, Pwm, f.ilimitScale), float)
      && (if f.ignorePositionBounds == Ignore then WritesTo(items, 0x048) == []
          else Delivers(items, 0x048, Whole(Truncate(c.ignorePositionBounds.r), f.ignorePositionBounds), float))
  {
    hide Delivers, Decode, CommandBytes, StayWithinFields, Truncate;
    var bytes := CommandBytes(MODE_STAY_WITHIN, STAY_WITHIN_LOWER, StayWithinFields(c, f), float);
    CommandStarts(MODE_STAY_WITHIN, STAY_WITHIN_LOWER, StayWithinFields(c, f), float);
    IgnoredIsNotWritten(Decode({Write}, bytes), 0x048, StayWithinField(c, f, 0x048), float);
    StayWithinFieldBack(c, f, float, 0x040);
    StayWithinFieldBack(c, f, float, 0x041);
    StayWithinFieldBack(c, f, float, 0x042);
    StayWithinFieldBack(c, f, float, 0x043);
    StayWithinFieldBack(c, f, float, 0x044);
    StayWithinFieldBack(c, f, float, 0x045);
    StayWithinFieldBack(c, f, float, 0x046);
    StayWithinFieldBack(c, f, float, 0x047);
    StayWithinFieldBack(c, f, float, 0x048);
  }

  method MakeStayWithin(frame: CanData, c: StayWithinCommand, f: StayWithinFormat, float: FloatBytes)
    requires frame.Valid() && (f.ignorePositionBounds != Ignore ==> IsInt32(c.ignorePositionBounds))
    requires frame.size + |CommandBytes(MODE_STAY_WITHIN, STAY_WITHIN_LOWER, StayWithinFields(c, f), float)| <= CAPACITY
    modifies frame, frame.data
    ensures frame.Valid()
    ensures frame.Contents()
      == old(frame.Contents()) + CommandBytes(MODE_STAY_WITHIN, STAY_WITHIN_LOWER, StayWithinFields(c, f), float)
  {
    hide FieldsFrom, CommandBytes, Writes, StayWithinResolutions, FieldWriter.Valid, CanData.Contents;
    ghost var fields := StayWithinFields(c, f);
    var writer := Begin(frame, MODE_STAY_WITHIN, STAY_WITHIN_LOWER, StayWithinResolutions(c, f), float, fields);
    writer.Put(Mapped(c.lowerBound, Position, f.lowerBound));
    writer.Put(Mapped(c.upperBound, Position, f.upperBound));
    writer.Put(Mapped(c.feedforwardTorque, Torque, f.feedforwardTorque));
    writer.Put(Mapped(c.kpScale, Pwm, f.kpScale));
    writer.Put(Mapped(c.kdScale, Pwm, f.kdScale));
    writer.Put(Mapped(c.maximumTorque, Torque, f.maximumTorque));
    writer.Put(Mapped(c.watchdogTimeout, Time, f.watchdogTimeout));
    writer.Put(Mapped(c.ilimitScale, Pwm, f.ilimitScale));
    writer.Put(Whole(ToInt(c.ignorePositionBounds), f.ignorePositionBounds));
    writer.Done();
  }

  const AUX1_PWM1: uint16 := 0x076

  /** A duty cycle that is not finite is not sent. */
  function PwmFormat(value: Double, res: Resolution): Resolution {
    if value.Finite? then res else Ignore
  }

  ghost function AuxPwmFields(duty: seq<Double>, format: seq<Resolution>): (fields: seq<Field>)
    requires |duty| == |format| == 10
    ensures |fields| == 10 && forall k | 0 <= k < 10 :: fields[k] == Mapped(duty[k], Pwm, PwmFormat(duty[k], format[k]))
  {
    seq(10, k requires 0 <= k < 10 => Mapped(duty[k], Pwm, PwmFormat(duty[k], format[k])))
  }

  function AuxPwmResolutions(duty: seq<Double>, format: seq<Resolution>): (res: seq<Resolution>)
    requires |duty| == |format| == 10
    ensures res == FieldResolutions(AuxPwmFields(duty, format))
  {
    seq(10, k requires 0 <= k < 10 => PwmFormat(duty[k], format[k]))
  }

  /** Every register of decoded duty cycles holds its own, if that is finite. */
  lemma AuxPwmReadsBack(duty: seq<Double>, format: seq<Resolution>, float: FloatBytes, k: nat)
    requires |duty| == |format| == 10 && k < 10
    ensures Delivers(Decode({Write}, FieldsFrom(AUX1_PWM1, AuxPwmFields(duty, format), float, 0)), 0x076 + k,
                     Mapped(duty[k], Pwm, if duty[k].Finite? then format[k] else Ignore), float)
  {
    hide Delivers, Decode, FieldsFrom, AuxPwmFields, Writes;
    var fields := AuxPwmFields(duty, format);
    FieldsDecode({Write}, AUX1_PWM1, fields, float, []);
    NothingDecodes({Write});
    FieldDelivered(AUX1_PWM1, fields, float, k);
    var bytes, written := FieldsFrom(AUX1_PWM1, fields, float, 0), Writes(AUX1_PWM1, fields, float, 0);
    assert bytes + [] == bytes && written + [] == written;
  }

  /** Ten duty cycles to registers 0x076 to 0x07f; no mode write. */
  method MakeAuxPwm(frame: CanData, duty: seq<Double>, format: seq<Resolution>, float: FloatBytes)
    requires |duty| == |format| == 10 && frame.Valid()
    requires frame.size + |FieldsFrom(AUX1_PWM1, AuxPwmFields(duty, format), float, 0)| <= CAPACITY
    modifies frame, frame.data
    ensures frame.Valid()
    ensures frame.Contents() == old(frame.Contents()) + FieldsFrom(AUX1_PWM1, AuxPwmFields(duty, format), float, 0)
  {
    hide FieldsFrom, Writes, PwmFormat, AuxPwmFields, FieldResolutions, FieldWriter.Valid, CanData.Contents;
    ghost var fields := AuxPwmFields(duty, format);
    var resolutions := AuxPwmResolutions(duty, format);
    var writer := new FieldWriter(frame, AUX1_PWM1, resolutions, float, fields);
    writer.Put(Mapped(duty[0], Pwm, PwmFormat(duty[0], format[0])));
    writer.Put(Mapped(duty[1], Pwm, PwmFormat(duty[1], format[1])));
    writer.Put(Mapped(duty[2], Pwm, PwmFormat(duty[2], format[2])));
    writer.Put(Mapped(duty[3], Pwm, PwmFormat(duty[3], format[3])));
    writer.Put(Mapped(duty[4], Pwm, PwmFormat(duty[4], format[4])));
    writer.Put(Mapped(duty[5], Pwm, PwmFormat(duty[5], format[5])));
    writer.Put(Mapped(duty[6], Pwm, PwmFormat(duty[6], format[6])));
    writer.Put(Mapped(duty[7], Pwm, PwmFormat(duty[7], format[7])));
    writer.Put(Mapped(duty[8], Pwm, PwmFormat(duty[8], format[8])));
    writer.Put(Mapped(duty[9], Pwm, PwmFormat(duty[9], format[9])));
    writer.Done();
  }
}
