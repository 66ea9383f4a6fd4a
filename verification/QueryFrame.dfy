/**
 The standard query: twenty named registers in four blocks plus a list of extra ones
 (`Query::Make`), and the readers of replies (`Query::Parse`, `GenericQuery::Parse`).
*/
module QueryFrame {
  import opened Bytes
  import opened Registers
  import opened Numbers
  import opened Combiner
  import opened Query
  import opened Parser

  datatype Format = Format(
    mode: Resolution, position: Resolution, velocity: Resolution, torque: Resolution,
    qCurrent: Resolution, dCurrent: Resolution, absPosition: Resolution, power: Resolution,
    motorTemperature: Resolution, trajectoryComplete: Resolution, homeState: Resolution,
    voltage: Resolution, temperature: Resolution, fault: Resolution,
    aux1Gpio: Resolution, aux2Gpio: Resolution,
    aux1PwmPeriod: Resolution, aux1PwmDuty: Resolution, aux2PwmPeriod: Resolution, aux2PwmDuty: Resolution,
    extra: seq<ItemFormat>)

  const MAX_EXTRA: nat := 16

  const MODE: uint16 := 0x000
  const MOTOR_TEMPERATURE: uint16 := 0x00a
  const AUX1_GPIO_STATUS: uint16 := 0x05e
  const AUX1_PWM_INPUT_PERIOD: uint16 := 0x072

  function Servo(f: Format): seq<Resolution> {
    [f.mode, f.position, f.velocity, f.torque, f.qCurrent, f.dCurrent, f.absPosition, f.power]
  }

  function Status(f: Format): seq<Resolution> {
    [f.motorTemperature, f.trajectoryComplete, f.homeState, f.voltage, f.temperature, f.fault]
  }

  function Gpio(f: Format): seq<Resolution> {
    [f.aux1Gpio, f.aux2Gpio]
  }

  function PwmInput(f: Format): seq<Resolution> {
    [f.aux1PwmPeriod, f.aux1PwmDuty, f.aux2PwmPeriod, f.aux2PwmDuty]
  }

  /** Each field with the register it stands for. */
  function Fields(f: Format): seq<ItemFormat> {
    [ItemFormat(0x000, f.mode), ItemFormat(0x001, f.position), ItemFormat(0x002, f.velocity),
     ItemFormat(0x003, f.torque),
     ItemFormat(0x004, f.qCurrent), ItemFormat(0x005, f.dCurrent), ItemFormat(0x006, f.absPosition),
     ItemFormat(0x007, f.power),
     ItemFormat(0x00a, f.motorTemperature), ItemFormat(0x00b, f.trajectoryComplete), ItemFormat(0x00c, f.homeState),
     ItemFormat(0x00d, f.voltage), ItemFormat(0x00e, f.temperature), ItemFormat(0x00f, f.fault),
     ItemFormat(0x05e, f.aux1Gpio), ItemFormat(0x05f, f.aux2Gpio),
     ItemFormat(0x072, f.aux1PwmPeriod), ItemFormat(0x073, f.aux1PwmDuty),
     ItemFormat(0x074, f.aux2PwmPeriod), ItemFormat(0x075, f.aux2PwmDuty)]
  }

  ghost function Extra(f: Format): seq<ItemFormat> {
    f.extra[..End(f.extra)]
  }

  ghost function QueryBytes(f: Format): seq<byte>
    requires Acceptable(Extra(f))
  {
    Request(MODE, Servo(f)) + (Request(MOTOR_TEMPERATURE, Status(f)) + (Request(AUX1_GPIO_STATUS, Gpio(f)) +
    (Request(AUX1_PWM_INPUT_PERIOD, PwmInput(f)) + Request(First(Extra(f)), Resolutions(Extra(f))))))
  }

  /** The length of the reply that carries everything the format asks for. */
  ghost function QueryReplyBytes(f: Format): nat
    requires Acceptable(Extra(f))
  {
    ReplyBytes(MODE, Servo(f), 0) + ReplyBytes(MOTOR_TEMPERATURE, Status(f), 0) +
    ReplyBytes(AUX1_GPIO_STATUS, Gpio(f), 0) + ReplyBytes(AUX1_PWM_INPUT_PERIOD, PwmInput(f), 0)
      + ReplyBytes(First(Extra(f)), Resolutions(Extra(f)), 0)
  }

  method Make(frame: CanData, format: Format) returns (replySize: byte)
    requires frame.Valid() && |format.extra| <= MAX_EXTRA && Acceptable(Extra(format))
    requires frame.size + |QueryBytes(format)| <= CAPACITY
    modifies frame, frame.data
    ensures frame.Valid() && frame.Contents() == old(frame.Contents()) + QueryBytes(format)
    ensures replySize == QueryReplyBytes(format) % 256
  {
    hide Request, Resolutions, First, ReplyBytes, AddSize;
    ghost var a, b, c, d, e := Request(MODE, Servo(format)), Request(MOTOR_TEMPERATURE, Status(format)),
      Request(AUX1_GPIO_STATUS, Gpio(format)), Request(AUX1_PWM_INPUT_PERIOD, PwmInput(format)),
      Request(First(Extra(format)), Resolutions(Extra(format)));
    ghost var before := frame.Contents();
    ghost var r, s, t, u := ReplyBytes(MODE, Servo(format), 0), ReplyBytes(MOTOR_TEMPERATURE, Status(format), 0),
      ReplyBytes(AUX1_GPIO_STATUS, Gpio(format), 0), ReplyBytes(AUX1_PWM_INPUT_PERIOD, PwmInput(format), 0);
    assert |QueryBytes(format)| == |a| + |b| + |c| + |d| + |e|;
    var size;
    replySize := WriteRequest(frame, MODE, Servo(format));
    size := WriteRequest(frame, MOTOR_TEMPERATURE, Status(format));
    AddSizes(r, s);
    replySize := AddSize(replySize, size);
    size := WriteRequest(frame, AUX1_GPIO_STATUS, Gpio(format));
    AddSizes(r + s, t);
    replySize := AddSize(replySize, size);
    size := WriteRequest(frame, AUX1_PWM_INPUT_PERIOD, PwmInput(format));
    AddSizes(r + s + t, u);
    replySize := AddSize(replySize, size);
    size := WriteList(frame, format.extra);
    AddSizes(r + s + t + u, ReplyBytes(First(Extra(format)), Resolutions(Extra(format)), 0));
    replySize := AddSize(replySize, size);
    Regroup(before, a, b, c, d, e);
  }

  lemma Regroup(x: seq<byte>, a: seq<byte>, b: seq<byte>, c: seq<byte>, d: seq<byte>, e: seq<byte>)
    ensures x + a + b + c + d + e == x + (a + (b + (c + (d + e))))
  {
  }

  /** `reply_size += ...` on a `uint8_t`. */
  function AddSize(sum: byte, size: byte): byte {
    (sum + size) % 256
  }

  lemma AddSizes(total: nat, more: nat)
    ensures AddSize(total % 256, more % 256) == (total + more) % 256
  {
    AddBytes(total, more);
  }

  function Numbered(start: uint16, res: seq<Resolution>): (items: seq<ItemFormat>)
    requires start + |res| <= 0x7fff
    ensures |items| == |res| && forall k | 0 <= k < |res| :: items[k] == ItemFormat(start + k, res[k])
  {
    seq(|res|, k requires 0 <= k < |res| => ItemFormat(start + k, res[k]))
  }

  lemma {:induction false} BlockItems(start: uint16, res: seq<Resolution>, i: nat)
    requires start + |res| <= 0x7fff && i <= |res|
    ensures Items(Read, start, res, NoValues(|res|), i) == Listed(Numbered(start, res)[i..])
    decreases |res| - i
  {
    if i < |res| {
      assert Numbered(start, res)[i..][1..] == Numbered(start, res)[i + 1..];
      BlockItems(start, res, i + 1);
    }
  }

  lemma BlockNames(accept: set<Kind>, start: uint16, res: seq<Resolution>, tail: seq<byte>)
    requires Read in accept && start + |res| <= 0x7fff && |res| < 256
    ensures Decode(accept, Request(start, res) + tail) == Listed(Numbered(start, res)) + Decode(accept, tail)
  {
    hide Decode, Encode, NoValues, Numbered;
    BlockItems(start, res, 0);
    assert Numbered(start, res)[0..] == Numbered(start, res);
    DecodeEncode(accept, Read, start, res, NoValues(|res|), 0, tail);
  }

  lemma FieldsAreBlocks(f: Format)
    ensures Fields(f) == Numbered(MODE, Servo(f)) + (Numbered(MOTOR_TEMPERATURE, Status(f)) +
                         (Numbered(AUX1_GPIO_STATUS, Gpio(f)) + Numbered(AUX1_PWM_INPUT_PERIOD, PwmInput(f))))
  {
  }

  /** The query asks for every field and extra entry that is not ignored, in order, and for nothing else. */
  lemma QueryNames(f: Format, tail: seq<byte>)
    requires |f.extra| <= MAX_EXTRA && Acceptable(Extra(f))
    ensures Decode({Write, Read}, QueryBytes(f) + tail)
         == Listed(Fields(f)) + Listed(Named(Extra(f))) + Decode({Write, Read}, tail)
  {
    hide Decode, Request, Listed, Numbered, Resolutions, First, Distinct, Fields;
    var accept := {Write, Read};
    var last := Request(First(Extra(f)), Resolutions(Extra(f)));
    var pwm, gpio, status := Request(AUX1_PWM_INPUT_PERIOD, PwmInput(f)), Request(AUX1_GPIO_STATUS, Gpio(f)),
                             Request(MOTOR_TEMPERATURE, Status(f));
    RequestNames(accept, Extra(f), tail);
    BlockNames(accept, AUX1_PWM_INPUT_PERIOD, PwmInput(f), last + tail);
    BlockNames(accept, AUX1_GPIO_STATUS, Gpio(f), pwm + (last + tail));
    BlockNames(accept, MOTOR_TEMPERATURE, Status(f), gpio + (pwm + (last + tail)));
    BlockNames(accept, MODE, Servo(f), status + (gpio + (pwm + (last + tail))));
    assert QueryBytes(f) + tail == Request(MODE, Servo(f)) + (status + (gpio + (pwm + (last + tail))));
    FieldsAreBlocks(f);
    var a, b, c, d := Numbered(MODE, Servo(f)), Numbered(MOTOR_TEMPERATURE, Status(f)),
                      Numbered(AUX1_GPIO_STATUS, Gpio(f)), Numbered(AUX1_PWM_INPUT_PERIOD, PwmInput(f));
    ListedConcat(a, b + (c + d));
    ListedConcat(b, c + d);
    ListedConcat(c, d);
    var rest := Listed(Named(Extra(f))) + Decode(accept, tail);
    assert Listed(a) + (Listed(b) + (Listed(c) + (Listed(d) + rest))) == Listed(Fields(f)) + rest;
  }

  // ------------------------------------------------------------- reading replies

  /** How each named field is read. */
  function FieldType(register: uint16): Option<Concrete> {
    if register in {0x000, 0x00b, 0x00c, 0x00f, 0x05e, 0x05f, 0x072, 0x074} then Some(Int)
    else if register in {0x001, 0x006} then Some(Position)
    else if register == 0x002 then Some(Velocity)
    else if register == 0x003 then Some(Torque)
    else if register in {0x004, 0x005} then Some(Current)
    else if register == 0x007 then Some(Power)
    else if register in {0x00a, 0x00e} then Some(Temperature)
    else if register == 0x00d then Some(Voltage)
    else if register in {0x073, 0x075} then Some(Pwm)
    else None
  }

  datatype Definition = Definition(register: int, size: int, concrete: Concrete)

  // `kRegisterDefinitions`: blocks of registers that are read alike.

  const SERVO_DEFINITIONS: seq<Definition> := [
    Definition(0x000, 1, Int), Definition(0x001, 1, Position), Definition(0x002, 1, Velocity),
    Definition(0x003, 1, Torque), Definition(0x004, 2, Current), Definition(0x006, 1, Position),
    Definition(0x007, 1, Power)]

  const STATUS_DEFINITIONS: seq<Definition> := [
    Definition(0x00a, 1, Temperature), Definition(0x00b, 2, Int), Definition(0x00d, 1, Voltage),
    Definition(0x00e, 1, Temperature), Definition(0x00f, 1, Int)]

  const PHASE_DEFINITIONS: seq<Definition> := [
    Definition(0x010, 3, Pwm), Definition(0x014, 3, Voltage), Definition(0x018, 1, Theta),
    Definition(0x019, 3, Voltage), Definition(0x01c, 2, Current)]

  const POSITION_DEFINITIONS: seq<Definition> := [
    Definition(0x020, 1, Position), Definition(0x021, 1, Velocity), Definition(0x022, 1, Torque),
    Definition(0x023, 2, Pwm), Definition(0x025, 1, Torque), Definition(0x026, 1, Position),
    Definition(0x027, 1, Time)]

  const LIMIT_DEFINITIONS: seq<Definition> := [
    Definition(0x028, 1, Velocity), Definition(0x029, 1, Acceleration), Definition(0x02a, 1, Voltage),
    Definition(0x02b, 1, Pwm), Definition(0x02c, 1, Current), Definition(0x02d, 1, Int)]

  const CONTROL_DEFINITIONS: seq<Definition> := [
    Definition(0x030, 5, Torque), Definition(0x038, 1, Position), Definition(0x039, 1, Velocity),
    Definition(0x03a, 1, Torque), Definition(0x03b, 1, Position), Definition(0x03c, 1, Velocity),
    Definition(0x03d, 1, Torque)]

  const STAY_WITHIN_DEFINITIONS: seq<Definition> := [
    Definition(0x040, 2, Position), Definition(0x042, 1, Torque), Definition(0x043, 2, Pwm),
    Definition(0x045, 1, Torque), Definition(0x046, 1, Time), Definition(0x047, 1, Pwm), Definition(0x048, 1, Int)]

  const ENCODER_DEFINITIONS: seq<Definition> := [
    Definition(0x050, 1, Position), Definition(0x051, 1, Velocity), Definition(0x052, 1, Position),
    Definition(0x053, 1, Velocity), Definition(0x054, 1, Position), Definition(0x055, 1, Velocity),
    Definition(0x058, 1, Int)]

  const AUX_DEFINITIONS: seq<Definition> := [
    Definition(0x05c, 4, Int), Definition(0x060, 5, Pwm), Definition(0x068, 5, Pwm), Definition(0x070, 2, Int),
    Definition(0x076, 10, Pwm)]

  const DEVICE_DEFINITIONS: seq<Definition> := [
    Definition(0x102, 1, Int), Definition(0x120, 3, Int), Definition(0x130, 3, Int), Definition(0x140, 2, Int)]

  const DEFINITIONS: seq<Definition> :=
    SERVO_DEFINITIONS + (STATUS_DEFINITIONS + (PHASE_DEFINITIONS + (POSITION_DEFINITIONS + (LIMIT_DEFINITIONS +
    (CONTROL_DEFINITIONS + (STAY_WITHIN_DEFINITIONS + (ENCODER_DEFINITIONS + (AUX_DEFINITIONS +
    DEVICE_DEFINITIONS))))))))

  function Lookup(definitions: seq<Definition>, register: int): Concrete {
    if definitions == [] then Int
    else if definitions[0].register <= register < definitions[0].register + definitions[0].size then
      definitions[0].concrete
    else Lookup(definitions[1..], register)
  }

  /** A register number as the `int16_t` it is passed in. */
  function AsInt16(register: uint16): int {
    if register < 0x8000 then register else register - REGISTERS
  }

  method Search(definitions: seq<Definition>, number: int) returns (concrete: Concrete)
    ensures concrete == Lookup(definitions, number)
  {
    assert definitions[0..] == definitions;
    for i := 0 to |definitions|
      invariant Lookup(definitions, number) == Lookup(definitions[i..], number)
    {
      var d := definitions[i];
      assert definitions[i..][1..] == definitions[i + 1..];
      if d.register <= number < d.register + d.size {
        return d.concrete;
      }
    }
    return Int;
  }

  datatype Result = Result(fields: map<uint16, Reading>, extra: seq<(int, Reading)>)

  function Generic(item: Item): (int, Reading) {
    var number := AsInt16(item.register);
    (number, ReadConcrete(Lookup(DEFINITIONS, number), item.resolution, item.value))
  }

  /** What one more register changes: its field, or the next free extra entry. */
  function Note(result: Result, item: Item): Result {
    match FieldType(item.register)
    case Some(concrete) =>
      result.(fields := result.fields[item.register := ReadConcrete(concrete, item.resolution, item.value)])
    case None =>
      if |result.extra| < MAX_EXTRA then result.(extra := result.extra + [Generic(item)]) else result
  }

  function NoteAll(result: Result, items: seq<Item>): Result
    decreases |items|
  {
    if items == [] then result else NoteAll(Note(result, items[0]), items[1..])
  }

  /** For every byte string: terminates, never runs past the end, and sees exactly what `Decode` sees. */
  method ParseQuery(data: seq<byte>) returns (result: Result)
    ensures result == NoteAll(Result(map[], []), Decode({Reply}, data))
  {
    hide Decode, Take, Note, ReadConcrete, Lookup, FieldType;
    var parser := new MultiplexParser(data);
    result := Result(map[], []);
    ghost var all := NoteAll(result, Decode({Reply}, data));
    while true
      invariant parser.Valid() && fresh(parser) && parser.data == data
      invariant all == NoteAll(result, parser.Pending(parser.offset))
      decreases |data| - parser.offset
    {
      ghost var pending := parser.Pending(parser.offset);
      var done, register, res := parser.Next();
      if done {
        return;
      }
      var value := parser.ReadValue(res);
      ghost var item := Item(Reply, register, res, value);
      assert pending[0] == item && pending[1..] == parser.Pending(parser.offset);
      var field := FieldType(register);
      ghost var before := result;
      if field.Some? {
        result := result.(fields := result.fields[register := ReadConcrete(field.value, res, value)]);
      } else if |result.extra| < MAX_EXTRA {
        var concrete := Search(DEFINITIONS, AsInt16(register));
        result := result.(extra := result.extra + [(AsInt16(register), ReadConcrete(concrete, res, value))]);
      }
      NoteIs(before, item);
    }
  }

  lemma NoteIs(result: Result, item: Item)
    ensures Note(result, item) ==
      match FieldType(item.register)
      case Some(concrete) =>
        result.(fields := result.fields[item.register := ReadConcrete(concrete, item.resolution, item.value)])
      case None =>
        if |result.extra| < MAX_EXTRA
        then result.(extra := result.extra + [(AsInt16(item.register),
               ReadConcrete(Lookup(DEFINITIONS, AsInt16(item.register)), item.resolution, item.value))])
        else result
  {
  }

  const MAX_ITEMS: nat := 64

  function GenericAll(items: seq<Item>): (readings: seq<(int, Reading)>)
    ensures |readings| == |items| && forall k | 0 <= k < |items| :: readings[k] == Generic(items[k])
  {
    seq(|items|, k requires 0 <= k < |items| => Generic(items[k]))
  }

  /** The generic reader keeps the first 64 registers. */
  method ParseGenericQuery(data: seq<byte>) returns (values: seq<(int, Reading)>)
    ensures var items := Decode({Reply}, data);
      values == GenericAll(if |items| <= 64 then items else items[..64])
  {
    hide Decode, Take, ReadConcrete, Lookup;
    var parser := new MultiplexParser(data);
    values := [];
    ghost var items := Decode({Reply}, data);
    while true
      invariant parser.Valid() && fresh(parser) && parser.data == data
      invariant |values| <= MAX_ITEMS && |values| <= |items| && items[|values|..] == parser.Pending(parser.offset)
      invariant forall k | 0 <= k < |values| :: values[k] == Generic(items[k])
      decreases |data| - parser.offset
    {
      if |values| == MAX_ITEMS {
        return;
      }
      ghost var pending := parser.Pending(parser.offset);
      var done, register, res := parser.Next();
      if done {
        assert |items| == |values|;
        return;
      }
      var value := parser.ReadValue(res);
      assert pending[0] == Item(Reply, register, res, value) && pending[1..] == parser.Pending(parser.offset);
      assert items[|values|] == pending[0] && items[|values| + 1..] == pending[1..];
      var concrete := Search(DEFINITIONS, AsInt16(register));
      values := values + [(AsInt16(register), ReadConcrete(concrete, res, value))];
    }
  }
}
