/**
 Every register by its number: what a query's fields ask for, how each field of a reply is read,
 and how the reader of extra registers reads every other one.
*/
module FieldNames {
  import opened Bytes
  import opened Registers
  import opened Doubles
  import opened Numbers
  import opened Combiner
  import opened Query
  import opened QueryFrame
  import opened QueryReply
  import opened ReplyRoundTrip
  import opened Commands
  import Padding

  // ------------------------------------------------------------- how fields are read

  /** A single register of a reply is read as a field of this type. */
  ghost predicate ReadAs(register: uint16, concrete: Concrete) {
    forall res, bytes ::
      NoteAll(Result(map[], []), [Item(Reply, register, res, bytes)])
      == Result(map[register := ReadConcrete(concrete, res, bytes)], [])
  }

  lemma ReadsField(register: uint16, concrete: Concrete)
    requires FieldType(register) == Some(concrete)
    ensures ReadAs(register, concrete)
  {
    hide FieldType, ReadConcrete, Generic;
    forall res, bytes
      ensures NoteAll(Result(map[], []), [Item(Reply, register, res, bytes)])
        == Result(map[register := ReadConcrete(concrete, res, bytes)], [])
    {
      var items := [Item(Reply, register, res, bytes)];
      assert items[1..] == [];
    }
  }

  /** The fields of a reply, each with its type. */
  lemma FieldsAreRead()
    ensures ReadAs(0x000, Int)
    ensures ReadAs(0x001, Position)
    ensures ReadAs(0x002, Velocity)
    ensures ReadAs(0x003, Torque)
    ensures ReadAs(0x004, Current)
    ensures ReadAs(0x005, Current)
    ensures ReadAs(0x006, Position)
    ensures ReadAs(0x007, Power)
    ensures ReadAs(0x00a, Temperature)
    ensures ReadAs(0x00b, Int)
    ensures ReadAs(0x00c, Int)
    ensures ReadAs(0x00d, Voltage)
    ensures ReadAs(0x00e, Temperature)
    ensures ReadAs(0x00f, Int)
    ensures ReadAs(0x05e, Int)
    ensures ReadAs(0x05f, Int)
    ensures ReadAs(0x072, Int)
    ensures ReadAs(0x073, Pwm)
    ensures ReadAs(0x074, Int)
    ensures ReadAs(0x075, Pwm)
  {
    hide ReadAs;
    ReadsField(0x000, Int);
    ReadsField(0x001, Position);
    ReadsField(0x002, Velocity);
    ReadsField(0x003, Torque);
    ReadsField(0x004, Current);
    ReadsField(0x005, Current);
    ReadsField(0x006, Position);
    ReadsField(0x007, Power);
    ReadsField(0x00a, Temperature);
    ReadsField(0x00b, Int);
    ReadsField(0x00c, Int);
    ReadsField(0x00d, Voltage);
    ReadsField(0x00e, Temperature);
    ReadsField(0x00f, Int);
    ReadsField(0x05e, Int);
    ReadsField(0x05f, Int);
    ReadsField(0x072, Int);
    ReadsField(0x073, Pwm);
    ReadsField(0x074, Int);
    ReadsField(0x075, Pwm);
  }

  /** An 8-bit voltage of 48 steps is 24 volts. */
  lemma VoltageOfReply()
    ensures NoteAll(Result(map[], []), Decode({Reply}, [0x21, 0x0d, 0x30])) == Result(map[0x00d := Number(24.0)], [])
  {
    hide NoteAll;
    FieldsAreRead();
    var bytes := [0x21, 0x0d, 0x30];
    assert bytes[1..] == [0x0d, 0x30] && [0x0d, 0x30][1..] == [0x30] && [0x30][..1] == [0x30] && [0x30][1..] == [];
    assert ReadHead({Reply}, bytes) == Block(Reply, Int8, 1, 0x00d, [0x30]);
    OneItem();
    assert Signed([0x30]) == 0x30 by {
      assert [0x30][1..] == [];
    }
    assert ReadConcrete(Voltage, Int8, [0x30]) == Number(24.0);
  }

  lemma OneItem()
    ensures Take({Reply}, Reply, Int8, 0x00d, 1, [0x30]) == [Item(Reply, 0x00d, Int8, [0x30])]
  {
    assert [0x30][..1] == [0x30] && [0x30][1..] == [];
    assert Take({Reply}, Reply, Int8, 0x00e, 0, []) == Decode({Reply}, []) == [];
  }

  /** Any other register becomes an extra entry. */
  lemma OthersAreExtra(register: uint16, res: Resolution, bytes: seq<byte>)
    requires register >= 0x010 || register in {0x008, 0x009}
    requires register !in {0x05e, 0x05f, 0x072, 0x073, 0x074, 0x075}
    ensures var item := Item(Reply, register, res, bytes);
      NoteAll(Result(map[], []), [item]) == Result(map[], [Generic(item)])
  {
    hide ReadConcrete, Generic;
    var items := [Item(Reply, register, res, bytes)];
    assert items[1..] == [] && FieldType(register) == None;
  }

  // ------------------------------------------------------------- what fields ask for

  /** The items that name a register. */
  function Naming(items: seq<Item>, register: uint16): seq<Item> {
    if items == [] then []
    else (if items[0].register == register then [items[0]] else []) + Naming(items[1..], register)
  }

  /** A register is asked for once, with this resolution, or not at all. */
  predicate Asks(items: seq<Item>, register: uint16, res: Resolution) {
    Naming(items, register) == if res == Ignore then [] else [Item(Read, register, res, [])]
  }

  predicate IncreasingFields(items: seq<ItemFormat>) {
    && (forall k | 0 <= k < |items| :: 0 <= items[k].register)
    && forall j, k | 0 <= j < k < |items| :: items[j].register < items[k].register
  }

  lemma {:induction false} NotNamed(items: seq<ItemFormat>, register: uint16)
    requires forall k | 0 <= k < |items| :: 0 <= items[k].register && items[k].register as int != register
    ensures Naming(Listed(items), register) == []
  {
    hide Listed, Naming;
    ListedStep(items, register);
    if items != [] {
      NotNamed(items[1..], register);
    }
  }

  lemma {:induction false} NamedOnce(items: seq<ItemFormat>, k: nat)
    requires IncreasingFields(items) && k < |items|
    ensures Asks(Listed(items), items[k].register as int, items[k].resolution)
  {
    hide Listed, Naming;
    var rest := items[1..];
    ListedStep(items, items[k].register as int);
    assert forall j | 0 <= j < |rest| :: rest[j] == items[j + 1];
    if k == 0 {
      NotNamed(rest, items[0].register as int);
    } else {
      NamedOnce(rest, k - 1);
    }
  }

  lemma ListedStep(items: seq<ItemFormat>, register: uint16)
    requires items != [] ==> 0 <= items[0].register
    ensures Naming(Listed(items), register) ==
      if items == [] then []
      else
        (if items[0].resolution == Ignore || items[0].register as int != register then []
         else [Item(Read, register, items[0].resolution, [])]) + Naming(Listed(items[1..]), register)
  {
    if items != [] {
      var rest := Listed(items[1..]);
      if items[0].resolution == Ignore {
        assert Listed(items) == [] + rest == rest;
        assert [] + Naming(rest, register) == Naming(rest, register);
      } else {
        var head := Item(Read, items[0].register as int, items[0].resolution, []);
        assert Listed(items) == [head] + rest;
        NamingFirst(head, rest, register);
      }
    }
  }

  lemma NamingFirst(head: Item, rest: seq<Item>, register: uint16)
    ensures Naming([head] + rest, register)
      == (if head.register == register then [head] else []) + Naming(rest, register)
  {
    assert ([head] + rest)[1..] == rest;
  }

  lemma {:induction false} NamingConcat(a: seq<Item>, b: seq<Item>, register: uint16)
    ensures Naming(a + b, register) == Naming(a, register) + Naming(b, register)
    decreases |a|
  {
    hide Naming;
    if a == [] {
      assert a + b == b;
      NamingNothing(register);
    } else {
      assert a == [a[0]] + a[1..] && a + b == [a[0]] + (a[1..] + b);
      NamingFirst(a[0], a[1..], register);
      NamingFirst(a[0], a[1..] + b, register);
      NamingConcat(a[1..], b, register);
    }
  }

  lemma NamingNothing(register: uint16)
    ensures Naming([], register) == []
  {
  }

  /** A query asks for a field once, with this resolution, and otherwise only if an extra entry does. */
  ghost predicate QueryAsks(f: Format, register: uint16, res: Resolution)
    requires Acceptable(Extra(f))
  {
    Naming(Decode({Write, Read}, QueryBytes(f)), register)
    == (if res == Ignore then [] else [Item(Read, register, res, [])]) + Naming(Listed(Named(Extra(f))), register)
  }

  lemma FieldIsAsked(f: Format, k: nat)
    requires |f.extra| <= MAX_EXTRA && Acceptable(Extra(f)) && k < |Fields(f)|
    ensures 0 <= Fields(f)[k].register && QueryAsks(f, Fields(f)[k].register as int, Fields(f)[k].resolution)
  {
    hide Fields, Decode, QueryBytes, Listed, Named, Naming;
    FieldsIncrease(f);
    var register := Fields(f)[k].register as int;
    NamedOnce(Fields(f), k);
    QueryNames(f, []);
    NothingIsAsked();
    assert QueryBytes(f) + [] == QueryBytes(f);
    var asked, extra := Listed(Fields(f)), Listed(Named(Extra(f)));
    assert asked + extra + [] == asked + extra;
    NamingConcat(asked, extra, register);
  }

  lemma NothingIsAsked()
    ensures Decode({Write, Read}, []) == []
  {
  }

  lemma FieldsIncrease(f: Format)
    ensures IncreasingFields(Fields(f)) && |Fields(f)| == 20
  {
  }

  /** Each of the twenty fields asks for its own register. */
  lemma FieldsAreAsked(f: Format)
    requires |f.extra| <= MAX_EXTRA && Acceptable(Extra(f))
    ensures QueryAsks(f, 0x000, f.mode)
    ensures QueryAsks(f, 0x001, f.position)
    ensures QueryAsks(f, 0x002, f.velocity)
    ensures QueryAsks(f, 0x003, f.torque)
    ensures QueryAsks(f, 0x004, f.qCurrent)
    ensures QueryAsks(f, 0x005, f.dCurrent)
    ensures QueryAsks(f, 0x006, f.absPosition)
    ensures QueryAsks(f, 0x007, f.power)
    ensures QueryAsks(f, 0x00a, f.motorTemperature)
    ensures QueryAsks(f, 0x00b, f.trajectoryComplete)
    ensures QueryAsks(f, 0x00c, f.homeState)
    ensures QueryAsks(f, 0x00d, f.voltage)
    ensures QueryAsks(f, 0x00e, f.temperature)
    ensures QueryAsks(f, 0x00f, f.fault)
    ensures QueryAsks(f, 0x05e, f.aux1Gpio)
    ensures QueryAsks(f, 0x05f, f.aux2Gpio)
    ensures QueryAsks(f, 0x072, f.aux1PwmPeriod)
    ensures QueryAsks(f, 0x073, f.aux1PwmDuty)
    ensures QueryAsks(f, 0x074, f.aux2PwmPeriod)
    ensures QueryAsks(f, 0x075, f.aux2PwmDuty)
  {
    hide QueryAsks, Extra;
    assert |Fields(f)| == 20;
    FieldIsAsked(f, 0);
    FieldIsAsked(f, 1);
    FieldIsAsked(f, 2);
    FieldIsAsked(f, 3);
    FieldIsAsked(f, 4);
    FieldIsAsked(f, 5);
    FieldIsAsked(f, 6);
    FieldIsAsked(f, 7);
    FieldIsAsked(f, 8);
    FieldIsAsked(f, 9);
    FieldIsAsked(f, 10);
    FieldIsAsked(f, 11);
    FieldIsAsked(f, 12);
    FieldIsAsked(f, 13);
    FieldIsAsked(f, 14);
    FieldIsAsked(f, 15);
    FieldIsAsked(f, 16);
    FieldIsAsked(f, 17);
    FieldIsAsked(f, 18);
    FieldIsAsked(f, 19);
  }

  // ------------------------------------------------------------- from query to field

  /** A field that is asked for, and that no extra entry overwrites, holds the reading of its value. */
  ghost predicate Holds(f: Format, v: Values, register: uint16, res: Resolution, concrete: Concrete, value: seq<byte>)
    requires Acceptable(Extra(f)) && AllValid(Blocks(f, v)) && |ReplyOf(Blocks(f, v))| <= 64
  {
    var fields := NoteAll(Result(map[], []), Decode({Reply}, Padding.Padded(ReplyOf(Blocks(f, v))))).fields;
    !AsksExtra(f, register) ==>
      && (register in fields <==> res != Ignore)
      && (res != Ignore ==> fields[register] == ReadConcrete(concrete, res, value))
  }

  lemma FieldHolds(f: Format, v: Values, register: uint16, res: Resolution, concrete: Concrete, value: seq<byte>)
    requires Acceptable(Extra(f)) && AllValid(Blocks(f, v)) && |ReplyOf(Blocks(f, v))| <= 64
    requires FieldType(register) == Some(concrete)
    requires var own := FieldPart(f, v, register); var at := At(own, register);
      at < |own.res| == |own.values| && own.res[at] == res && own.values[at] == value
    ensures Holds(f, v, register, res, concrete, value)
  {
    hide Decode, ReplyOf, NoteAll, Named, Padding.Padded, Resolutions, First, ReadConcrete, FieldPart, FieldType;
    FieldComesBack(f, v, register);
    ExtraCarries(f, v, register);
  }

  lemma PartsValid(f: Format, v: Values)
    requires Acceptable(Extra(f)) && AllValid(Blocks(f, v))
    ensures |v.servo| == 8 && |v.status| == 6 && |v.gpio| == 2 && |v.pwm| == 4
  {
    var blocks := Blocks(f, v);
    assert blocks[0].Valid() && blocks[1].Valid() && blocks[2].Valid() && blocks[3].Valid();
  }

  /** Every field of a query's reply, by its register, resolution, type and value. */
  lemma FieldsComeBack(f: Format, v: Values)
    requires Acceptable(Extra(f)) && AllValid(Blocks(f, v)) && |ReplyOf(Blocks(f, v))| <= 64
    ensures |v.servo| == 8 && |v.status| == 6 && |v.gpio| == 2 && |v.pwm| == 4
    ensures Holds(f, v, 0x000, f.mode, Int, v.servo[0])
    ensures Holds(f, v, 0x001, f.position, Position, v.servo[1])
    ensures Holds(f, v, 0x002, f.velocity, Velocity, v.servo[2])
    ensures Holds(f, v, 0x003, f.torque, Torque, v.servo[3])
    ensures Holds(f, v, 0x004, f.qCurrent, Current, v.servo[4])
    ensures Holds(f, v, 0x005, f.dCurrent, Current, v.servo[5])
    ensures Holds(f, v, 0x006, f.absPosition, Position, v.servo[6])
    ensures Holds(f, v, 0x007, f.power, Power, v.servo[7])
    ensures Holds(f, v, 0x00a, f.motorTemperature, Temperature, v.status[0])
    ensures Holds(f, v, 0x00b, f.trajectoryComplete, Int, v.status[1])
    ensures Holds(f, v, 0x00c, f.homeState, Int, v.status[2])
    ensures Holds(f, v, 0x00d, f.voltage, Voltage, v.status[3])
    ensures Holds(f, v, 0x00e, f.temperature, Temperature, v.status[4])
    ensures Holds(f, v, 0x00f, f.fault, Int, v.status[5])
    ensures Holds(f, v, 0x05e, f.aux1Gpio, Int, v.gpio[0])
    ensures Holds(f, v, 0x05f, f.aux2Gpio, Int, v.gpio[1])
    ensures Holds(f, v, 0x072, f.aux1PwmPeriod, Int, v.pwm[0])
    ensures Holds(f, v, 0x073, f.aux1PwmDuty, Pwm, v.pwm[1])
    ensures Holds(f, v, 0x074, f.aux2PwmPeriod, Int, v.pwm[2])
    ensures Holds(f, v, 0x075, f.aux2PwmDuty, Pwm, v.pwm[3])
  {
    hide Holds, AllValid, ReplyOf, Extra, Acceptable;
    PartsValid(f, v);
    FieldHolds(f, v, 0x000, f.mode, Int, v.servo[0]);
    FieldHolds(f, v, 0x001, f.position, Position, v.servo[1]);
    FieldHolds(f, v, 0x002, f.velocity, Velocity, v.servo[2]);
    FieldHolds(f, v, 0x003, f.torque, Torque, v.servo[3]);
    FieldHolds(f, v, 0x004, f.qCurrent, Current, v.servo[4]);
    FieldHolds(f, v, 0x005, f.dCurrent, Current, v.servo[5]);
    FieldHolds(f, v, 0x006, f.absPosition, Position, v.servo[6]);
    FieldHolds(f, v, 0x007, f.power, Power, v.servo[7]);
    FieldHolds(f, v, 0x00a, f.motorTemperature, Temperature, v.status[0]);
    FieldHolds(f, v, 0x00b, f.trajectoryComplete, Int, v.status[1]);
    FieldHolds(f, v, 0x00c, f.homeState, Int, v.status[2]);
    FieldHolds(f, v, 0x00d, f.voltage, Voltage, v.status[3]);
    FieldHolds(f, v, 0x00e, f.temperature, Temperature, v.status[4]);
    FieldHolds(f, v, 0x00f, f.fault, Int, v.status[5]);
    FieldHolds(f, v, 0x05e, f.aux1Gpio, Int, v.gpio[0]);
    FieldHolds(f, v, 0x05f, f.aux2Gpio, Int, v.gpio[1]);
    FieldHolds(f, v, 0x072, f.aux1PwmPeriod, Int, v.pwm[0]);
    FieldHolds(f, v, 0x073, f.aux1PwmDuty, Pwm, v.pwm[1]);
    FieldHolds(f, v, 0x074, f.aux2PwmPeriod, Int, v.pwm[2]);
    FieldHolds(f, v, 0x075, f.aux2PwmDuty, Pwm, v.pwm[3]);
  }

  // ------------------------------------------------------------- the generic reader's table

  lemma LookupStep(d: seq<Definition>, k: nat, n: int)
    requires k < |d|
    ensures Lookup(d[k..], n) ==
      if d[k].register <= n < d[k].register + d[k].size then d[k].concrete else Lookup(d[k + 1..], n)
  {
    assert d[k..][1..] == d[k + 1..];
  }

  lemma ServoTypes(rest: seq<Definition>, n: int)
    ensures Lookup(SERVO_DEFINITIONS + rest, n) ==
      if n == 0x000 then Int
      else if n == 0x001 then Position
      else if n == 0x002 then Velocity
      else if n == 0x003 then Torque
      else if 0x004 <= n < 0x006 then Current
      else if n == 0x006 then Position
      else if n == 0x007 then Power
      else Lookup(rest, n)
  {
    hide Lookup;
    var d := SERVO_DEFINITIONS + rest;
    assert d[0..] == d && d[7..] == rest;
    LookupStep(d, 0, n);
    LookupStep(d, 1, n);
    LookupStep(d, 2, n);
    LookupStep(d, 3, n);
    LookupStep(d, 4, n);
    LookupStep(d, 5, n);
    LookupStep(d, 6, n);
  }

  lemma StatusTypes(rest: seq<Definition>, n: int)
    ensures Lookup(STATUS_DEFINITIONS + rest, n) ==
      if n == 0x00a then Temperature
      else if 0x00b <= n < 0x00d then Int
      else if n == 0x00d then Voltage
      else if n == 0x00e then Temperature
      else if n == 0x00f then Int
      else Lookup(rest, n)
  {
    hide Lookup;
    var d := STATUS_DEFINITIONS + rest;
    assert d[0..] == d && d[5..] == rest;
    LookupStep(d, 0, n);
    LookupStep(d, 1, n);
    LookupStep(d, 2, n);
    LookupStep(d, 3, n);
    LookupStep(d, 4, n);
  }

  lemma PhaseTypes(rest: seq<Definition>, n: int)
    ensures Lookup(PHASE_DEFINITIONS + rest, n) ==
      if 0x010 <= n < 0x013 then Pwm
      else if 0x014 <= n < 0x017 then Voltage
      else if n == 0x018 then Theta
      else if 0x019 <= n < 0x01c then Voltage
      else if 0x01c <= n < 0x01e then Current
      else Lookup(rest, n)
  {
    hide Lookup;
    var d := PHASE_DEFINITIONS + rest;
    assert d[0..] == d && d[5..] == rest;
    LookupStep(d, 0, n);
    LookupStep(d, 1, n);
    LookupStep(d, 2, n);
    LookupStep(d, 3, n);
    LookupStep(d, 4, n);
  }

  lemma PositionTypes(rest: seq<Definition>, n: int)
    ensures Lookup(POSITION_DEFINITIONS + rest, n) ==
      if n == 0x020 then Position
      else if n == 0x021 then Velocity
      else if n == 0x022 then Torque
      else if 0x023 <= n < 0x025 then Pwm
      else if n == 0x025 then Torque
      else if n == 0x026 then Position
      else if n == 0x027 then Time
      else Lookup(rest, n)
  {
    hide Lookup;
    var d := POSITION_DEFINITIONS + rest;
    assert d[0..] == d && d[7..] == rest;
    LookupStep(d, 0, n);
    LookupStep(d, 1, n);
    LookupStep(d, 2, n);
    LookupStep(d, 3, n);
    LookupStep(d, 4, n);
    LookupStep(d, 5, n);
    LookupStep(d, 6, n);
  }

  lemma LimitTypes(rest: seq<Definition>, n: int)
    ensures Lookup(LIMIT_DEFINITIONS + rest, n) ==
      if n == 0x028 then Velocity
      else if n == 0x029 then Acceleration
      else if n == 0x02a then Voltage
      else if n == 0x02b then Pwm
      else if n == 0x02c then Current
      else if n == 0x02d then Int
      else Lookup(rest, n)
  {
    hide Lookup;
    var d := LIMIT_DEFINITIONS + rest;
    assert d[0..] == d && d[6..] == rest;
    LookupStep(d, 0, n);
    LookupStep(d, 1, n);
    LookupStep(d, 2, n);
    LookupStep(d, 3, n);
    LookupStep(d, 4, n);
    LookupStep(d, 5, n);
  }

  lemma ControlTypes(rest: seq<Definition>, n: int)
    ensures Lookup(CONTROL_DEFINITIONS + rest, n) ==
      if 0x030 <= n < 0x035 then Torque
      else if n == 0x038 then Position
      else if n == 0x039 then Velocity
      else if n == 0x03a then Torque
      else if n == 0x03b then Position
      else if n == 0x03c then Velocity
      else if n == 0x03d then Torque
      else Lookup(rest, n)
  {
    hide Lookup;
    var d := CONTROL_DEFINITIONS + rest;
    assert d[0..] == d && d[7..] == rest;
    LookupStep(d, 0, n);
    LookupStep(d, 1, n);
    LookupStep(d, 2, n);
    LookupStep(d, 3, n);
    LookupStep(d, 4, n);
    LookupStep(d, 5, n);
    LookupStep(d, 6, n);
  }

  lemma StayWithinTypes(rest: seq<Definition>, n: int)
    ensures Lookup(STAY_WITHIN_DEFINITIONS + rest, n) ==
      if 0x040 <= n < 0x042 then Position
      else if n == 0x042 then Torque
      else if 0x043 <= n < 0x045 then Pwm
      else if n == 0x045 then Torque
      else if n == 0x046 then Time
      else if n == 0x047 then Pwm
      else if n == 0x048 then Int
      else Lookup(rest, n)
  {
    hide Lookup;
    var d := STAY_WITHIN_DEFINITIONS + rest;
    assert d[0..] == d && d[7..] == rest;
    LookupStep(d, 0, n);
    LookupStep(d, 1, n);
    LookupStep(d, 2, n);
    LookupStep(d, 3, n);
    LookupStep(d, 4, n);
    LookupStep(d, 5, n);
    LookupStep(d, 6, n);
  }

  lemma EncoderTypes(rest: seq<Definition>, n: int)
    ensures Lookup(ENCODER_DEFINITIONS + rest, n) ==
      if n == 0x050 then Position
      else if n == 0x051 then Velocity
      else if n == 0x052 then Position
      else if n == 0x053 then Velocity
      else if n == 0x054 then Position
      else if n == 0x055 then Velocity
      else if n == 0x058 then Int
      else Lookup(rest, n)
  {
    hide Lookup;
    var d := ENCODER_DEFINITIONS + rest;
    assert d[0..] == d && d[7..] == rest;
    LookupStep(d, 0, n);
    LookupStep(d, 1, n);
    LookupStep(d, 2, n);
    LookupStep(d, 3, n);
    LookupStep(d, 4, n);
    LookupStep(d, 5, n);
    LookupStep(d, 6, n);
  }

  lemma AuxTypes(rest: seq<Definition>, n: int)
    ensures Lookup(AUX_DEFINITIONS + rest, n) ==
      if 0x05c <= n < 0x060 then Int
      else if 0x060 <= n < 0x065 then Pwm
      else if 0x068 <= n < 0x06d then Pwm
      else if 0x070 <= n < 0x072 then Int
      else if 0x076 <= n < 0x080 then Pwm
      else Lookup(rest, n)
  {
    hide Lookup;
    var d := AUX_DEFINITIONS + rest;
    assert d[0..] == d && d[5..] == rest;
    LookupStep(d, 0, n);
    LookupStep(d, 1, n);
    LookupStep(d, 2, n);
    LookupStep(d, 3, n);
    LookupStep(d, 4, n);
  }

  lemma DeviceTypes(rest: seq<Definition>, n: int)
    ensures Lookup(DEVICE_DEFINITIONS + rest, n) ==
      if n == 0x102 then Int
      else if 0x120 <= n < 0x123 then Int
      else if 0x130 <= n < 0x133 then Int
      else if 0x140 <= n < 0x142 then Int
      else Lookup(rest, n)
  {
    hide Lookup;
    var d := DEVICE_DEFINITIONS + rest;
    assert d[0..] == d && d[4..] == rest;
    LookupStep(d, 0, n);
    LookupStep(d, 1, n);
    LookupStep(d, 2, n);
    LookupStep(d, 3, n);
  }

  /** How the reader of extra registers reads every register. */
  lemma GenericTypes(n: int)
    ensures Lookup(DEFINITIONS, n) ==
      if n in {0x001, 0x006, 0x020, 0x026, 0x038, 0x03b, 0x040, 0x041, 0x050, 0x052, 0x054} then Position
      else if n in {0x002, 0x021, 0x028, 0x039, 0x03c, 0x051, 0x053, 0x055} then Velocity
      else if n in {0x003, 0x022, 0x025, 0x030, 0x031, 0x032, 0x033, 0x034, 0x03a, 0x03d, 0x042, 0x045} then Torque
      else if n in {0x004, 0x005, 0x01c, 0x01d, 0x02c} then Current
      else if n in {0x007} then Power
      else if n in {0x00a, 0x00e} then Temperature
      else if n in {0x00d, 0x014, 0x015, 0x016, 0x019, 0x01a, 0x01b, 0x02a} then Voltage
      else if n in {0x010, 0x011, 0x012, 0x023, 0x024, 0x02b, 0x043, 0x044, 0x047, 0x060, 0x061, 0x062, 0x063,
          0x064, 0x068, 0x069, 0x06a, 0x06b, 0x06c, 0x076, 0x077, 0x078, 0x079, 0x07a, 0x07b, 0x07c, 0x07d,
          0x07e, 0x07f} then Pwm
      else if n in {0x018} then Theta
      else if n in {0x027, 0x046} then Time
      else if n in {0x029} then Acceleration
      else Int
  {
    hide Lookup;
    var device := DEVICE_DEFINITIONS + [];
    var aux := AUX_DEFINITIONS + DEVICE_DEFINITIONS;
    var encoder := ENCODER_DEFINITIONS + aux;
    var stay := STAY_WITHIN_DEFINITIONS + encoder;
    var control := CONTROL_DEFINITIONS + stay;
    var limit := LIMIT_DEFINITIONS + control;
    var position := POSITION_DEFINITIONS + limit;
    var phase := PHASE_DEFINITIONS + position;
    var status := STATUS_DEFINITIONS + phase;
    assert device == DEVICE_DEFINITIONS;
    NoDefinitions(n);
    DeviceTypes([], n);
    AuxTypes(DEVICE_DEFINITIONS, n);
    EncoderTypes(aux, n);
    StayWithinTypes(encoder, n);
    ControlTypes(stay, n);
    LimitTypes(control, n);
    PositionTypes(limit, n);
    PhaseTypes(position, n);
    StatusTypes(phase, n);
    ServoTypes(status, n);
  }

  lemma NoDefinitions(n: int)
    ensures Lookup([], n) == Int
  {
  }

  /** The two readers agree on the type of a field unless it is a duty cycle of a PWM input. */
  lemma ReadersAgreeExactly(register: uint16)
    requires FieldType(register).Some?
    ensures Lookup(DEFINITIONS, AsInt16(register)) == FieldType(register).value <==> register !in {0x073, 0x075}
  {
    GenericTypes(AsInt16(register));
  }

  /** A command's field is read with the type it was written with, by the reader of extra registers. */
  ghost predicate ReadAsWritten(register: uint16, field: Field) {
    forall res, bytes :: Generic(Item(Reply, register, res, bytes))
      == (register as int, ReadConcrete(if field.Mapped? then field.concrete else Int, res, bytes))
  }

  /** So are the registers of the position command. */
  lemma PositionReadAsWritten(c: PositionCommand, f: PositionFormat, register: uint16)
    requires 0x020 <= register <= 0x02d
    ensures ReadAsWritten(register, PositionField(c, f, register))
  {
    hide Lookup, ReadConcrete;
    GenericTypes(register);
  }

  lemma StayWithinReadAsWritten(c: StayWithinCommand, f: StayWithinFormat, register: uint16)
    requires 0x040 <= register <= 0x048
    ensures ReadAsWritten(register, StayWithinField(c, f, register))
  {
    hide Lookup, ReadConcrete;
    GenericTypes(register);
  }

  /** The currents and the duty cycles. */
  lemma OthersReadAsWritten(c: CurrentCommand, f: CurrentFormat, duty: Double, res: Resolution, k: nat)
    requires k < 10
    ensures ReadAsWritten(0x01c, CurrentFields(c, f)[0]) && ReadAsWritten(0x01d, CurrentFields(c, f)[1])
    ensures ReadAsWritten(0x076 + k, Mapped(duty, Pwm, res))
  {
    hide Lookup, ReadConcrete;
    GenericTypes(0x01c);
    GenericTypes(0x01d);
    GenericTypes(0x076 + k);
    assert CurrentFields(c, f)[0].concrete == CurrentFields(c, f)[1].concrete == Current;
  }

  /**
   Of the voltage command only the voltage is. The angle, written as half turns in steps of a duty
   cycle, is read in radians, and the rate, for which the table has no entry, as a whole number.
  */
  lemma VFocReadAsWritten(c: VFocCommand, f: VFocFormat)
    ensures ReadAsWritten(0x019, VFocField(c, f, 0x019))
    ensures forall res, bytes ::
      && Generic(Item(Reply, 0x018, res, bytes)) == (0x018, ReadConcrete(Theta, res, bytes))
      && Generic(Item(Reply, 0x01e, res, bytes)) == (0x01e, ReadConcrete(Int, res, bytes))
    ensures VFocField(c, f, 0x018).concrete == Pwm && VFocField(c, f, 0x01e).concrete == Velocity
    ensures forall res | res in {Int8, Int16, Int32} ::
      Scale(Theta, res) == Scale(Pwm, res) * 3.14159265358979323846
  {
    hide Lookup, ReadConcrete;
    GenericTypes(0x018);
    GenericTypes(0x019);
    GenericTypes(0x01e);
  }
}
