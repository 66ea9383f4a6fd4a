/**
 Asking for registers (`Query::Make`, `GenericQuery::Make`): a sparse, sorted list of
 registers is spread over a dense array of resolutions, which the combiner frames.
*/
module Query {
  import opened Bytes
  import opened Registers
  import opened Combiner

  type int16 = n: int | -0x8000 <= n < 0x8000

  datatype ItemFormat = ItemFormat(register: int16, resolution: Resolution)

  /** An entry with this register number marks the end of the list. */
  const END: int16 := 0x7fff

  /** The number of entries before the end mark. */
  function End(items: seq<ItemFormat>): (n: nat)
    ensures n <= |items|
  {
    if items == [] || items[0].register == END then 0 else 1 + End(items[1..])
  }

  method CountItems(items: seq<ItemFormat>) returns (size: nat)
    requires |items| < 0x8000
    ensures size == End(items)
  {
    for i := 0 to |items|
      invariant End(items) == i + End(items[i..])
    {
      assert items[i..][1..] == items[i + 1..];
      if items[i].register == END {
        return i;
      }
    }
    return |items|;
  }

  predicate Sorted(items: seq<ItemFormat>) {
    forall j, k | 0 <= j < k < |items| :: items[j].register <= items[k].register
  }

  /** The entries up to the first one that repeats the register before it. */
  function Distinct(items: seq<ItemFormat>): (n: nat)
    ensures n <= |items| && (items != [] ==> n >= 1)
  {
    if |items| <= 1 then |items|
    else if items[0].register == items[1].register then 1
    else 1 + Distinct(items[1..])
  }

  lemma {:induction false} DistinctIncreases(items: seq<ItemFormat>, j: nat, k: nat)
    requires Sorted(items) && j < k < Distinct(items)
    ensures items[j].register < items[k].register
    decreases |items|
  {
    var rest := items[1..];
    assert forall a | 0 <= a < |rest| :: rest[a] == items[a + 1];
    if j > 0 {
      DistinctIncreases(rest, j - 1, k - 1);
    } else {
      assert items[1].register <= items[k].register;
    }
  }

  lemma {:induction false} DistinctStops(items: seq<ItemFormat>)
    requires Distinct(items) < |items|
    ensures Distinct(items) > 0 && items[Distinct(items)].register == items[Distinct(items) - 1].register
  {
    if items[0].register != items[1].register {
      DistinctStops(items[1..]);
    }
  }

  /** The resolution the list gives a register; the registers it does not name are ignored. */
  function Wanted(items: seq<ItemFormat>, register: int): Resolution {
    if items == [] then Ignore
    else if items[0].register == register then items[0].resolution
    else Wanted(items[1..], register)
  }

  lemma {:induction false} WantedAt(items: seq<ItemFormat>, k: nat)
    requires k < |items| && forall j | 0 <= j < k :: items[j].register != items[k].register
    ensures Wanted(items, items[k].register) == items[k].resolution
  {
    if k > 0 {
      WantedAt(items[1..], k - 1);
    }
  }

  lemma {:induction false} NotWanted(items: seq<ItemFormat>, register: int)
    requires forall j | 0 <= j < |items| :: items[j].register != register
    ensures Wanted(items, register) == Ignore
  {
    if items != [] {
      NotWanted(items[1..], register);
    }
  }

  function Dense(items: seq<ItemFormat>, first: int, count: nat): (res: seq<Resolution>)
    ensures |res| == count
    ensures forall k | 0 <= k < count :: res[k] == Wanted(items, first + k)
  {
    seq(count, (k: nat) => Wanted(items, first + k))
  }

  /** Spreads the list over the registers from its first to its last. The index never passes a repeated register. */
  method FillDense(items: seq<ItemFormat>) returns (resolutions: array<Resolution>)
    requires items != [] && Sorted(items)
    ensures fresh(resolutions)
    ensures resolutions[..] == Dense(items[..Distinct(items)], items[0].register,
                                     items[|items| - 1].register - items[0].register + 1)
  {
    var first: int, last: int := items[0].register, items[|items| - 1].register;
    ghost var distinct := Distinct(items);
    ghost var named := items[..distinct];
    resolutions := new Resolution[last - first + 1](_ => Int8);
    var index := 0;
    for register := first to last + 1
      invariant index <= distinct
      invariant forall k | 0 <= k < index :: named[k].register < register
      invariant index < distinct ==> named[index].register >= register
      invariant forall k | 0 <= k < register - first :: resolutions[k] == Wanted(named, first + k)
    {
      assert index < |items| by {
        assert index > 0 ==> named[index - 1].register < register <= last;
      }
      Search(items, index, register);
      if items[index].register == register {
        resolutions[register - first] := items[index].resolution;
        index := index + 1;
      } else {
        resolutions[register - first] := Ignore;
      }
    }
  }

  /** What the list says about the next register is at the index, if anywhere. */
  lemma Search(items: seq<ItemFormat>, index: nat, register: int)
    requires Sorted(items) && index < |items|
    requires var named := items[..Distinct(items)];
      && index <= |named|
      && (forall k | 0 <= k < index :: named[k].register < register)
      && (index < |named| ==> named[index].register >= register)
    ensures var named := items[..Distinct(items)];
      Wanted(named, register) == if items[index].register == register then items[index].resolution else Ignore
    ensures items[index].register == register ==> index < Distinct(items)
    ensures items[index].register == register && index + 1 < Distinct(items) ==> items[index + 1].register > register
  {
    var named := items[..Distinct(items)];
    if index == |named| {
      DistinctStops(items);
      assert items[index].register == named[index - 1].register;
      NotWanted(named, register);
    } else {
      forall k | index < k < |named|
        ensures named[k].register > named[index].register
      {
        DistinctIncreases(items, index, k);
      }
      if items[index].register == register {
        WantedAt(named, index);
      } else {
        NotWanted(named, register);
      }
    }
  }

  // ------------------------------------------------------------- the request on the wire

  /** A read block carries no values. */
  function NoValues(n: nat): (values: seq<seq<byte>>)
    ensures |values| == n && forall i | 0 <= i < n :: values[i] == []
  {
    seq(n, _ => [])
  }

  function Request(start: nat, res: seq<Resolution>): seq<byte> {
    Encode(Read, start, res, NoValues(|res|), 0)
  }

  /** The registers a list asks for, as a decoder of the request sees them. */
  function Listed(items: seq<ItemFormat>): seq<Item> {
    if items == [] then []
    else
      (if items[0].resolution == Ignore then []
       else [Item(Read, items[0].register as int % REGISTERS, items[0].resolution, [])]) + Listed(items[1..])
  }

  predicate Increasing(items: seq<ItemFormat>) {
    forall j, k | 0 <= j < k < |items| :: items[j].register < items[k].register
  }

  /** From dense index `i` on, the non-ignored registers are the entries from `k` on. */
  lemma {:induction false} DenseItems(named: seq<ItemFormat>, first: int, res: seq<Resolution>, i: nat, k: nat)
    requires Increasing(named) && i <= |res| && k <= |named| && res == Dense(named, first, |res|)
    requires forall j | 0 <= j < k :: named[j].register < first + i
    requires forall j | k <= j < |named| :: first + i <= named[j].register < first + |res|
    ensures Items(Read, first % REGISTERS, res, NoValues(|res|), i) == Listed(named[k..])
    decreases |res| - i
  {
    hide Dense, NoValues;
    if i < |res| {
      assert (first % REGISTERS + i) % REGISTERS == (first + i) % REGISTERS;
      if k < |named| && named[k].register == first + i {
        WantedAt(named, k);
        assert named[k..][1..] == named[k + 1..];
        DenseItems(named, first, res, i + 1, k + 1);
      } else {
        NotWanted(named, first + i);
        DenseItems(named, first, res, i + 1, k);
      }
    }
  }

  lemma RequestStep(start: nat, res: seq<Resolution>, i: nat)
    requires i < |res|
    ensures Encode(Read, start, res, NoValues(|res|), i)
      == HeaderAt(Read, start, res, i) + Encode(Read, start, res, NoValues(|res|), i + 1)
    ensures ReplyBytes(start, res, i) == ReplyBytesAt(start, res, i) + ReplyBytes(start, res, i + 1)
  {
    hide Header, Varuint, ReplyBytesAt;
  }

  lemma RequestEnd(start: nat, res: seq<Resolution>)
    ensures Encode(Read, start, res, NoValues(|res|), |res|) == [] && ReplyBytes(start, res, |res|) == 0
  {
  }

  /** The framing of a whole array of resolutions, and the size its reply will have modulo 256. */
  method WriteRequest(frame: CanData, start: uint16, resolutions: seq<Resolution>) returns (replySize: byte)
    requires frame.Valid() && |resolutions| < 0x8000
    requires frame.size + |Request(start, resolutions)| <= CAPACITY
    modifies frame, frame.data
    ensures frame.Valid() && frame.Contents() == old(frame.Contents()) + Request(start, resolutions)
    ensures replySize == ReplyBytes(start, resolutions, 0) % 256
  {
    hide HeaderAt, Encode, ReplyBytes, ReplyBytesAt, StartsBlock, Width;
    RequestEnd(start, resolutions);
    ghost var values := NoValues(|resolutions|);
    var combiner := new WriteCombiner(frame, Read, start, resolutions);
    for i := 0 to |resolutions|
      invariant combiner.Valid() && combiner.frame == frame && frame.Valid() && combiner.offset == i
      invariant combiner.kind == Read && combiner.start == start && combiner.resolutions == resolutions
      invariant frame.Contents() + Encode(Read, start, resolutions, values, i)
        == old(frame.Contents()) + Request(start, resolutions)
      invariant (combiner.replySize + ReplyBytes(start, resolutions, i)) % 256
        == ReplyBytes(start, resolutions, 0) % 256
    {
      ghost var before := frame.Contents();
      RequestStep(start, resolutions, i);
      AddBytes(combiner.replySize + ReplyBytesAt(start, resolutions, i), ReplyBytes(start, resolutions, i + 1));
      var header := combiner.MaybeWrite();
      assert before + Encode(Read, start, resolutions, values, i)
          == before + HeaderAt(Read, start, resolutions, i) + Encode(Read, start, resolutions, values, i + 1);
    }
    replySize := combiner.replySize;
  }

  // ------------------------------------------------------------- a list of registers

  ghost function Named(items: seq<ItemFormat>): seq<ItemFormat> {
    items[..Distinct(items)]
  }

  ghost function First(items: seq<ItemFormat>): uint16 {
    if items == [] then 0 else items[0].register as int % REGISTERS
  }

  ghost function Resolutions(items: seq<ItemFormat>): seq<Resolution>
    requires Sorted(items)
  {
    if items == [] then []
    else Dense(Named(items), items[0].register, items[|items| - 1].register as int - items[0].register + 1)
  }

  const SPAN_LIMIT: nat := 512

  /** What the source demands of a list: sorted, and spanning at most 512 registers. */
  ghost predicate Acceptable(items: seq<ItemFormat>) {
    Sorted(items) && |Resolutions(items)| <= SPAN_LIMIT
  }

  /** The common end of `Query::Make` and `GenericQuery::Make`. */
  method WriteList(frame: CanData, formats: seq<ItemFormat>) returns (replySize: byte)
    requires frame.Valid() && |formats| < 0x8000 && Acceptable(formats[..End(formats)])
    requires var items := formats[..End(formats)];
      frame.size + |Request(First(items), Resolutions(items))| <= CAPACITY
    modifies frame, frame.data
    ensures var items := formats[..End(formats)];
      && frame.Valid() && frame.Contents() == old(frame.Contents()) + Request(First(items), Resolutions(items))
      && replySize == ReplyBytes(First(items), Resolutions(items), 0) % 256
  {
    hide Encode, NoValues;
    var size := CountItems(formats);
    ghost var items := formats[..size];
    if size == 0 {
      EmptyRequest();
      return 0;
    }
    assert formats[0] == items[0] && formats[size - 1] == items[|items| - 1];
    var resolutions := FillDense(formats[..size]);
    var start: uint16 := formats[0].register as int % REGISTERS;
    replySize := WriteRequest(frame, start, resolutions[..]);
  }

  lemma EmptyRequest()
    ensures Request(0, []) == [] && ReplyBytes(0, [], 0) == 0
  {
  }

  /** A run of the dense array is no longer than what is left of the list. */
  lemma {:induction false} RunWithinList(named: seq<ItemFormat>, first: int, res: seq<Resolution>, i: nat, k: nat)
    requires Increasing(named) && i < |res| && k <= |named| && res == Dense(named, first, |res|)
    requires forall j | 0 <= j < k :: named[j].register < first + i
    requires forall j | k <= j < |named| :: named[j].register >= first + i
    ensures res[i] != Ignore ==> Run(res, i) <= |named| - k
    decreases |res| - i
  {
    hide Dense;
    if k < |named| && named[k].register == first + i {
      if i + 1 < |res| {
        RunWithinList(named, first, res, i + 1, k + 1);
      }
    } else {
      NotWanted(named, first + i);
    }
  }

  lemma {:induction false} SplitAt(named: seq<ItemFormat>, bound: int) returns (k: nat)
    requires Increasing(named)
    ensures k <= |named|
    ensures forall j | 0 <= j < k :: named[j].register < bound
    ensures forall j | k <= j < |named| :: named[j].register >= bound
  {
    k := 0;
    while k < |named| && named[k].register < bound
      invariant k <= |named| && forall j | 0 <= j < k :: named[j].register < bound
    {
      k := k + 1;
    }
  }

  lemma NamedIncreases(items: seq<ItemFormat>)
    requires Sorted(items)
    ensures Increasing(Named(items))
  {
    forall j, k | 0 <= j < k < Distinct(items)
      ensures items[j].register < items[k].register
    {
      DistinctIncreases(items, j, k);
    }
  }

  /** The request for a list names exactly its entries up to the first repeated register. */
  lemma RequestNames(accept: set<Kind>, items: seq<ItemFormat>, tail: seq<byte>)
    requires Read in accept && Acceptable(items) && |items| < 256
    ensures Decode(accept, Request(First(items), Resolutions(items)) + tail)
      == Listed(Named(items)) + Decode(accept, tail)
  {
    hide Decode, Encode, Items, Dense, Wanted, Distinct;
    var named, start, res := Named(items), First(items), Resolutions(items);
    if items == [] {
      EmptyRequest();
      assert named == [] && Request(start, res) + tail == tail;
      assert Listed(named) + Decode(accept, tail) == Decode(accept, tail);
    } else {
      var first := items[0].register as int;
      NamedIncreases(items);
      assert named[0..] == named;
      DenseItems(named, first, res, 0, 0);
      forall i | 0 <= i < |res| && StartsBlock(res, i)
        ensures Run(res, i) < 256
      {
        var k := SplitAt(named, first + i);
        RunWithinList(named, first, res, i, k);
      }
      DecodeEncode(accept, Read, start, res, NoValues(|res|), 0, tail);
    }
  }

  lemma {:induction false} ListedConcat(a: seq<ItemFormat>, b: seq<ItemFormat>)
    ensures Listed(a + b) == Listed(a) + Listed(b)
  {
    hide Listed;
    if a == [] {
      assert a + b == b;
      ListedStep(a);
    } else {
      assert (a + b)[1..] == a[1..] + b;
      ListedConcat(a[1..], b);
      ListedStep(a);
      ListedStep(a + b);
    }
  }

  lemma ListedStep(items: seq<ItemFormat>)
    ensures Listed(items) ==
      if items == [] then []
      else (if items[0].resolution == Ignore then []
            else [Item(Read, items[0].register as int % REGISTERS, items[0].resolution, [])]) + Listed(items[1..])
  {
  }

  lemma {:induction false} ListedEmpty(items: seq<ItemFormat>)
    ensures Listed(items) == [] <==> forall k | 0 <= k < |items| :: items[k].resolution == Ignore
  {
    if items != [] {
      ListedEmpty(items[1..]);
      assert forall k | 0 < k < |items| :: items[k] == items[1..][k - 1];
    }
  }

  /**
   The comment asks for sorted lists. That is not quite enough: the request is exact
   if and only if nothing but ignored entries comes at or after the first repeated register.
  */
  lemma RequestExact(items: seq<ItemFormat>)
    requires Acceptable(items) && |items| < 256
    ensures Decode({Read}, Request(First(items), Resolutions(items))) == Listed(items)
       <==> forall k | Distinct(items) <= k < |items| :: items[k].resolution == Ignore
  {
    hide Decode, Distinct, Resolutions, Request, Listed;
    var named, rest := Named(items), items[Distinct(items)..];
    var request := Request(First(items), Resolutions(items));
    RequestNames({Read}, items, []);
    NothingDecodes({Read});
    assert request + [] == request && Listed(named) + [] == Listed(named);
    assert named + rest == items;
    ListedConcat(named, rest);
    ListedEmpty(rest);
    assert forall k | Distinct(items) <= k < |items| :: items[k] == rest[k - Distinct(items)];
    if Listed(named) == Listed(items) {
      assert |Listed(rest)| == 0;
    }
  }

  /** A strictly increasing list is requested register for register. */
  lemma {:induction false} IncreasingIsDistinct(items: seq<ItemFormat>)
    requires Increasing(items)
    ensures Sorted(items) && Distinct(items) == |items|
  {
    if |items| > 1 {
      var rest := items[1..];
      assert forall a | 0 <= a < |rest| :: rest[a] == items[a + 1];
      IncreasingIsDistinct(rest);
    }
  }

  /** A sorted list with a register repeated loses what comes after it. */
  lemma RepeatedRegisterLosesRest()
    ensures var items := [ItemFormat(1, Int8), ItemFormat(1, Int8), ItemFormat(2, Int8)];
      Acceptable(items) && Decode({Read}, Request(First(items), Resolutions(items))) != Listed(items)
  {
    var items := [ItemFormat(1, Int8), ItemFormat(1, Int8), ItemFormat(2, Int8)];
    assert items[Distinct(items)].resolution != Ignore;
    RequestExact(items);
  }

  // ------------------------------------------------------------- the size of the reply

  /** The registers from `i` on that are asked for. */
  function Asked(res: seq<Resolution>, i: nat): (n: nat)
    requires i <= |res|
    ensures n <= |res| - i
    decreases |res| - i
  {
    if i == |res| then 0 else (if res[i] == Ignore then 0 else 1) + Asked(res, i + 1)
  }

  /**
   What one register may cost in a reply: its value, and a share of the header that depends on how
   large its number can be.
  */
  predicate Covers(cost: nat, start: nat, res: seq<Resolution>) {
    (cost == 6 && start + |res| <= 128) || (cost == 8 && start + |res| <= 2 * REGISTERS)
  }

  lemma HeaderCost(res: Resolution, count: nat, register: nat, cost: nat)
    requires res != Ignore && count >= 1
    requires (cost == 6 && register < 128) || (cost == 8 && register < 2 * REGISTERS)
    ensures |Header(Reply, res, count, register)| + 4 * count <= cost * count
  {
    hide Varuint;
    assert Pow128(1) == 128 && Pow128(2) == 0x4000 && Pow128(3) == 0x20_0000;
    VaruintLength(register, if cost == 6 then 1 else 3);
  }

  lemma BlockCost(start: nat, res: seq<Resolution>, i: nat, cost: nat)
    requires i < |res| && StartsBlock(res, i) && Covers(cost, start, res)
    ensures ReplyBytesAt(start, res, i) <= cost * Run(res, i)
  {
    hide Header, Run, HeaderAt, ReplyBytesAt;
    BlockStarts(Reply, start, res, i);
    HeaderCost(res[i], Run(res, i), start + i, cost);
    assert Run(res, i) * Width(res[i]) <= 4 * Run(res, i);
  }

  /** The rest of a run whose block has begun. */
  function Begun(res: seq<Resolution>, i: nat): nat
    requires i <= |res|
  {
    if i < |res| && res[i] != Ignore && !StartsBlock(res, i) then Run(res, i) else 0
  }

  /** A reply costs no more than so many bytes for each register asked for. */
  lemma {:induction false} ReplyCost(start: nat, res: seq<Resolution>, i: nat, cost: nat)
    requires i <= |res| && Covers(cost, start, res)
    ensures Begun(res, i) <= Asked(res, i)
    ensures ReplyBytes(start, res, i) <= cost * (Asked(res, i) - Begun(res, i))
    decreases |res| - i
  {
    hide ReplyBytesAt, Run;
    if i < |res| {
      ReplyCost(start, res, i + 1, cost);
      RunStep(res, i);
      if StartsBlock(res, i) {
        BlockCost(start, res, i, cost);
        var rest := Asked(res, i + 1) - Begun(res, i + 1);
        assert Asked(res, i) == Run(res, i) + rest;
        assert cost * Run(res, i) + cost * rest == cost * (Run(res, i) + rest);
      } else {
        NoBlockStarts(Reply, start, res, i);
      }
    }
  }

  lemma {:induction false} AskedIsItems(start: nat, res: seq<Resolution>, i: nat)
    requires i <= |res|
    ensures |Items(Read, start, res, NoValues(|res|), i)| == Asked(res, i)
    decreases |res| - i
  {
    if i < |res| {
      AskedIsItems(start, res, i + 1);
    }
  }

  lemma {:induction false} ListedLength(items: seq<ItemFormat>)
    ensures |Listed(items)| <= |items|
  {
    if items != [] {
      ListedLength(items[1..]);
    }
  }

  /** The dense array asks for exactly the named entries that are not ignored. */
  lemma ResolutionsName(items: seq<ItemFormat>)
    requires Acceptable(items)
    ensures Items(Read, First(items), Resolutions(items), NoValues(|Resolutions(items)|), 0) == Listed(Named(items))
  {
    hide Dense, Wanted, Distinct;
    if items != [] {
      NamedIncreases(items);
      assert Named(items)[0..] == Named(items);
      DenseItems(Named(items), items[0].register as int, Resolutions(items), 0, 0);
    }
  }

  /** The reply to a list of registers takes at most eight bytes for each. */
  lemma ListCost(items: seq<ItemFormat>)
    requires Acceptable(items)
    ensures ReplyBytes(First(items), Resolutions(items), 0) <= 8 * |items|
  {
    hide ReplyBytes, Resolutions, Listed, Items, Asked, First;
    var res := Resolutions(items);
    ReplyCost(First(items), res, 0, 8);
    AskedIsItems(First(items), res, 0);
    ResolutionsName(items);
    ListedLength(Named(items));
  }

  /**
   The size returned with a list's request is the length of the reply that carries the requested
   registers, whatever their values, if and only if the sum that `WriteList` reduces fits its byte.
  */
  lemma ListReplySizeExact(items: seq<ItemFormat>, values: seq<seq<byte>>)
    requires Acceptable(items) && Fitting(Reply, Resolutions(items), values)
    ensures var sum := ReplyBytes(First(items), Resolutions(items), 0);
      sum % 256 == |Encode(Reply, First(items), Resolutions(items), values, 0)| <==> sum < 256
  {
    hide ReplyBytes, Encode, Resolutions, First, Fitting;
    ReplyBytesIsLength(First(items), Resolutions(items), values, 0);
  }

  /** Sixty-four consecutive registers as floats. */
  function Floats(): (items: seq<ItemFormat>)
    ensures |items| == 64 && forall k | 0 <= k < 64 :: items[k] == ItemFormat(k, Float)
  {
    seq(64, k requires 0 <= k < 64 => ItemFormat(k, Float))
  }

  /** A list whose request takes three bytes and whose reply takes 259: the returned size is 3. */
  lemma ListReplySizeWraps()
    ensures Acceptable(Floats()) && End(Floats()) == 64
    ensures |Request(First(Floats()), Resolutions(Floats()))| == 3
    ensures ReplyBytes(First(Floats()), Resolutions(Floats()), 0) == 259
  {
    hide End, Request, ReplyBytes, Resolutions;
    NoEndMark(Floats());
    FloatsResolutions();
    OneBlock(Resolutions(Floats()));
  }

  lemma {:induction false} NoEndMark(items: seq<ItemFormat>)
    requires forall k | 0 <= k < |items| :: items[k].register != END
    ensures End(items) == |items|
  {
    if items != [] {
      NoEndMark(items[1..]);
    }
  }

  lemma FloatsResolutions()
    ensures Acceptable(Floats())
    ensures |Resolutions(Floats())| == 64 && forall i | 0 <= i < 64 :: Resolutions(Floats())[i] == Float
  {
    hide Wanted, Distinct;
    var items := Floats();
    IncreasingIsDistinct(items);
    assert Named(items) == items;
    assert Resolutions(items) == Dense(items, 0, 64);
    forall i | 0 <= i < 64
      ensures Wanted(items, i) == Float
    {
      WantedAt(items, i);
    }
  }

  /** In a run that has begun nothing more is framed. */
  lemma {:induction false} OneRun(start: nat, res: seq<Resolution>, i: nat)
    requires i <= |res| && forall k | 0 <= k < |res| :: res[k] == Float
    ensures i < |res| ==> Run(res, i) == |res| - i
    ensures i > 0 ==> Encode(Read, start, res, NoValues(|res|), i) == [] && ReplyBytes(start, res, i) == 0
    decreases |res| - i
  {
    hide Header, ReplyBytesAt, HeaderAt;
    if i < |res| {
      OneRun(start, res, i + 1);
      RequestStep(start, res, i);
      if i > 0 {
        NoBlockStarts(Read, start, res, i);
      }
    }
  }

  lemma OneBlock(res: seq<Resolution>)
    requires |res| == 64 && forall k | 0 <= k < |res| :: res[k] == Float
    ensures |Request(0, res)| == 3 && ReplyBytes(0, res, 0) == 259
  {
    hide Encode, ReplyBytes, ReplyBytesAt, HeaderAt, Run;
    OneRun(0, res, 0);
    OneRun(0, res, 1);
    RequestStep(0, res, 0);
    BlockStarts(Read, 0, res, 0);
    BlockStarts(Reply, 0, res, 0);
    assert Varuint(0) == [0];
  }
}
