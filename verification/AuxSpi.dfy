/**
 Reading from the auxiliary SPI port (`AuxSpi::Read`): dummy words are pushed into the
 transmit FIFO to clock bytes in, and the receive FIFO must never overflow. How fast the
 hardware shifts, and when it reports a full transmit FIFO, is up to a schedule.
*/
module AuxSpi {
  import opened Bytes

  /** Bytes in one FIFO entry. */
  const PACK := 3

  function Min(a: nat, b: nat): nat {
    if a <= b then a else b
  }

  /** The bytes the far end clocks out, from one position on. */
  function Slice(line: nat -> byte, from: nat, count: nat): (r: seq<byte>)
    ensures |r| == count
  {
    seq(count, i requires 0 <= i < count => line(from + i))
  }

  /** The received word: the bytes of one entry, last byte lowest. */
  function Pack(bytes: seq<byte>): nat
    decreases |bytes|
  {
    if bytes == [] then 0 else 256 * Pack(bytes[..|bytes| - 1]) + bytes[|bytes| - 1] as nat
  }

  /** One byte of a received word, counted from the lowest. */
  function ByteOf(value: nat, place: nat): byte {
    if place == 0 then (value % 256) as byte else ByteOf(value / 256, place - 1)
  }

  /** The bytes taken from a word that should hold `count` of them. */
  function Unpack(value: nat, count: nat): (r: seq<byte>)
    requires count <= PACK
    ensures |r| == count
  {
    match count
    case 0 => []
    case 1 => [ByteOf(value, 0)]
    case 2 => [ByteOf(value, 1), ByteOf(value, 0)]
    case _ => [ByteOf(value, 2), ByteOf(value, 1), ByteOf(value, 0)]
  }

  /** The line's first byte is the most significant. */
  lemma FirstByteHighest(a: byte, b: byte, c: byte)
    ensures Pack([a]) == a && Pack([a, b]) == 0x100 * a + b && Pack([a, b, c]) == 0x1_0000 * a + 0x100 * b + c
  {
    assert [a, b, c][..2] == [a, b] && [a, b][..1] == [a] && [a][..0] == [];
    assert Pack([]) == 0;
  }

  lemma PackStep(bytes: seq<byte>, last: byte)
    ensures Pack(bytes + [last]) / 256 == Pack(bytes) && Pack(bytes + [last]) % 256 == last as nat
  {
    assert (bytes + [last])[..|bytes|] == bytes;
  }

  /** A word read with the width it was requested with gives back its bytes. */
  lemma {:induction false} ByteBack(bytes: seq<byte>, place: nat)
    requires place < |bytes|
    ensures ByteOf(Pack(bytes), place) == bytes[|bytes| - 1 - place]
    decreases place
  {
    var last := |bytes| - 1;
    assert bytes == bytes[..last] + [bytes[last]];
    PackStep(bytes[..last], bytes[last]);
    if place > 0 {
      ByteBack(bytes[..last], place - 1);
    }
  }

  lemma UnpackPack(bytes: seq<byte>)
    requires |bytes| <= PACK
    ensures Unpack(Pack(bytes), |bytes|) == bytes
  {
    hide Pack, ByteOf;
    forall place: nat | place < |bytes|
      ensures ByteOf(Pack(bytes), place) == bytes[|bytes| - 1 - place]
    {
      ByteBack(bytes, place);
    }
  }

  /** The width of entry `i` of an `n` byte transfer: full entries, then what is left. */
  function WidthOf(n: nat, i: nat): nat {
    if PACK * i >= n then 0 else Min(n - PACK * i, PACK)
  }

  /** Entries in an `n` byte transfer. */
  function Entries(n: nat): nat {
    (n + PACK - 1) / PACK
  }

  /** What the hardware does during one pass: whether it says full, and how many entries it shifts. */
  datatype Sample = Sample(full: bool, shifted: nat)

  /** The passes in which the hardware shifted something if it had something to shift. */
  function Working(schedule: seq<Sample>): nat
    decreases |schedule|
  {
    if schedule == [] then 0
    else Working(schedule[..|schedule| - 1]) + if schedule[|schedule| - 1].shifted > 0 then 1 else 0
  }

  lemma WorkingStep(schedule: seq<Sample>, pass: nat)
    requires pass < |schedule|
    ensures Working(schedule[..pass + 1]) == Working(schedule[..pass]) + if schedule[pass].shifted > 0 then 1 else 0
  {
    assert schedule[..pass + 1][..pass] == schedule[..pass];
  }

  lemma NoneWorked(schedule: seq<Sample>)
    ensures Working(schedule[..0]) == 0
  {
  }

  lemma EntriesStep(n: nat)
    ensures if n == 0 then Entries(n) == 0 else Entries(n) == Entries(n - Min(n, PACK)) + 1
  {
  }

  datatype Received = Received(width: nat, value: nat)

  /**
   The FIFOs hold the next entries of an `n` byte transfer, those received filled from the line
   at `start`.
  */
  ghost predicate Queued(line: nat -> byte, tx: seq<nat>, rx: seq<Received>, n: nat, start: nat, clocked: nat) {
    && |rx| + |tx| <= Entries(n)
    && (forall i | 0 <= i < |rx| ::
        rx[i] == Received(WidthOf(n, i), Pack(Slice(line, start + PACK * i, WidthOf(n, i)))))
    && (forall j | 0 <= j < |tx| :: tx[j] == WidthOf(n, |rx| + j))
    && clocked == start + Min(PACK * |rx|, n)
  }

  lemma NothingQueued(line: nat -> byte, n: nat, start: nat)
    ensures Queued(line, [], [], n, start, start)
  {
  }

  lemma NothingLeft(line: nat -> byte, tx: seq<nat>, rx: seq<Received>, n: nat, start: nat, clocked: nat)
    requires Queued(line, tx, rx, n, start, clocked)
    ensures |rx| + |tx| <= Entries(n)
    ensures n == 0 ==> tx == [] && rx == [] && clocked == start
  {
    hide Pack, Slice, WidthOf;
  }

  lemma SliceSplit(line: nat -> byte, from: nat, first: nat, second: nat)
    ensures Slice(line, from, first + second) == Slice(line, from, first) + Slice(line, from + first, second)
  {
  }

  lemma RequestKeeps(line: nat -> byte, tx: seq<nat>, rx: seq<Received>, n: nat, start: nat, clocked: nat)
    requires Queued(line, tx, rx, n, start, clocked) && PACK * (|rx| + |tx|) < n
    ensures Queued(line, tx + [Min(n - PACK * (|rx| + |tx|), PACK)], rx, n, start, clocked)
  {
    hide Pack, Slice;
  }

  lemma ShiftKeeps(line: nat -> byte, tx: seq<nat>, rx: seq<Received>, n: nat, start: nat, clocked: nat)
    requires Queued(line, tx, rx, n, start, clocked) && tx != []
    ensures Queued(line, tx[1..], rx + [Received(tx[0], Pack(Slice(line, clocked, tx[0])))], n, start, clocked + tx[0])
  {
    hide Pack, Slice;
    assert PACK * |rx| < n;
  }

  lemma TakeKeeps(line: nat -> byte, tx: seq<nat>, rx: seq<Received>, n: nat, start: nat, clocked: nat)
    requires Queued(line, tx, rx, n, start, clocked) && rx != []
    ensures n > 0 && rx[0].value == Pack(Slice(line, start, Min(n, PACK)))
    ensures Queued(line, tx, rx[1..], n - Min(n, PACK), start + Min(n, PACK), clocked)
  {
    hide Pack, Slice;
    if n > PACK {
      forall i | 0 <= i < |rx| - 1
        ensures rx[1..][i] == Received(WidthOf(n - PACK, i),
                                       Pack(Slice(line, start + PACK + PACK * i, WidthOf(n - PACK, i))))
      {
        assert rx[1..][i] == rx[i + 1];
      }
    }
  }

  class Device {
    const line: nat -> byte
    /** Requested widths not yet shifted, and words received but not yet read. */
    var tx: seq<nat>
    var rx: seq<Received>
    /** Bytes clocked in so far. */
    var clocked: nat
    /** The most entries and bytes that were ever outstanding, both FIFOs together. */
    ghost var mostEntries: nat
    ghost var mostBytes: nat

    constructor (line: nat -> byte)
      ensures this.line == line && tx == [] && rx == [] && clocked == 0 && mostEntries == 0 && mostBytes == 0
    {
      this.line, tx, rx, clocked, mostEntries, mostBytes := line, [], [], 0, 0, 0;
    }

    /** `txhold` or `io` written: one more entry to shift, `outstanding` bytes in all. */
    method Request(width: nat, ghost outstanding: nat)
      modifies `tx, `mostEntries, `mostBytes
      ensures tx == old(tx) + [width]
      ensures mostEntries == if old(mostEntries) <= |rx| + |tx| then |rx| + |tx| else old(mostEntries)
      ensures mostBytes == if old(mostBytes) <= outstanding then outstanding else old(mostBytes)
    {
      tx := tx + [width];
      if mostEntries <= |rx| + |tx| {
        mostEntries := |rx| + |tx|;
      }
      if mostBytes <= outstanding {
        mostBytes := outstanding;
      }
    }

    /** Shifts up to `count` entries. */
    method Shift(count: nat, ghost n: nat, ghost start: nat)
      requires Queued(line, tx, rx, n, start, clocked)
      modifies `tx, `rx, `clocked
      ensures Queued(line, tx, rx, n, start, clocked)
      ensures |rx| + |tx| == old(|rx| + |tx|) && |tx| == if count <= old(|tx|) then old(|tx|) - count else 0
    {
      hide Queued, Pack, Slice;
      for i := 0 to count
        invariant Queued(line, tx, rx, n, start, clocked)
        invariant |rx| + |tx| == old(|rx| + |tx|) && |tx| == if i <= old(|tx|) then old(|tx|) - i else 0
      {
        if tx != [] {
          ShiftKeeps(line, tx, rx, n, start, clocked);
          rx, tx, clocked := rx + [Received(tx[0], Pack(Slice(line, clocked, tx[0])))], tx[1..], clocked + tx[0];
        }
      }
    }

    /** `io` read: the oldest word received. */
    method Take() returns (value: nat)
      requires rx != []
      modifies `rx
      ensures rx == old(rx)[1..] && value == old(rx)[0].value
    {
      value := rx[0].value;
      rx := rx[1..];
    }

    /** Discards what is in the receive FIFO. */
    method Drain()
      modifies `rx
      ensures rx == []
    {
      while rx != []
        decreases |rx|
      {
        rx := rx[1..];
      }
    }
  }

  /**
   Reads `size` bytes. At most three entries and nine bytes are ever outstanding; what has been
   stored is the line's bytes in order; and the read is complete once the hardware has been
   working in as many passes as there are entries.
  */
  method ReadBytes(device: Device, data: array<byte>, size: nat, schedule: seq<Sample>) returns (remainingRead: nat)
    requires size <= data.Length
    requires device.tx == [] && device.mostEntries == 0 && device.mostBytes == 0
    modifies device, data
    ensures device.mostEntries <= 3 && device.mostBytes <= 9
    ensures remainingRead <= size
    ensures data[..size - remainingRead] == Slice(device.line, old(device.clocked), size - remainingRead)
    ensures forall k | size - remainingRead <= k < data.Length :: data[k] == old(data[k])
    ensures Working(schedule) >= Entries(size) ==> remainingRead == 0
    ensures remainingRead == 0 ==> device.tx == [] && device.rx == [] && device.clocked == old(device.clocked) + size
  {
    hide Queued, Pack, Slice, Unpack, Working, Entries;
    device.Drain();
    ghost var base := device.clocked;
    NothingQueued(device.line, size, base);
    remainingRead := size;
    var remainingWrite := remainingRead;
    var pass := 0;
    NoneWorked(schedule);
    while remainingRead > 0 && pass < |schedule|
      invariant 0 <= pass <= |schedule| && remainingRead <= size
      invariant |device.rx| + |device.tx| <= 3
      invariant remainingWrite == remainingRead - Min(PACK * (|device.rx| + |device.tx|), remainingRead)
      invariant Queued(device.line, device.tx, device.rx, remainingRead, base + size - remainingRead, device.clocked)
      invariant device.mostEntries <= 3 && device.mostBytes <= 9
      invariant data[..size - remainingRead] == Slice(device.line, base, size - remainingRead)
      invariant forall k | size - remainingRead <= k < data.Length :: data[k] == old(data[k])
      invariant Entries(remainingRead) + Working(schedule[..pass]) <= Entries(size) || remainingRead == 0
      decreases |schedule| - pass
    {
      var sample := schedule[pass];
      ghost var start := base + size - remainingRead;
      WorkingStep(schedule, pass);
      EntriesStep(remainingRead);
      var txFull := sample.full && device.tx != [];
      remainingWrite := RequestNext(device, remainingRead, remainingWrite, txFull, start);
      device.Shift(sample.shifted, remainingRead, start);
      if device.rx != [] {
        remainingRead := TakeWord(device, data, size, remainingRead, base);
      }
      pass := pass + 1;
    }
    NothingLeft(device.line, device.tx, device.rx, remainingRead, base + size - remainingRead, device.clocked);
    assert schedule[..|schedule|] == schedule;
    EntriesStep(remainingRead);
  }

  /** Requests the next entry, unless that could overflow the receive FIFO. */
  method RequestNext(device: Device, remainingRead: nat, remainingWrite: nat, txFull: bool,
                     ghost start: nat) returns (left: nat)
    requires Queued(device.line, device.tx, device.rx, remainingRead, start, device.clocked)
    requires |device.rx| + |device.tx| <= 3
    requires remainingWrite == remainingRead - Min(PACK * (|device.rx| + |device.tx|), remainingRead)
    modifies device`tx, device`mostEntries, device`mostBytes
    ensures Queued(device.line, device.tx, device.rx, remainingRead, start, device.clocked)
    ensures |device.rx| + |device.tx| <= 3
    ensures left == remainingRead - Min(PACK * (|device.rx| + |device.tx|), remainingRead)
    ensures device.mostEntries <= 3 || device.mostEntries == old(device.mostEntries)
    ensures device.mostBytes <= 9 || device.mostBytes == old(device.mostBytes)
    ensures remainingRead > 0 && !txFull ==> |device.rx| + |device.tx| > 0
    ensures |device.tx| >= |old(device.tx)|
  {
    hide Queued, Pack, Slice;
    left := remainingWrite;
    var canWrite := remainingRead - remainingWrite < 3 * PACK;
    if canWrite && remainingWrite > 0 && !txFull {
      var toRead := Min(remainingWrite, PACK);
      RequestKeeps(device.line, device.tx, device.rx, remainingRead, start, device.clocked);
      left := remainingWrite - toRead;
      device.Request(toRead, remainingRead - left);
    }
  }

  /** Takes the next word received and stores its bytes. */
  method TakeWord(device: Device, data: array<byte>, size: nat, remaining: nat, ghost base: nat) returns (left: nat)
    requires remaining <= size <= data.Length && device.rx != []
    requires Queued(device.line, device.tx, device.rx, remaining, base + size - remaining, device.clocked)
    requires data[..size - remaining] == Slice(device.line, base, size - remaining)
    modifies device`rx, data
    ensures 0 < remaining && left == remaining - Min(remaining, PACK) && |device.rx| == |old(device.rx)| - 1
    ensures Queued(device.line, device.tx, device.rx, left, base + size - left, device.clocked)
    ensures data[..size - left] == Slice(device.line, base, size - left)
    ensures forall k | size - left <= k < data.Length :: data[k] == old(data[k])
  {
    hide Queued, Pack, Slice, Unpack;
    ghost var start := base + size - remaining;
    TakeKeeps(device.line, device.tx, device.rx, remaining, start, device.clocked);
    var value := device.Take();
    var byteCount := Min(remaining, PACK);
    UnpackPack(Slice(device.line, start, byteCount));
    SliceSplit(device.line, base, size - remaining, byteCount);
    StoreWord(data, size - remaining, value, byteCount);
    left := remaining - byteCount;
  }

  /** Stores the bytes of a word at the output pointer. */
  method StoreWord(data: array<byte>, at: nat, value: nat, count: nat)
    requires 1 <= count <= PACK && at + count <= data.Length
    modifies data
    ensures data[..at + count] == old(data[..at]) + Unpack(value, count)
    ensures forall k | at + count <= k < data.Length :: data[k] == old(data[k])
  {
    var out := at;
    if count == 3 {
      data[out] := ByteOf(value, 2);
      out := out + 1;
    }
    if count >= 2 {
      data[out] := ByteOf(value, 1);
      out := out + 1;
    }
    data[out] := ByteOf(value, 0);
  }
}
