/**
 The pi3hat's send order (`SendCan`): packets are sorted by bus, then sent one from each
 bus in turn until all are gone.
*/
module SendCan {

  datatype Packet = Packet(bus: nat, content: int)

  const BUSES: nat := 6   // bus 0 is not used

  const TURN: seq<nat> := [1, 3, 5, 2, 4]

  /** The packets for one bus, in input order. */
  function ForBus(packets: seq<Packet>, bus: nat): seq<Packet> {
    if packets == [] then []
    else
      ForBus(packets[..|packets| - 1], bus)
      + if packets[|packets| - 1].bus == bus then [packets[|packets| - 1]] else []
  }

  /** The indices of the packets for one bus. */
  function Indices(packets: seq<Packet>, bus: nat, n: nat): (r: seq<nat>)
    requires n <= |packets|
    ensures forall k | 0 <= k < |r| :: r[k] < n && packets[r[k]].bus == bus
  {
    if n == 0 then [] else Indices(packets, bus, n - 1) + if packets[n - 1].bus == bus then [n - 1] else []
  }

  lemma {:induction false} IndicesAreForBus(packets: seq<Packet>, bus: nat, n: nat)
    requires n <= |packets|
    ensures |Indices(packets, bus, n)| == |ForBus(packets[..n], bus)|
    ensures forall k | 0 <= k < |Indices(packets, bus, n)| ::
      packets[Indices(packets, bus, n)[k]] == ForBus(packets[..n], bus)[k]
  {
    if n > 0 {
      IndicesAreForBus(packets, bus, n - 1);
      assert packets[..n][..n - 1] == packets[..n - 1];
    }
  }

  /** At every moment, two buses that still have packets are at most one packet apart. */
  ghost predicate Fair(packets: seq<Packet>, sent: seq<Packet>) {
    forall a, b | 1 <= a < BUSES && 1 <= b < BUSES ::
      |ForBus(sent, a)| < |ForBus(packets, a)| && |ForBus(sent, b)| < |ForBus(packets, b)| ==>
      |ForBus(sent, a)| <= |ForBus(sent, b)| + 1
  }

  ghost predicate AlwaysFair(packets: seq<Packet>, sent: seq<Packet>) {
    forall n | 0 <= n <= |sent| :: Fair(packets, sent[..n])
  }

  /** What one bus sends in a round. */
  function Nth(packets: seq<Packet>, bus: nat, round: nat): seq<Packet> {
    if round < |ForBus(packets, bus)| then [ForBus(packets, bus)[round]] else []
  }

  /** What a round sends, in this order of the buses. */
  function RoundOf(packets: seq<Packet>, round: nat): seq<Packet> {
    Nth(packets, 1, round) + Nth(packets, 3, round) + Nth(packets, 5, round) + Nth(packets, 2, round)
    + Nth(packets, 4, round)
  }

  function Rounds(packets: seq<Packet>, n: nat): seq<Packet> {
    if n == 0 then [] else Rounds(packets, n - 1) + RoundOf(packets, n - 1)
  }

  /** The part of a round before the given position of the turn. */
  function Turns(packets: seq<Packet>, round: nat, turn: nat): seq<Packet>
    requires turn <= 5
  {
    if turn == 0 then [] else Turns(packets, round, turn - 1) + Nth(packets, TURN[turn - 1], round)
  }

  lemma TurnsAreRound(packets: seq<Packet>, round: nat)
    ensures Turns(packets, round, 5) == RoundOf(packets, round)
  {
    hide Nth, Turns;
    assert TURN[0] == 1 && TURN[1] == 3 && TURN[2] == 5 && TURN[3] == 2 && TURN[4] == 4;
    TurnStep(packets, round, 0);
    TurnStep(packets, round, 1);
    TurnStep(packets, round, 2);
    TurnStep(packets, round, 3);
    TurnStep(packets, round, 4);
  }

  lemma TurnStep(packets: seq<Packet>, round: nat, turn: nat)
    requires turn < 5
    ensures Turns(packets, round, 0) == []
    ensures Turns(packets, round, turn + 1) == Turns(packets, round, turn) + Nth(packets, TURN[turn], round)
  {
  }

  /** Once every bus has run out, further rounds send nothing. */
  lemma {:induction false} RoundsSettle(packets: seq<Packet>, n: nat, m: nat)
    requires n <= m && forall bus | 1 <= bus < BUSES :: |ForBus(packets, bus)| <= n
    ensures Rounds(packets, m) == Rounds(packets, n)
    decreases m
  {
    hide ForBus, RoundOf;
    if n < m {
      RoundsSettle(packets, n, m - 1);
      EmptyRound(packets, m - 1);
    }
  }

  lemma EmptyRound(packets: seq<Packet>, round: nat)
    requires forall bus | 1 <= bus < BUSES :: |ForBus(packets, bus)| <= round
    ensures RoundOf(packets, round) == []
  {
    hide ForBus;
    assert Nth(packets, 1, round) == Nth(packets, 2, round) == Nth(packets, 3, round) == [];
    assert Nth(packets, 4, round) == Nth(packets, 5, round) == [];
  }

  /** After `round` full rounds and part of the next: how many packets each bus has sent. */
  ghost predicate Progress(packets: seq<Packet>, sent: seq<Packet>, round: nat, turn: nat) {
    forall bus | 1 <= bus < BUSES ::
      var all, target := |ForBus(packets, bus)|, if HadTurn(bus, turn) then round + 1 else round;
      ForBus(sent, bus) == ForBus(packets, bus)[..if all <= target then all else target]
  }

  /** Whether a bus comes before the given position of the turn. */
  predicate HadTurn(bus: nat, turn: nat) {
    match bus
    case 1 => turn > 0
    case 3 => turn > 1
    case 5 => turn > 2
    case 2 => turn > 3
    case _ => turn > 4
  }

  lemma TurnTaken(turn: nat, bus: nat)
    requires turn < 5 && 1 <= bus < BUSES
    ensures 1 <= TURN[turn] < BUSES && !HadTurn(TURN[turn], turn)
    ensures HadTurn(bus, turn + 1) <==> HadTurn(bus, turn) || bus == TURN[turn]
  {
    assert TURN[0] == 1 && TURN[1] == 3 && TURN[2] == 5 && TURN[3] == 2 && TURN[4] == 4;
  }

  lemma NobodyYet()
    ensures forall bus | 1 <= bus < BUSES :: !HadTurn(bus, 0)
  {
  }

  lemma ForBusAppend(sent: seq<Packet>, p: Packet, bus: nat)
    ensures ForBus(sent + [p], bus) == ForBus(sent, bus) + if p.bus == bus then [p] else []
  {
    assert (sent + [p])[..|sent|] == sent;
  }

  lemma ProgressIsFair(packets: seq<Packet>, sent: seq<Packet>, round: nat, turn: nat)
    requires Progress(packets, sent, round, turn)
    ensures Fair(packets, sent)
  {
    hide HadTurn;
    forall a, b | 1 <= a < BUSES && 1 <= b < BUSES && |ForBus(sent, a)| < |ForBus(packets, a)|
      && |ForBus(sent, b)| < |ForBus(packets, b)|
      ensures |ForBus(sent, a)| <= |ForBus(sent, b)| + 1
    {
    }
  }

  /** The bus whose turn it is sends its next packet, if it has one left. */
  lemma NextTurn(packets: seq<Packet>, sent: seq<Packet>, round: nat, turn: nat)
    requires turn < 5 && Progress(packets, sent, round, turn)
    ensures var all := ForBus(packets, TURN[turn]);
      && |ForBus(sent, TURN[turn])| == (if |all| <= round then |all| else round)
      && (if |all| > round then Progress(packets, sent + [all[round]], round, turn + 1)
          else Progress(packets, sent, round, turn + 1))
  {
    hide HadTurn, ForBus;
    var bus := TURN[turn];
    TurnTaken(turn, 1);
    var all := ForBus(packets, bus);
    if |all| > round {
      OnItsBus(packets, bus, round);
      var sent' := sent + [all[round]];
      forall other | 1 <= other < BUSES
        ensures var length, target := |ForBus(packets, other)|, if HadTurn(other, turn + 1) then round + 1 else round;
          ForBus(sent', other) == ForBus(packets, other)[..if length <= target then length else target]
      {
        TurnTaken(turn, other);
        ForBusAppend(sent, all[round], other);
      }
    } else {
      forall other | 1 <= other < BUSES
        ensures HadTurn(other, turn + 1) <==> HadTurn(other, turn) || other == bus
      {
        TurnTaken(turn, other);
      }
    }
  }

  lemma {:induction false} OnItsBus(packets: seq<Packet>, bus: nat, k: nat)
    requires k < |ForBus(packets, bus)|
    ensures ForBus(packets, bus)[k].bus == bus
    decreases |packets|
  {
    if k < |ForBus(packets[..|packets| - 1], bus)| {
      OnItsBus(packets[..|packets| - 1], bus, k);
    }
  }

  lemma {:induction false} ForBusLength(packets: seq<Packet>, bus: nat)
    ensures |ForBus(packets, bus)| <= |packets|
    decreases |packets|
  {
    if packets != [] {
      ForBusLength(packets[..|packets| - 1], bus);
    }
  }

  lemma {:induction false} CountOnBus(packets: seq<Packet>, p: Packet)
    ensures multiset(packets)[p] == multiset(ForBus(packets, p.bus))[p]
    decreases |packets|
  {
    if packets != [] {
      var last := |packets| - 1;
      assert packets == packets[..last] + [packets[last]];
      CountOnBus(packets[..last], p);
    }
  }

  /** Bus by bus the same packets means the same packets. */
  lemma SameOnEveryBus(packets: seq<Packet>, sent: seq<Packet>)
    requires forall bus :: 0 <= bus < BUSES ==> ForBus(sent, bus) == ForBus(packets, bus)
    requires (forall p | p in packets :: p.bus < BUSES) && (forall p | p in sent :: p.bus < BUSES)
    ensures multiset(sent) == multiset(packets)
  {
    hide ForBus;
    forall p: Packet
      ensures multiset(sent)[p] == multiset(packets)[p]
    {
      CountOnBus(packets, p);
      CountOnBus(sent, p);
      if p.bus >= BUSES {
        assert p !in multiset(packets) && p !in multiset(sent);
      }
    }
  }

  // ------------------------------------------------------------- the wires

  datatype Port = Primary | Auxiliary

  /** A packet written to a processor: over which port, which chip select, and on which of its buses. */
  datatype Transfer = Transfer(port: Port, chip: nat, secondBus: bool, packet: Packet)

  /** Where a bus's packets are written, if anywhere: bus 5 needs the auxiliary processor's interface. */
  function TransferOf(packet: Packet, enableAux: bool): seq<Transfer> {
    match packet.bus
    case 1 => [Transfer(Auxiliary, 0, false, packet)]
    case 2 => [Transfer(Auxiliary, 0, true, packet)]
    case 3 => [Transfer(Auxiliary, 1, false, packet)]
    case 4 => [Transfer(Auxiliary, 1, true, packet)]
    case 5 => if enableAux then [Transfer(Primary, 0, false, packet)] else []
    case _ => []
  }

  function Wired(sent: seq<Packet>, enableAux: bool): seq<Transfer> {
    if sent == [] then [] else Wired(sent[..|sent| - 1], enableAux) + TransferOf(sent[|sent| - 1], enableAux)
  }

  function Carried(wire: seq<Transfer>): (packets: seq<Packet>)
    ensures |packets| == |wire| && forall k | 0 <= k < |wire| :: packets[k] == wire[k].packet
  {
    seq(|wire|, k requires 0 <= k < |wire| => wire[k].packet)
  }

  /** Whether a bus is one of those whose packets are written. */
  predicate Reaches(bus: nat, enableAux: bool) {
    1 <= bus < BUSES && (bus == 5 ==> enableAux)
  }

  lemma NothingWired(enableAux: bool)
    ensures Carried(Wired([], enableAux)) == [] && forall bus :: ForBus([], bus) == []
  {
  }

  lemma WiredAppend(sent: seq<Packet>, packet: Packet, enableAux: bool)
    ensures Wired(sent + [packet], enableAux) == Wired(sent, enableAux) + TransferOf(packet, enableAux)
  {
    assert (sent + [packet])[..|sent|] == sent;
  }

  lemma TransferIs(packet: Packet, enableAux: bool)
    ensures var wire := TransferOf(packet, enableAux);
      if Reaches(packet.bus, enableAux) then |wire| == 1 && wire[0].packet == packet else wire == []
  {
  }

  lemma CarriedAppend(wire: seq<Transfer>, transfer: Transfer)
    ensures Carried(wire + [transfer]) == Carried(wire) + [transfer.packet]
  {
  }

  /** What reaches the wires, bus by bus. */
  lemma {:induction false} WiredForBus(sent: seq<Packet>, enableAux: bool, bus: nat)
    ensures ForBus(Carried(Wired(sent, enableAux)), bus) == if Reaches(bus, enableAux) then ForBus(sent, bus) else []
    decreases |sent|
  {
    hide ForBus, Wired, TransferOf, Carried;
    NothingWired(enableAux);
    if sent != [] {
      var before, packet := sent[..|sent| - 1], sent[|sent| - 1];
      var wire, last := Wired(before, enableAux), TransferOf(packet, enableAux);
      WiredForBus(before, enableAux, bus);
      assert sent == before + [packet];
      WiredAppend(before, packet, enableAux);
      ForBusAppend(before, packet, bus);
      TransferIs(packet, enableAux);
      if Reaches(packet.bus, enableAux) {
        assert last == [last[0]];
        CarriedAppend(wire, last[0]);
        ForBusAppend(Carried(wire), packet, bus);
      } else {
        assert wire + last == wire;
      }
    }
  }

  lemma {:induction false} WiredReach(sent: seq<Packet>, enableAux: bool)
    ensures forall p | p in Carried(Wired(sent, enableAux)) :: Reaches(p.bus, enableAux)
    decreases |sent|
  {
    if sent != [] {
      var before, packet := sent[..|sent| - 1], sent[|sent| - 1];
      WiredReach(before, enableAux);
      assert Carried(Wired(sent, enableAux))
        == Carried(Wired(before, enableAux)) + Carried(TransferOf(packet, enableAux));
    }
  }

  /** Buses 1 to 4 are served two by two by the chips of the auxiliary port, bus 5 by the primary port. */
  lemma WiresByNumber(p: Packet)
    requires 1 <= p.bus <= 5
    ensures TransferOf(p, true) ==
      [if p.bus == 5 then Transfer(Primary, 0, false, p)
       else Transfer(Auxiliary, (p.bus - 1) / 2, (p.bus - 1) % 2 == 1, p)]
    ensures TransferOf(p, false) == if p.bus == 5 then [] else TransferOf(p, true)
  {
  }

  /** Each bus has wires of its own. */
  lemma OwnWires(p: Packet, q: Packet, enableAux: bool)
    requires Reaches(p.bus, enableAux) && Reaches(q.bus, enableAux)
    ensures |TransferOf(p, enableAux)| == |TransferOf(q, enableAux)| == 1
    ensures var a, b := TransferOf(p, enableAux)[0], TransferOf(q, enableAux)[0];
      a.port == b.port && a.chip == b.chip && a.secondBus == b.secondBus <==> p.bus == q.bus
  {
  }

  lemma {:induction false} NoneOnBus(packets: seq<Packet>, bus: nat)
    requires forall p | p in packets :: p.bus != bus
    ensures ForBus(packets, bus) == []
    decreases |packets|
  {
    if packets != [] {
      assert forall p | p in packets[..|packets| - 1] :: p in packets;
      NoneOnBus(packets[..|packets| - 1], bus);
    }
  }

  class Sender {
    const packets: seq<Packet>
    const enableAux: bool
    /** Handed to `SendCanPacket`, and written by it, in order. */
    var sent: seq<Packet>
    var wire: seq<Transfer>

    constructor (packets: seq<Packet>, enableAux: bool)
      ensures this.packets == packets && this.enableAux == enableAux && sent == [] && wire == []
    {
      this.packets, this.enableAux, sent, wire := packets, enableAux, [], [];
    }

    /** Writes a packet to the processor that serves its bus. */
    method SendCanPacket(packet: Packet)
      requires wire == Wired(sent, enableAux)
      modifies this
      ensures sent == old(sent) + [packet] && wire == Wired(sent, enableAux)
    {
      WiredAppend(sent, packet, enableAux);
      sent := sent + [packet];
      match packet.bus
      case 1 => wire := wire + [Transfer(Auxiliary, 0, false, packet)];
      case 2 => wire := wire + [Transfer(Auxiliary, 0, true, packet)];
      case 3 => wire := wire + [Transfer(Auxiliary, 1, false, packet)];
      case 4 => wire := wire + [Transfer(Auxiliary, 1, true, packet)];
      case 5 =>
        if enableAux {
          wire := wire + [Transfer(Primary, 0, false, packet)];
        }
      case _ =>
    }

    /** Sorts the packet indices by bus. */
    method SortByBus() returns (byBus: array<seq<nat>>)
      requires forall p | p in packets :: p.bus < BUSES
      ensures fresh(byBus) && byBus.Length == BUSES
      ensures forall bus | 0 <= bus < BUSES :: byBus[bus] == Indices(packets, bus, |packets|)
    {
      byBus := new seq<nat>[BUSES](_ => []);
      for i := 0 to |packets|
        invariant forall bus | 0 <= bus < BUSES :: byBus[bus] == Indices(packets, bus, i)
      {
        var bus := packets[i].bus;
        byBus[bus] := byBus[bus] + [i];
      }
    }

    /** One packet from each bus that has one left. */
    method SendRound(byBus: array<seq<nat>>, offset: array<nat>, ghost round: nat) returns (anySent: bool)
      requires byBus.Length == offset.Length == BUSES
      requires forall bus | 0 <= bus < BUSES :: byBus[bus] == Indices(packets, bus, |packets|)
      requires forall bus | 1 <= bus < BUSES :: offset[bus] == |ForBus(sent, bus)|
      requires Progress(packets, sent, round, 0) && AlwaysFair(packets, sent) && wire == Wired(sent, enableAux)
      modifies this, offset
      ensures wire == Wired(sent, enableAux)
      ensures forall bus | 1 <= bus < BUSES :: offset[bus] == |ForBus(sent, bus)|
      ensures Progress(packets, sent, round + 1, 0) && AlwaysFair(packets, sent)
      ensures sent == old(sent) + RoundOf(packets, round)
      ensures forall k | |old(sent)| <= k < |sent| :: 1 <= sent[k].bus < BUSES
      ensures anySent ==> round < |packets|
      ensures !anySent ==> forall bus | 1 <= bus < BUSES :: |ForBus(packets, bus)| <= round
    {
      hide ForBus, Indices, Fair, HadTurn, Wired, RoundOf, Turns;
      anySent := false;
      TurnStep(packets, round, 0);
      NobodyYet();
      TurnsAreRound(packets, round);
      for turn := 0 to 5
        invariant forall bus | 0 <= bus < BUSES :: byBus[bus] == Indices(packets, bus, |packets|)
        invariant forall bus | 1 <= bus < BUSES :: offset[bus] == |ForBus(sent, bus)|
        invariant Progress(packets, sent, round, turn) && AlwaysFair(packets, sent) && wire == Wired(sent, enableAux)
        invariant sent == old(sent) + Turns(packets, round, turn)
        invariant forall k | |old(sent)| <= k < |sent| :: 1 <= sent[k].bus < BUSES
        invariant anySent ==> round < |packets|
        invariant !anySent ==> forall bus | 1 <= bus < BUSES && HadTurn(bus, turn) :: |ForBus(packets, bus)| <= round
      {
        var bus := TURN[turn];
        TurnTaken(turn, 1);
        NextTurn(packets, sent, round, turn);
        TurnStep(packets, round, turn);
        IndicesAreForBus(packets, bus, |packets|);
        assert packets[..|packets|] == packets;
        forall other | 1 <= other < BUSES
          ensures HadTurn(other, turn + 1) <==> HadTurn(other, turn) || other == bus
        {
          TurnTaken(turn, other);
        }
        if offset[bus] >= |byBus[bus]| {
          continue;
        }
        ForBusLength(packets, bus);
        OnItsBus(packets, bus, round);
        var packet := packets[byBus[bus][offset[bus]]];
        offset[bus] := offset[bus] + 1;
        ghost var before := sent;
        SendCanPacket(packet);
        anySent := true;
        AfterSend(packets, before, packet, round, turn + 1);
        forall other | 1 <= other < BUSES
          ensures |ForBus(sent, other)| == |ForBus(before, other)| + if other == bus then 1 else 0
        {
          ForBusAppend(before, packet, other);
        }
      }
      RoundOver(packets, sent, round);
    }

    /**
     Every packet on buses 1 to 5 is handed over exactly once, in input order on its bus, and the buses
     take turns throughout. What is written is that, without bus 5 if its interface is off. Everything
     is written if and only if no packet is for bus 0, and none for bus 5 with the interface off.
    */
    method Send()
      requires sent == [] && wire == [] && forall p | p in packets :: p.bus < BUSES
      modifies this
      ensures forall bus | 0 <= bus < BUSES :: ForBus(sent, bus) == if bus == 0 then [] else ForBus(packets, bus)
      ensures forall k | 0 <= k < |sent| :: 1 <= sent[k].bus < BUSES
      ensures sent == Rounds(packets, |packets|)
      ensures AlwaysFair(packets, sent) && wire == Wired(sent, enableAux)
      ensures forall bus | 0 <= bus < BUSES ::
        ForBus(Carried(wire), bus) == if Reaches(bus, enableAux) then ForBus(packets, bus) else []
      ensures multiset(Carried(wire)) == multiset(packets) <==> forall p | p in packets :: Reaches(p.bus, enableAux)
    {
      hide ForBus, Indices, HadTurn, Wired, RoundOf;
      WiredNothing(enableAux);
      var byBus := SortByBus();
      var offset := new nat[BUSES](_ => 0);
      ghost var round := 0;
      NothingSent(packets);
      var anySent := true;
      while anySent
        invariant forall bus | 0 <= bus < BUSES :: byBus[bus] == Indices(packets, bus, |packets|)
        invariant forall bus | 1 <= bus < BUSES :: offset[bus] == |ForBus(sent, bus)|
        invariant Progress(packets, sent, round, 0) && AlwaysFair(packets, sent) && wire == Wired(sent, enableAux)
        invariant forall k | 0 <= k < |sent| :: 1 <= sent[k].bus < BUSES
        invariant sent == Rounds(packets, round)
        invariant round <= |packets| + 1 && (anySent ==> round <= |packets|)
        invariant !anySent ==> forall bus | 1 <= bus < BUSES :: |ForBus(packets, bus)| <= round
        decreases |packets| + 1 - round
      {
        anySent := SendRound(byBus, offset, round);
        round := round + 1;
      }
      BusesEnd(packets);
      if round <= |packets| {
        RoundsSettle(packets, round, |packets|);
      } else {
        RoundsSettle(packets, |packets|, round);
      }
      AllSent(packets, sent, round);
      AllWritten(packets, sent, enableAux);
    }
  }

  lemma BusesEnd(packets: seq<Packet>)
    ensures forall bus | 1 <= bus < BUSES :: |ForBus(packets, bus)| <= |packets|
  {
    forall bus | 1 <= bus < BUSES
      ensures |ForBus(packets, bus)| <= |packets|
    {
      ForBusLength(packets, bus);
    }
  }

  lemma WiredNothing(enableAux: bool)
    ensures Wired([], enableAux) == []
  {
  }

  lemma AllWritten(packets: seq<Packet>, sent: seq<Packet>, enableAux: bool)
    requires forall bus | 0 <= bus < BUSES :: ForBus(sent, bus) == if bus == 0 then [] else ForBus(packets, bus)
    requires forall p | p in packets :: p.bus < BUSES
    ensures var out := Carried(Wired(sent, enableAux));
      && (forall bus | 0 <= bus < BUSES ::
          ForBus(out, bus) == if Reaches(bus, enableAux) then ForBus(packets, bus) else [])
      && (multiset(out) == multiset(packets) <==> forall p | p in packets :: Reaches(p.bus, enableAux))
  {
    hide ForBus, Wired, Reaches;
    var out := Carried(Wired(sent, enableAux));
    BusZeroIsNot(enableAux);
    forall bus | 0 <= bus < BUSES
      ensures ForBus(out, bus) == if Reaches(bus, enableAux) then ForBus(packets, bus) else []
    {
      WiredForBus(sent, enableAux, bus);
    }
    WiredReach(sent, enableAux);
    if forall p | p in packets :: Reaches(p.bus, enableAux) {
      forall bus | 0 <= bus < BUSES
        ensures ForBus(out, bus) == ForBus(packets, bus)
      {
        if !Reaches(bus, enableAux) {
          NoneOnBus(packets, bus);
        }
      }
      SameOnEveryBus(packets, out);
    } else {
      var p :| p in packets && !Reaches(p.bus, enableAux);
      assert p in multiset(packets) && p !in multiset(out);
    }
  }

  lemma BusZeroIsNot(enableAux: bool)
    ensures !Reaches(0, enableAux) && forall bus: nat :: Reaches(bus, enableAux) ==> bus < BUSES
  {
  }

  /** Bus 5 with its interface off: the packet is handed over, and not written. */
  lemma BusFiveNeedsAux(content: int)
    ensures Wired([Packet(5, content)], false) == [] && |Wired([Packet(5, content)], true)| == 1
  {
    assert [Packet(5, content)][..0] == [];
  }

  lemma AfterSend(packets: seq<Packet>, before: seq<Packet>, packet: Packet, round: nat, turn: nat)
    requires AlwaysFair(packets, before) && Progress(packets, before + [packet], round, turn)
    ensures AlwaysFair(packets, before + [packet])
  {
    hide Fair;
    var sent := before + [packet];
    forall n | 0 <= n <= |sent|
      ensures Fair(packets, sent[..n])
    {
      if n <= |before| {
        assert sent[..n] == before[..n];
      } else {
        assert sent[..n] == sent;
        ProgressIsFair(packets, sent, round, turn);
      }
    }
  }

  lemma NothingSent(packets: seq<Packet>)
    ensures forall bus: nat :: ForBus([], bus) == []
    ensures Progress(packets, [], 0, 0) && AlwaysFair(packets, [])
  {
    var none: seq<Packet> := [];
    assert none[..0] == none;
    ProgressIsFair(packets, none, 0, 0);
  }

  /** What `Send` promises for a single packet on bus 0: it is not sent. */
  lemma BusZeroIsLost(content: int, sent: seq<Packet>)
    requires forall bus | 0 <= bus < BUSES ::
      ForBus(sent, bus) == if bus == 0 then [] else ForBus([Packet(0, content)], bus)
    requires forall k | 0 <= k < |sent| :: 1 <= sent[k].bus < BUSES
    ensures sent == [] && multiset(sent) != multiset([Packet(0, content)])
  {
    var packet := Packet(0, content);
    assert [packet][..0] == [];
    if sent != [] {
      var last := sent[|sent| - 1];
      assert ForBus(sent, last.bus) != [];
      assert ForBus([packet], last.bus) == [];
    }
    assert packet in multiset([packet]);
  }

  lemma RoundOver(packets: seq<Packet>, sent: seq<Packet>, round: nat)
    requires Progress(packets, sent, round, 5)
    ensures Progress(packets, sent, round + 1, 0)
    ensures forall bus | 1 <= bus < BUSES :: HadTurn(bus, 5)
  {
    hide ForBus;
  }

  lemma AllSent(packets: seq<Packet>, sent: seq<Packet>, round: nat)
    requires Progress(packets, sent, round, 0)
    requires forall bus | 1 <= bus < BUSES :: |ForBus(packets, bus)| <= round
    requires forall k | 0 <= k < |sent| :: 1 <= sent[k].bus < BUSES
    ensures forall bus | 0 <= bus < BUSES :: ForBus(sent, bus) == if bus == 0 then [] else ForBus(packets, bus)
  {
    hide ForBus, HadTurn;
    NoneOnBus(sent, 0);
  }
}
