# Verified model of the robot's motor-control stack

The robot talks to its motor controllers through the vendored moteus and pi3hat libraries under
`mjbots/`, and limits what it asks of them in `Math/` and `RobotFramework.cpp`. This project models
that stack in Dafny and proves what it promises:

- **Register codec** (`Bytes`, `Registers`, `Parser`, `Combiner`, `Framing`, `Doubles`, `Numbers`). Registers are
  grouped into run-length blocks, written as varuints and scaled numbers, and parsed back by a
  resumable parser. Everything written parses back to exactly the registers, resolutions and value
  bytes in order, whatever follows; no byte string that means the same is shorter; the parser is total
  and agrees with a recursive definition of the format on every byte string.
- **Queries and commands** (`Query`, `QueryFrame`, `QueryReply`, `ReplyRoundTrip`, `FieldNames`,
  `Commands`, `Padding`). A sparse register list is made dense and requests exactly the listed registers, a reply
  carries exactly what was asked in exactly the size foretold, and parsing it gives each field the
  reading of its value; a command frame, followed by its query and padded to a CAN-FD length, decodes
  to one write per field and one read per queried register, and each write gives back its field's value.
  Every register of a query, a reply and a command is also named by its number, with its type and field.
- **Serial adapter** (`Crc`, `LineBuffer`, `LineProtocol`, `LineRoundTrip`, `SerialCycle`). The table
  CRC is polynomial division; the fixed line buffer splits the stream at line ends however reads cut
  it; printed frames are understood again; batches of frames and their replies are accounted for, up to
  a line that makes the reader throw.
- **Diagnostic channel** (`DiagnosticFrames`, `Diagnostic`, `Flow`, `FlowCommand`). Replies are reassembled
  whatever their fragments; flow-controlled polling over a link that drops frames delivers a prefix of
  the device's stream, across the wrap of packet numbers, and a command polled that way returns what
  stands before the first OK line of that stream.
- **pi3hat** (`Worker`, `SendCan`, `AuxSpi`). The single-slot worker protocol under every interleaving,
  its progress while callers go on calling, the round-robin send order down to the wires, and the SPI pump
  that must not overflow its receive FIFO.
- **Motion safety** (`WheelMath`, `ControlLoop`). The velocity limiter and the main loop, over whole
  runs: wheel speeds stay within the kinematic bound of the limits for exactly the commands that give
  numbers, repeated time-outs stop the wheels, and a reply with a current over the limit would end the
  run with a stop.

Objects that the source updates in place are classes (`MultiplexParser`, `CanData`, `WriteCombiner`,
`Receiver`, `Tokenizer`, the serial and pi3hat transports, the diagnostic contexts, the SPI device, the
limiter, the robot). Their methods are proved against functions on values, and the main results are
lemmas about those functions. Concurrency (`Worker`) and the lossy link (`Flow`) are step systems; the
environment — read results, drops, time-outs, FIFO status, signals — is a parameter of every theorem.
Doubles are reals, the two infinities and NaN, without rounding or overflow.

## What the proofs found

- `reply_size_` is one byte. For `Query::Make` that is always enough: the reply takes at most 248
  bytes, so the returned size is its exact length (`QueryReply.ReturnedSizeExact`). The size returned by
  `GenericQuery::Make` is exact if and only if the sum it is reduced from is under 256
  (`Query.ListReplySizeExact`). 64 consecutive registers as floats are asked for in three bytes, answered
  in 259, and announced as 3 (`Query.ListReplySizeWraps`); no frame could hold such a reply.
- The dense filling of a register list stalls at a repeated register: nothing behind it is requested.
  The request is the listed registers if and only if everything from the first repetition on is
  ignored (`Query.RequestExact`); `Query.RepeatedRegisterLosesRest` gives an input.
- A count byte of 128 or more wraps through `int8_t`, but the parser still yields the full count
  (`Parser.MultiplexParser.Next`).
- A line of 4096 characters or more makes the receiver drop what it holds. The delivered lines are the
  lines of the stream if and only if every line is shorter (`LineBuffer.DeliversAllLines`); 4096
  characters and a line feed come out as an empty line (`LineBuffer.LongLineIsLost`).
- In checksum mode the comment says that lines without a valid checksum are discarded. That holds for
  a line if and only if its last `*` is not followed by two characters that are not both hex digits
  (`LineRoundTrip.RequiredChecksum`); `rcv 1 00 *zz` is taken for a frame
  (`LineRoundTrip.LineWithoutChecksumPasses`).
- A frame with an empty payload is printed but not understood (`LineRoundTrip.EmptyFrameIsDropped`).
- The two `RoundUpDlc` functions agree up to 64 and nowhere beyond (`Padding.RoundsUpToLeast`).
- The flow-controlled reader does not compare packet numbers: of copies of one answer within a read,
  with any other frames around them, all are taken (`Flow.CopiesAreTaken`). The packet is delivered
  once if and only if a single copy came in or it carries nothing (`Flow.TakenOnceExactly`). On a link
  that only drops there is never a second copy.
- A line whose address `std::stoul` rejects, such as `rcv g 00`, throws out of the whole cycle, and out of
  the child thread that runs it (mjbots/moteus/moteus_transport.h:902, 195-215): nothing more is sent and
  no completion is posted (`LineRoundTrip.FailureExactly`, `LineRoundTrip.BadAddressFails`,
  `SerialCycle.NoisyLineStops`). A cycle sends every frame if and only if no stale line throws and none
  that is heard before its last batch (`SerialCycle.EveryFrameSent`); up to there each frame goes out once,
  in order (`SerialCycle.EveryFrameOnce`).
- `SendCan` never sends packets for bus 0, and writes those for bus 5 only if `enable_aux` is set, which
  this repository leaves unset (mjbots/pi3hat/pi3hat.h:179). Everything is written if and only if no packet
  is for bus 0, and none for bus 5 without `enable_aux` (`SendCan.Sender.Send`, `SendCan.BusZeroIsLost`,
  `SendCan.BusFiveNeedsAux`). A whole cycle does not get that far with a packet
  for bus 0: `CalculateExpectedReply` has looked up `config_.can[bus - 1]` before, outside the array
  (mjbots/pi3hat/pi3hat.cc:1389-1392, called at 1704), so the buses are 1 to 5 by precondition there.
- `Wheel_math::calculate` compares doubles, and NaN is never over a limit. The wheel speeds are finite if and
  only if every component is, or safe mode finds one over its limit (`WheelMath.Limiter.Calculate`); capping
  an infinity multiplies it by 0 (`WheelMath.NotEverythingIsHarmless`). The velocity fields are not
  initialised before the first message sets them (Networks/decode.h). A motor is told a number unless
  it has a wheel and the last command, with no stop or silence since, gives none
  (`ControlLoop.OrderWithinBound`, `ControlLoop.RunIsSafe`).
- The overcurrent stop never applies in the shipped program. Its controllers ask the default query
  (Telemetry/Telemetry.cpp:12-23), which ignores `q_current` (mjbots/moteus/moteus_protocol.h:341): no reply
  to it gives the register (`ReplyRoundTrip.DefaultHasNoCurrent`, `ReplyRoundTrip.CurrentIsRead`), so the
  compared current stays NaN, and then the limit changes nothing (`ControlLoop.LimitDoesNotMatter`).
- An extra entry of a query that names a register with a field of its own overwrites that field, and
  never appears among the extra values (`ReplyRoundTrip.FieldComesBack`, `ReplyRoundTrip.ExtraHasNoField`).
- The reader of extra registers and the reader of named fields differ for the duty cycles of the PWM inputs
  and nothing else (`FieldNames.ReadersAgreeExactly`). The reader of extra registers reads what the position,
  stay-within, current and duty-cycle commands write with the types they write; of the voltage command it
  reads the rate, register 0x01e, as a whole number, because its table has no entry there
  (`FieldNames.VFocReadAsWritten`).
- `WriteInt` limits 8- and 16-bit numbers but not 32-bit ones: the least 32-bit number, and no other
  whole number, is read as no number (`Numbers.WholeReadBack`).

## Model

| member | source | states |
|---|---|---|
| Registers.DecodeEncode | mjbots/moteus/moteus_multiplex.h:606-661 | Round trip: for any start register, resolutions with ignores, fitting values and any tail, decoding the written blocks gives exactly the non-ignored (register, resolution, value) items in order, then what the tail means |
| Registers.FrameHasShortRuns | mjbots/moteus/moteus_multiplex.h:646-653 | An encoding under 256 bytes has no run whose count byte wraps, so the round trip covers every frame |
| Registers.VaruintRoundTrip | mjbots/moteus/moteus_multiplex.h:296-312 | Reading a written varuint before any tail gives the number and the tail |
| Registers.VaruintBytes | mjbots/moteus/moteus_multiplex.h:169-178 | Seven bits to a byte, lowest first, the high bit on all but the last, spelt out up to three bytes |
| Registers.VaruintLength | mjbots/moteus/moteus_multiplex.h:169-178 | A number below 128 to the n takes at most n bytes |
| Registers.ReadHeader | mjbots/moteus/moteus_multiplex.h:632-654 | Either form of a written header reads back as its kind, resolution, count and register |
| Registers.SingleHeaders | mjbots/moteus/moteus_multiplex.h:28-45 | The header bytes of a single register, as numbers, for every kind and resolution |
| Registers.HeaderCounts | mjbots/moteus/moteus_multiplex.h:645-653 | A run's count is added to the command byte up to three, and follows it beyond |
| Bytes.LowByteFirst | mjbots/moteus/moteus_multiplex.h:152-167 | One-, two- and four-byte numbers go out least significant byte first |
| Registers.TakeEncode | mjbots/moteus/moteus_multiplex.h:331-341 | From inside a run, taking the rest of the block and going on decodes to the remaining items |
| Parser.MultiplexParser.constructor | mjbots/moteus/moteus_multiplex.h:287-294 | A fresh parser has everything the format assigns to the bytes still to come |
| Parser.MultiplexParser.Next | mjbots/moteus/moteus_multiplex.h:325-398 | On every byte string: terminates, stays within the data, yields the first pending item with its value's bytes available, or nothing when nothing is pending; counts of 128 and more included |
| Parser.MultiplexParser.NextBlock | mjbots/moteus/moteus_multiplex.h:343-397 | Skips padding and empty blocks and opens the next block, or stops where the format does |
| Parser.MultiplexParser.OpenBlock | mjbots/moteus/moteus_multiplex.h:377-389 | Given any non-zero wrapped count, the block's first register is yielded with the true count modulo 256 remaining |
| Parser.MultiplexParser.ReadVaruint16 | mjbots/moteus/moteus_multiplex.h:296-312 | The 16-bit loop reads the varuint modulo 65536, of at most five bytes, and stops at the end of data |
| Parser.MultiplexParser.ReadValue | mjbots/moteus/moteus_multiplex.h:400-410 | Consumes exactly the resolution's width |
| Parser.TakeFrom | mjbots/moteus/moteus_multiplex.h:331-341 | A block yields its next register exactly while its value fits in what is left |
| Combiner.CanData.Append | mjbots/moteus/moteus_multiplex.h:152-167 | Appends the bytes to the frame and changes nothing before them |
| Combiner.CanData.AppendVaruint | mjbots/moteus/moteus_multiplex.h:169-178 | Appends the varuint of the number |
| Combiner.WriteCombiner.MaybeWrite | mjbots/moteus/moteus_multiplex.h:606-661 | Writes a header exactly where a run of equal resolutions starts, counted by looking ahead, tells whether a value follows, and adds the block's reply size modulo 256 |
| Combiner.WriteCombiner.CountAlike | mjbots/moteus/moteus_multiplex.h:625-630 | The look-ahead counts the whole run |
| Combiner.WriteCombiner.WriteHeader | mjbots/moteus/moteus_multiplex.h:632-654 | Shorthand up to three registers, long form beyond, then the register |
| Combiner.ReplyBytesIsLength | mjbots/moteus/moteus_multiplex.h:657-658 | The sizes added up are the length of the reply, whatever its values |
| Framing.EncodeIsShortest | mjbots/moteus/moteus_multiplex.h:583-661 | No byte string of any accepted kinds that decodes to the same items is shorter than the combiner's |
| Framing.DecodeNeedsBytes | mjbots/moteus/moteus_multiplex.h:583-584 | Every byte string is at least as long as the values it yields plus the headers of the longest possible blocks |
| Framing.JoinBlocks | mjbots/moteus/moteus_multiplex.h:583-584 | Splitting a block never saves header bytes |
| Framing.EncodeSize | mjbots/moteus/moteus_multiplex.h:645-658 | The combiner's encoding takes exactly those bytes |
| Framing.LeadingIsRun | mjbots/moteus/moteus_multiplex.h:625-630 | Its blocks are the maximal runs of consecutive registers of one resolution |
| Numbers.SaturateInRange | mjbots/moteus/moteus_multiplex.h:124-140 | Finite numbers stay within plus or minus the maximum; the reserved minimum appears if and only if the number is not finite |
| Numbers.FullScales | mjbots/moteus/moteus_multiplex.h:457-506 | The largest number that each of the twelve types carries in 8, 16 and 32 bits |
| Numbers.MaxFillsWidth | mjbots/moteus/moteus_multiplex.h:124-140 | The range of each integer width, less the reserved number, is all of its bytes |
| Numbers.SaturateMonotone | mjbots/moteus/moteus_multiplex.h:124-140 | A larger number is never encoded smaller |
| Numbers.SaturateError | mjbots/moteus/moteus_multiplex.h:131-139 | In range, the number read back is within one scale step, towards zero |
| Numbers.SaturateStable | mjbots/moteus/moteus_multiplex.h:131-139 | Encoding a decoded number again gives the same integer |
| Numbers.SaturateQuantises | mjbots/moteus/moteus_multiplex.h:124-140 | In range within a step, out of range the nearest end, for every number and scale |
| Numbers.MappedReadBack | mjbots/moteus/moteus_multiplex.h:457-506 | Writing with a type's scale and reading with it: not finite if and only if it was not finite, otherwise the quantised number, and writing that again gives the same bytes |
| Numbers.WholeReadBack | mjbots/moteus/moteus_multiplex.h:188-212 | A whole number, written as an integer of any width and read back, is itself limited to the range; only the least 32-bit number is read as no number |
| Query.CountItems | mjbots/moteus/moteus_protocol.h:443-451 | The list ends at the first entry with the reserved number |
| Query.FillDense | mjbots/moteus/moteus_protocol.h:471-481 | The in-place array holds, for every register of the span, the resolution the distinct leading entries give it, or ignore |
| Query.DenseItems | mjbots/moteus/moteus_protocol.h:471-481 | The dense array names exactly the non-ignored entries of an increasing list, in order |
| Query.WriteRequest | mjbots/moteus/moteus_protocol.h:482-488 | The frame grows by the request for the dense array, and the returned size is its reply's modulo 256 |
| Query.WriteList | mjbots/moteus/moteus_protocol.h:814-861 | The whole of the generic query: the frame grows by the request for the list up to its end mark |
| Query.RequestNames | mjbots/moteus/moteus_protocol.h:814-861 | For every sorted list spanning at most 512 registers, the request decodes to the entries before the first repeated register that are not ignored, and no others |
| Query.RequestExact | mjbots/moteus/moteus_protocol.h:842-852 | It decodes to exactly the listed registers if and only if all entries from the first repetition on are ignored |
| Query.IncreasingIsDistinct | mjbots/moteus/moteus_protocol.h:803-804 | A strictly increasing list has no repetition |
| Query.RepeatedRegisterLosesRest | mjbots/moteus/moteus_protocol.h:842-852 | A sorted list with a repeated register that is not requested in full |
| Query.ListReplySizeExact | mjbots/moteus/moteus_protocol.h:853-860 | The size returned with a list's request is the length of the reply that carries it, whatever the values, if and only if the sum is under 256 |
| Query.ListReplySizeWraps | mjbots/moteus/moteus_protocol.h:853-860 | 64 float registers: a request of 3 bytes, a reply of 259, and so a returned size of 3 |
| Query.ReplyCost | mjbots/moteus/moteus_multiplex.h:645-658 | A reply never takes more than six bytes for each register asked for below 128, or eight for any |
| Query.ListCost | mjbots/moteus/moteus_protocol.h:453-488 | The reply to a register list takes at most eight bytes for each entry, however sparse it is |
| QueryFrame.Make | mjbots/moteus/moteus_protocol.h:367-492 | Writes the four fixed blocks and the extra list, and returns the sum of their reply sizes modulo 256 |
| QueryFrame.QueryNames | mjbots/moteus/moteus_protocol.h:367-492 | The written query decodes to its twenty fields and extra entries that are not ignored, in order, and nothing else |
| FieldNames.FieldsAreAsked | mjbots/moteus/moteus_protocol.h:367-442 | By name: each of the twenty fields asks for its own register number, once, with its resolution, apart from what the extra entries ask |
| QueryFrame.Search | mjbots/moteus/moteus_protocol.h:759-777 | The table loop finds the first block of registers holding the number, or reads an integer |
| QueryFrame.ParseQuery | mjbots/moteus/moteus_protocol.h:506-612 | For every byte string: terminates without running past the end, and the result is that of noting each decoded register in turn; full extra list included |
| QueryFrame.ParseGenericQuery | mjbots/moteus/moteus_protocol.h:875-892 | For every byte string: the first 64 decoded registers with their readings, in order |
| FieldNames.FieldsAreRead | mjbots/moteus/moteus_protocol.h:512-597 | By number: each of the twenty field registers is read with its type, at every resolution |
| FieldNames.OthersAreExtra | mjbots/moteus/moteus_protocol.h:598-607 | Every other register becomes an extra entry |
| FieldNames.VoltageOfReply | mjbots/moteus/moteus_protocol.h:562-565 | The reply 21 0d 30 is a voltage of 24 |
| FieldNames.GenericTypes | mjbots/moteus/moteus_protocol.h:628-757 | How the reader of extra registers reads every register, type by type |
| FieldNames.ReadersAgreeExactly | mjbots/moteus/moteus_protocol.h:584-597 | The two readers agree on a field's type if and only if it is not a PWM input's duty cycle |
| QueryReply.ReturnedSizeExact | mjbots/moteus/moteus_protocol.h:367-492 | For every query the returned byte is the length of the reply that answers it, whatever the values: the sum is always under 256 |
| QueryReply.QueryCost | mjbots/moteus/moteus_protocol.h:367-492 | Twenty fields and sixteen extra entries never take more than 248 bytes |
| QueryReply.BlocksDecode | mjbots/moteus/moteus_multiplex.h:325-398 | The blocks of a reply decode one after the other to their items, and then to what follows |
| QueryReply.SizeIsLength | mjbots/moteus/moteus_protocol.h:388-488 | The sizes of the blocks add up to the length of the reply |
| QueryReply.ReplyAnswersQuery | mjbots/moteus/moteus_protocol.h:367-492 | The registers and resolutions that a reply decodes to are, in order, exactly those that the query decodes to |
| QueryReply.FieldIsLast | mjbots/moteus/moteus_protocol.h:512-609 | For any decoded registers, a named field holds the reading of the last item for its register, with its own scale |
| QueryReply.ExtraIsFirst | mjbots/moteus/moteus_protocol.h:598-607 | The extra entries are the first sixteen registers without a field, in order |
| ReplyRoundTrip.PaddedReplyDecodes | mjbots/moteus/moteus_transport.h:962-968 | A whole reply, padded to a frame length, decodes to the items of its blocks |
| ReplyRoundTrip.FieldComesBack | mjbots/moteus/moteus_protocol.h:506-612 | From query to result: a field asked for holds the reading of its value, unless an extra entry asks for its register, whose value's reading it then holds; a field not asked for is left alone |
| FieldNames.FieldsComeBack | mjbots/moteus/moteus_protocol.h:367-612 | By name: in the padded reply to any query each of the twenty fields that no extra entry overwrites is present exactly if asked for, and holds its own value read with its own type and resolution |
| ReplyRoundTrip.ExtraCarries | mjbots/moteus/moteus_protocol.h:471-481 | The extra block carries a register if and only if an entry before the first repetition asks for it |
| ReplyRoundTrip.ExtraHasNoField | mjbots/moteus/moteus_protocol.h:598-607 | Every extra value comes from a register without a field of its own |
| ReplyRoundTrip.CurrentIsRead | mjbots/moteus/moteus_protocol.h:534-536 | A reply gives a current if and only if the query asks for it, as a field or by an extra entry |
| ReplyRoundTrip.DefaultHasNoCurrent | mjbots/moteus/moteus_protocol.h:336-362 | The reply to the default query fits a frame and never gives a current, whatever its values |
| Commands.FieldWriter.Put | mjbots/moteus/moteus_protocol.h:956-1003 | One field written through the combiner keeps the frame on course to the whole command |
| Commands.FieldWriter.Done | mjbots/moteus/moteus_protocol.h:956-1003 | After the last field the frame is the whole command |
| Commands.ModeDecodes | mjbots/moteus/moteus_protocol.h:933-935 | The mode write decodes to one 8-bit write of register 0 |
| Commands.FieldsDecode | mjbots/moteus/moteus_protocol.h:930-1007 | The field blocks decode to one write per non-ignored field, each to its own register with its quantised value |
| Commands.CommandDecodes | mjbots/moteus/moteus_protocol.h:930-1007 | A whole command decodes to its mode and then its fields, whatever follows |
| Commands.CommandDelivers | mjbots/moteus/moteus_protocol.h:930-1007 | In a decoded command every field reaches its own register, once, with its resolution and its quantised or limited value, unless it is ignored |
| Commands.PositionReadsBack | mjbots/moteus/moteus_protocol.h:930-1007 | By number: after decoding, mode 10 comes first and each of the fourteen registers 0x020 to 0x02d holds its own named field with its type and resolution |
| Commands.MakePosition | mjbots/moteus/moteus_protocol.h:930-1007 | Writes exactly that command |
| Commands.VFocReadsBack | mjbots/moteus/moteus_protocol.h:1024-1069 | By number: mode 7, then 0x018, 0x019 and 0x01e hold angle, voltage and rate, the angles divided by pi; the four registers between are not written |
| Commands.MakeVFoc | mjbots/moteus/moteus_protocol.h:1024-1069 | Writes exactly that command |
| Commands.CurrentReadsBack | mjbots/moteus/moteus_protocol.h:1084-1113 | By number: mode 9, then q current in 0x01c and d current in 0x01d |
| Commands.MakeCurrent | mjbots/moteus/moteus_protocol.h:1084-1113 | Writes q and d current to their registers |
| Commands.StayWithinReadsBack | mjbots/moteus/moteus_protocol.h:1141-1196 | By number: mode 13, and each of the nine registers 0x040 to 0x048 holds its own named field with its type and resolution |
| Commands.MakeStayWithin | mjbots/moteus/moteus_protocol.h:1141-1196 | Writes exactly that command |
| Commands.AuxPwmReadsBack | mjbots/moteus/moteus_protocol.h:1544-1598 | Each of the ten registers from 0x076 holds its own duty cycle if that is finite; others are not written |
| Commands.MakeAuxPwm | mjbots/moteus/moteus_protocol.h:1544-1598 | Writes the ten duty cycles to their registers, without a mode |
| FieldNames.PositionReadAsWritten | mjbots/moteus/moteus_protocol.h:663-676 | The reader of extra registers reads each position register with the type it was written with |
| FieldNames.StayWithinReadAsWritten | mjbots/moteus/moteus_protocol.h:691-699 | And each stay-within register |
| FieldNames.OthersReadAsWritten | mjbots/moteus/moteus_protocol.h:660-730 | And the currents and duty cycles |
| FieldNames.VFocReadAsWritten | mjbots/moteus/moteus_protocol.h:655-660 | Of the voltage command the voltage; the angle is read in radians, the rate as a whole number |
| Padding.RoundsUpToLeast | mjbots/moteus/moteus_transport.h:304-314 | Up to 64 the rounded size is the least allowed length not below the size; the two versions agree if and only if the size is at most 64 |
| Padding.RoundUpIdempotentMonotone | mjbots/pi3hat/pi3hat.cc:51-69 | Rounding again changes nothing, and rounding keeps order |
| Padding.NopsDecode | mjbots/moteus/moteus_multiplex.h:346 | Padding bytes mean nothing |
| Padding.FrameDecodes | mjbots/moteus/moteus.h:1335-1359 | A command and its query, padded, decode to the mode, every field and every queried register |
| Padding.FillPacket | mjbots/pi3hat/pi3hat.cc:1309-1346 | The SPI packet is bus and length, the identifier in two or four bytes most significant first, the data and its padding, with the matching address |
| Padding.PacketBytes | mjbots/pi3hat/pi3hat.cc:1309-1346 | A packet read by its bytes: bus and padded length, the identifier as a number, the data, and 0x50 to the end |
| Padding.IdentifierBytes | mjbots/pi3hat/pi3hat.cc:1320-1336 | Two bytes for an identifier under 0x10000, four otherwise, most significant first |
| Padding.FillHeader | mjbots/pi3hat/pi3hat.cc:1318-1336 | The bytes before the data, in place |
| Crc.CrcIsRemainder | mjbots/moteus/moteus_transport.h:674-686 | The CRC is the remainder of the message times x to the 8 divided by 0x97, for every message |
| Crc.ComputeCrc8 | mjbots/moteus/moteus_transport.h:674-686 | The loop over the nibble table computes the bytewise shift register |
| Crc.TableEntry | mjbots/moteus/moteus_transport.h:675-678 | Each table entry is four shifts of its nibble |
| Crc.BitsBack | mjbots/moteus/moteus_transport.h:674-686 | A byte taken apart into bits and put together again is that byte |
| Crc.TwoNibbles | mjbots/moteus/moteus_transport.h:682-683 | Two table steps are eight shifts |
| Crc.CrcIsSteps | mjbots/moteus/moteus_transport.h:680-684 | Byte steps are eight bit steps each |
| Crc.StepsDivide | mjbots/moteus/moteus_transport.h:674-686 | The bit-serial register is long division |
| Crc.CrcLinear | mjbots/moteus/moteus_transport.h:674-686 | The CRC of an exclusive-or is the exclusive-or of the CRCs, for equal lengths |
| Crc.CrcOfChecked | mjbots/moteus/moteus_transport.h:674-686 | A message followed by its CRC has CRC 0 |
| Crc.BurstChangesCrc | mjbots/moteus/moteus_transport.h:674-686 | Any error confined to 8 consecutive bits, at any bit of any message, changes the CRC |
| LineBuffer.Receiver.ConsumeData | mjbots/moteus/moteus_transport.h:789-812 | After any read the lines delivered so far and the residue are those of the stream received so far; the residue is under 4096 and has no line end |
| LineBuffer.Receiver.ConsumeLine | mjbots/moteus/moteus_transport.h:824-842 | Takes the text before the first line end off the buffer by shifting it in place, or changes nothing |
| LineBuffer.CutsDoNotMatter | mjbots/moteus/moteus_transport.h:789-842 | However the stream is cut into reads, the lines and the residue are the same |
| LineBuffer.FeedConcat | mjbots/moteus/moteus_transport.h:789-842 | Two pieces fed one after the other are one piece |
| LineBuffer.OneCharacter | mjbots/moteus/moteus_transport.h:797-842 | One character: carriage return and line feed end the line, any other is kept, and the 4096th drops it |
| LineBuffer.DeliversAllLines | mjbots/moteus/moteus_transport.h:805-809 | The delivered lines are the stream split at every line end if and only if every line and the rest are under 4096 |
| LineBuffer.LongLineIsLost | mjbots/moteus/moteus_transport.h:805-809 | 4096 characters and a line feed: one line in the stream, delivered empty |
| LineProtocol.Tokenizer.Next | mjbots/moteus/moteus_tokenizer.h:31-47 | Yields the text up to the next delimiter and moves behind it |
| LineProtocol.TokenThenSpace | mjbots/moteus/moteus_tokenizer.h:31-47 | A word written before a space is read back, and the rest is left |
| LineProtocol.ParseCanData | mjbots/moteus/moteus_transport.h:1110-1116 | Each pair of hex digits is a byte, at most 64 of them; a digit without partner is not counted |
| LineProtocol.ProcessLine | mjbots/moteus/moteus_transport.h:844-932 | A line means what checksum stripping and its words say: acknowledgement, error, frame, nothing, or a failing number |
| LineProtocol.StripChecksum | mjbots/moteus/moteus_transport.h:850-874 | The line without its checksum, or nothing when it is to be discarded |
| LineProtocol.ReadFrame | mjbots/moteus/moteus_transport.h:896-919 | Address, payload and flags of a received frame |
| LineProtocol.ReadFlags | mjbots/moteus/moteus_transport.h:909-919 | The last flag of each kind wins; words of other lengths are skipped |
| LineRoundTrip.FrameBack | mjbots/moteus/moteus_transport.h:955-985 | Identifier, padded payload and flags printed for any frame with data, with or without checksum, are accepted and understood as that frame |
| LineRoundTrip.SentLineBack | mjbots/moteus/moteus_transport.h:955-985 | The line sent for any frame with data: without its newline and its checksum, which is there if and only if checksums are on, it is the two command words and then that frame, with bit-rate switching off if disabled |
| LineRoundTrip.SentLine | mjbots/moteus/moteus_transport.h:955-985 | Two such lines, character by character |
| LineRoundTrip.IdentifierParts | mjbots/moteus/moteus_transport.h:902-905 | An identifier composed of destination, source and prefix gives the three back |
| LineRoundTrip.OtherLines | mjbots/moteus/moteus_transport.h:876-890 | An acknowledgement, and errors with and without the word that turns checksums on |
| LineRoundTrip.EmptyFrameIsDropped | mjbots/moteus/moteus_transport.h:896-899 | The printed fields of a frame without data mean nothing to the reader |
| LineRoundTrip.StripBack | mjbots/moteus/moteus_transport.h:850-874 | A line with its checksum is stripped back to the line in either mode; without it, checksum mode discards it |
| LineRoundTrip.RequiredChecksum | mjbots/moteus/moteus_transport.h:869-873 | In checksum mode only lines with a valid checksum pass, for a line, if and only if its last star is not followed by two characters that are not both hex digits |
| LineRoundTrip.ValidIsStripped | mjbots/moteus/moteus_transport.h:852-868 | A line with a valid checksum always passes, without it and without trailing spaces |
| LineRoundTrip.LineWithoutChecksumPasses | mjbots/moteus/moteus_transport.h:856-873 | A line without a valid checksum that is taken for a frame in checksum mode |
| LineRoundTrip.BytesBack | mjbots/moteus/moteus_transport.h:963-968 | Printed bytes are read back |
| LineRoundTrip.AddressBack | mjbots/moteus/moteus_transport.h:902 | The printed identifier is read back |
| LineRoundTrip.FlagsBack | mjbots/moteus/moteus_transport.h:970-979 | The printed flags are read back |
| LineRoundTrip.WordsBack | mjbots/moteus/moteus_transport.h:896-919 | The printed words of any frame are understood as it, or dropped when it has no data |
| LineRoundTrip.FailureExactly | mjbots/moteus/moteus_transport.h:844-902 | A line throws if and only if, its checksum stripped, it is a `rcv` line with an address and data whose address is no number |
| LineRoundTrip.BadAddressFails | mjbots/moteus/moteus_transport.h:902 | `rcv g 00` throws |
| SerialCycle.EveryFrameOnce | mjbots/moteus/moteus_transport.h:344-366 | Whatever arrives, a cycle sends one line for each of the frames up to the end of the batch that hears a line that throws, or for all, in order, and checksums once begun go on |
| SerialCycle.EveryFrameSent | mjbots/moteus/moteus_transport.h:331-369 | A cycle sends every frame if and only if no stale line throws and none that is heard before the last batch |
| SerialCycle.FailsExactly | mjbots/moteus/moteus_transport.h:344-366 | The batches of a cycle throw if and only if one of them hears a line that throws before it stops waiting |
| SerialCycle.NoisyLineStops | mjbots/moteus/moteus_transport.h:344-366 | Two frames sent one by one: a line that throws after the first keeps the second from being sent |
| SerialCycle.Transport.Cycle | mjbots/moteus/moteus_transport.h:331-369 | For every non-zero pipeline depth: a stale line that throws fails the cycle with nothing written; otherwise what is written and collected is that of the batches in order, up to a line that throws, and the cycle fails if and only if there is one |
| SerialCycle.Transport.RunBatch | mjbots/moteus/moteus_transport.h:345-365 | The batch is written; it fails if and only if a line that throws is heard. Up to it every device's expected count is its requests less its replies, at least 0, the frames heard are collected, and an error about checksums turns them on |
| SerialCycle.Transport.CheckReplies | mjbots/moteus/moteus_transport.h:376-444 | Stops at the first poll that satisfies the batch, at a line that throws, or with the last poll before the time-out |
| SerialCycle.Transport.Note | mjbots/moteus/moteus_transport.h:876-931 | One line counts off its sender, never below 0, and a frame is appended |
| SerialCycle.WaitedIsFirst | mjbots/moteus/moteus_transport.h:432-437 | The wait ends early only at a line that throws, or when every count is 0 and acknowledgements reach the frames sent, and at the first such poll |
| SerialCycle.ArrivalOrder | mjbots/moteus/moteus_transport.h:921-927 | Whether a batch is satisfied does not depend on the order of arrival |
| SerialCycle.OneExchange | mjbots/moteus/moteus_transport.h:345-365 | A frame is done with if and only if it is acknowledged and, if it wants a reply, its destination has sent one |
| SerialCycle.FramesInAre | mjbots/moteus/moteus_transport.h:929-931 | Every frame that comes in is collected, in order |
| SerialCycle.Transport.Send | mjbots/moteus/moteus_transport.h:955-993 | The line follows everything sent before it; the transmit buffer is flushed when it would not fit and never overrun |
| SerialCycle.Transport.Flush | mjbots/moteus/moteus_transport.h:995-1007 | Everything sent is written, in order |
| SerialCycle.Transport.SendBatch | mjbots/moteus/moteus_transport.h:345-358 | Sends a line for each frame of the batch and counts each device's requests |
| SerialCycle.LineFits | mjbots/moteus/moteus_transport.h:956 | A printed line never exceeds 160 characters |
| DiagnosticFrames.AnswerBack | mjbots/moteus/moteus_protocol.h:1482-1499 | A flow or plain answer is parsed back, before any tail, and neither parser takes the other's |
| DiagnosticFrames.AnswerBytes | mjbots/moteus/moteus_protocol.h:1482-1499 | The bytes of both answers |
| DiagnosticFrames.PollBack | mjbots/moteus/moteus_protocol.h:1460-1466 | A device that reads a poll by its bytes gets its channel, packet number and limit |
| DiagnosticFrames.InputBack | mjbots/moteus/moteus_protocol.h:1393-1399 | A device that reads a write by its bytes gets its channel and data, whatever follows |
| DiagnosticFrames.ParseFlow | mjbots/moteus/moteus_protocol.h:1482-1499 | Command, channel, packet number and data of a flow answer, or none |
| DiagnosticFrames.ParsePlain | mjbots/moteus/moteus_protocol.h:1430-1448 | Command, channel and data of a plain answer, or none |
| Diagnostic.OkResult | mjbots/moteus/moteus.h:1217-1231 | The result is everything before the first line that is OK, and there is none before such a line is complete |
| Diagnostic.SingleLineResult | mjbots/moteus/moteus.h:1220-1223 | In single-line mode the result is the first line |
| Diagnostic.ShortReply | mjbots/moteus/moteus.h:1217-1231 | A short reply, byte by byte |
| Diagnostic.AcceptConcat | mjbots/moteus/moteus.h:1177-1234 | Reading two fragments is reading them joined |
| Diagnostic.FragmentsDoNotMatter | mjbots/moteus/moteus.h:1177-1234 | However far two runs read of the same stream, they return the same result |
| Diagnostic.CommandContext.DoWrite | mjbots/moteus/moteus.h:1107-1124 | Takes the next at most 48 bytes off the command and frames them so that the device reads them on channel 1 |
| Diagnostic.CommandContext.SendCommand | mjbots/moteus/moteus.h:1100-1124 | What a device reads from the frames sent is the whole command, line end included, in order, in chunks of at most 48 |
| Diagnostic.CommandContext.ProcessReplies | mjbots/moteus/moteus.h:1177-1234 | Output and current line are what the reader makes of all bytes received |
| Diagnostic.CommandContext.ReadReply | mjbots/moteus/moteus.h:1126-1234 | The result is the reader's for the data of the probe, if any, and of all reads so far, and it may come before the first read; a time-out means that at least the last five answers were empty, and reading goes on with fewer; if every read is answered, the reads are bounded by the bytes they bring |
| Diagnostic.EmptyTailMeans | mjbots/moteus/moteus.h:1205-1211 | The count of empty answers reaches a number if and only if that many of the last answers on the channel carry nothing |
| Flow.DeliversPrefix | mjbots/moteus/moteus.h:725-801 | Over any run against a device that resends what is not acknowledged, with any drops, the bytes delivered are a prefix of its stream and only grow; after every answer they reach up to the answered packet |
| Flow.StepKeepsInStep | mjbots/moteus/moteus.h:757-790 | Controller and device stay in step over an answered poll, a lost answer and a lost poll, the wrap from 255 to 0 included |
| Flow.Controller.ReadFlow | mjbots/moteus/moteus.h:738-790 | A device reads every poll of one read, retries included, as the channel, the last accepted number and a limit of 48; it stops at the first read with an answer or after the last retry |
| Flow.Controller.HandleReply | mjbots/moteus/moteus.h:757-781 | Takes every flow answer from the target, and leaves other channels' numbers alone |
| Flow.StrangersAreIgnored | mjbots/moteus/moteus.h:1060-1064 | A frame with another source, destination or prefix changes nothing |
| Flow.PolledIs | mjbots/moteus/moteus.h:741-752 | The frame sent in a state releases the next packet if and only if that state's number is the waiting packet's |
| Flow.CopiesAreTaken | mjbots/moteus/moteus.h:762-775 | When every frame from the target is a copy of one answer, the data is its packet once for each copy, whatever other frames come in between |
| Flow.TakenOnceExactly | mjbots/moteus/moteus.h:762-775 | That is the packet itself if and only if one copy came in or the packet is empty |
| Flow.RepeatedFrameTakenTwice | mjbots/moteus/moteus.h:762-775 | One frame seen twice is taken twice |
| Flow.ProbeStarts | mjbots/moteus/moteus.h:667-723 | After an answered probe flow control is on and controller and device are in step |
| Flow.ProbeIsPoll | mjbots/moteus/moteus.h:699-718 | Without plain answers the probe handles frames as a read does |
| FlowCommand.CommandResult | mjbots/moteus/moteus.h:1126-1234 | A command polled with flow control over a link that drops as it likes, from its probe or any later point on, hears the device's stream from where it began; its result is what stands before the first OK line of that stream, and until it has one no such line has come in |
| FlowCommand.LineResult | mjbots/moteus/moteus.h:1126-1234 | In single-line mode the result is the first line of that stream |
| FlowCommand.DeliveredIsHeard | mjbots/moteus/moteus.h:1177-1215 | What the command has heard is what the link has delivered since it began, and its next poll names the packet last accepted |
| FlowCommand.AnswerIsHeard | mjbots/moteus/moteus.h:1177-1215 | Wherever the device's answer stands among the replies, it is heard once |
| Worker.StepKeepsInv | mjbots/pi3hat/pi3hat_moteus_transport.h:89-164 | Every atomic step of callers and child keeps the accounting of cycles, replies and events |
| Worker.RunKeepsInv | mjbots/pi3hat/pi3hat_moteus_transport.h:89-164 | It holds over every interleaving |
| Worker.AsRequested | mjbots/pi3hat/pi3hat_moteus_transport.h:89-120 | Over every interleaving the accepted cycles are the requests, whole and in order, of the calls made while none was active, the posted events are all that were posted, and the cycle data is the last request accepted |
| Worker.CallbacksAndEventsInOrder | mjbots/pi3hat/pi3hat_moteus_transport.h:142-162 | Callbacks fire at most once, in order of acceptance, only after the replies are stored; events run at most once, in order of posting |
| Worker.ClearedBeforeCallback | mjbots/pi3hat/pi3hat_moteus_transport.h:145-150 | When a callback is about to be called its cycle's replies are stored and it is no longer the active one |
| Worker.CycleDataIsStable | mjbots/pi3hat/pi3hat_moteus_transport.h:103-117 | No step of anyone changes the cycle data while the child works on it |
| Worker.NothingForgotten | mjbots/pi3hat/pi3hat_moteus_transport.h:131-140 | When the child waits with nothing to do, every accepted cycle was called back and every event has run |
| Worker.EverythingCompletes | mjbots/pi3hat/pi3hat_moteus_transport.h:130-163 | Unless shut down, the child alone brings every accepted cycle and posted event to completion |
| Worker.CyclesAreServed | mjbots/pi3hat/pi3hat_moteus_transport.h:130-163 | Under every interleaving without a shutdown, nine moves of the child call back every cycle accepted before, however much is posted |
| Worker.EventsAreServed | mjbots/pi3hat/pi3hat_moteus_transport.h:130-163 | And eight for each event posted and not yet run are enough to run them, however many cycles are started |
| Worker.Transport.Cycle | mjbots/pi3hat/pi3hat_moteus_transport.h:96-120 | Rejected without effect while active; otherwise the cycle data is the request as handed in, and nothing else changes but that it is active and accepted |
| Worker.Transport.Post | mjbots/pi3hat/pi3hat_moteus_transport.h:89-94 | Appends the event and changes nothing else |
| Worker.Transport.ChildCycle | mjbots/pi3hat/pi3hat_moteus_transport.h:142-143 | Reads the cycle data and stores its replies |
| Worker.Transport.ChildFinish | mjbots/pi3hat/pi3hat_moteus_transport.h:145-149 | Clears the slot and takes out the callback |
| Worker.Transport.ChildPop | mjbots/pi3hat/pi3hat_moteus_transport.h:154-161 | Takes the oldest event, if any |
| SendCan.Sender.Send | mjbots/pi3hat/pi3hat.cc:1432-1464 | Terminates; packets are handed over in rounds of one from each of buses 1, 3, 5, 2, 4 that has one left; every bus from 1 to 5 hands over exactly its packets in input order; at every moment two buses that still have packets differ by at most one; what is written is that, without bus 5 unless `enable_aux`; everything is written if and only if no packet is for bus 0, and none for bus 5 without `enable_aux` |
| SendCan.Sender.SendCanPacket | mjbots/pi3hat/pi3hat.cc:1348-1373 | Writes the packet to the processor and bus that serve it, or not at all |
| SendCan.WiredForBus | mjbots/pi3hat/pi3hat.cc:1348-1373 | What reaches the wires of a bus is what was handed over for it, in order, if the bus is reached |
| SendCan.OwnWires | mjbots/pi3hat/pi3hat.cc:1348-1373 | No two buses share port, chip select and bus bit |
| SendCan.WiresByNumber | mjbots/pi3hat/pi3hat.cc:1348-1373 | Buses 1 to 4 go two by two to the two chips of the auxiliary port, bus 5 to the primary port |
| SendCan.BusFiveNeedsAux | mjbots/pi3hat/pi3hat.cc:1366-1371 | A single packet for bus 5 is written if and only if `enable_aux` is set |
| SendCan.BusZeroIsLost | mjbots/pi3hat/pi3hat.cc:1450-1451 | A single packet for bus 0 is not sent |
| SendCan.Sender.SendRound | mjbots/pi3hat/pi3hat.cc:1444-1462 | One turn through the buses sends the next packet of each that has one left |
| SendCan.Sender.SortByBus | mjbots/pi3hat/pi3hat.cc:1436-1443 | The indices of each bus's packets in input order |
| SendCan.ProgressIsFair | mjbots/pi3hat/pi3hat.cc:1446-1461 | Whole rounds and part of the next leave no two busy buses more than one apart |
| SendCan.NextTurn | mjbots/pi3hat/pi3hat.cc:1450-1459 | The bus whose turn it is sends its next packet or has none |
| SendCan.SameOnEveryBus | mjbots/pi3hat/pi3hat.cc:1441-1443 | The same packets on every bus are the same packets in all |
| AuxSpi.ReadBytes | mjbots/pi3hat/pi3hat.cc:724-767 | For every schedule of the hardware: at most 3 entries and 9 bytes outstanding, the stored bytes are the line's in order and nothing else is written, and the read completes within as many working passes as there are entries |
| AuxSpi.RequestNext | mjbots/pi3hat/pi3hat.cc:729-748 | The outstanding bytes are those of whole entries unless everything has been requested; one more entry never exceeds the bound |
| AuxSpi.TakeWord | mjbots/pi3hat/pi3hat.cc:751-766 | The next word is stored with the width it was requested with |
| AuxSpi.UnpackPack | mjbots/pi3hat/pi3hat.cc:755-764 | A word taken with its own width gives back its bytes in order |
| AuxSpi.FirstByteHighest | mjbots/pi3hat/pi3hat.cc:755-764 | The line's first byte is the most significant of its word |
| AuxSpi.TakeKeeps | mjbots/pi3hat/pi3hat.cc:751-766 | The oldest entry is as wide as the reader expects, and the rest stay the next entries of the transfer |
| AuxSpi.StoreWord | mjbots/pi3hat/pi3hat.cc:755-764 | The bytes land at the output pointer, highest first |
| WheelMath.Limiter.Calculate | Math/wheel_math.cpp:28-90 | For all doubles the speeds are finite if and only if every component is, or safe mode finds one over its limit; then they are the kinematics of one velocity: as wanted or standstill in safe mode, scaled by the largest common factor that meets all limits in capped mode, as wanted otherwise |
| WheelMath.ModesByNumber | Math/wheel_math.cpp:33-66 | Mode 0 follows or stops, mode 1 scales, any other follows |
| WheelMath.DoubleSpeedIs | Math/wheel_math.cpp:68-86 | One component that is not finite reaches every wheel, and otherwise the speed is that of the kinematics |
| WheelMath.NotEverythingIsHarmless | Math/wheel_math.cpp:33-66 | NaN passes safe mode, an infinity passes capped mode as NaN, and safe mode stops at an infinity even beside a NaN |
| WheelMath.LeastIsLargest | Math/wheel_math.cpp:49-66 | The least factor an axis allows is the largest in [0, 1] that brings all three within limits |
| WheelMath.FactorIsUnique | Math/wheel_math.cpp:49-66 | There is only one such factor |
| WheelMath.WheelSpeedBound | Math/wheel_math.cpp:68-86 | Within the limits no wheel turns faster than its kinematic bound |
| WheelMath.SpeedByAxis | Math/wheel_math.cpp:68-86 | Along one axis a wheel of radius 0.0335 rolls with its share of the speed, and speeds along the axes add up |
| WheelMath.WheelBoundIsReached | Math/wheel_math.cpp:68-86 | Some velocity within the limits reaches the bound |
| WheelMath.SpeedsWithinBounds | Math/wheel_math.cpp:68-86 | All four wheels stay within their bounds |
| ControlLoop.RunIsSafe | RobotFramework.cpp:257-382 | Over every run, with any doubles commanded: every motor is told a number if and only if it has no wheel or the last command, unsilenced, was one that gives numbers; in safe and capped modes that number is within the bounds; after three or more silent polls every motor is told to stand still until the next message |
| ControlLoop.MotorsFollow | RobotFramework.cpp:257-382 | Over every run: while the last command gives numbers, with no stop and fewer than three time-outs since, every motor is told the speed of its own wheel, all for the one velocity that the mode makes of the command; a motor without a wheel stands still |
| ControlLoop.StillAtFirst | RobotFramework.cpp:257-382 | Before any command every motor is told to stand still |
| ControlLoop.OrderWithinBound | RobotFramework.cpp:304-311 | Whatever was polled, a motor is told a number unless it has a wheel and the last command, unsilenced, gives none; in safe and capped modes that number is within its bound |
| ControlLoop.DecidedStep | RobotFramework.cpp:276-314 | The velocity map stays decided by the polls alone |
| ControlLoop.SilenceAtLeast | RobotFramework.cpp:277-284 | The time-outs counted reach a number if and only if that many of the last polls timed out |
| ControlLoop.LastCommandIs | RobotFramework.cpp:304-312 | The command in force is that of the last poll that brought one |
| ControlLoop.PollKeeps | RobotFramework.cpp:273-316 | A poll keeps everything that holds between passes |
| ControlLoop.OrderKeeps | RobotFramework.cpp:341-382 | So does a motor tick or a stop |
| ControlLoop.Robot.Receive | RobotFramework.cpp:276-315 | Time-out, stop and command each change the map as the polls decide; a stop message stops the motors and ends the program |
| ControlLoop.Robot.MotorTick | RobotFramework.cpp:341-371 | Every motor is told its entry or zero, and any reply whose current, as a double, is over the limit raises the emergency stop |
| ControlLoop.LimitDoesNotMatter | RobotFramework.cpp:364-368 | Over every schedule whose replies carry no current, a run is the same for every current limit, and only a signal or a stop message ends it |
| ControlLoop.Robot.RunPass | RobotFramework.cpp:257-435 | One pass does what its due timers say |
| ControlLoop.OnePass | RobotFramework.cpp:257-382 | One pass spelt out: the message before the motors, nothing after a stop message, nothing at all after a signal, and a stop of all motors after these or a current over the limit |
| ControlLoop.ScriptConcat | RobotFramework.cpp:257-441 | Passes follow one another until one gives a reason to stop |
| ControlLoop.Robot.Run | RobotFramework.cpp:257-441 | The loop does what the schedule says up to the first reason to stop; it ends if and only if there is one, its last act is then to stop all motors, and it does so at no other time |

## Left out

- Floating-point rounding and overflow and the bytes of 4-byte floats: finite numbers are reals, and float bytes are an uninterpreted function of the number.
- File descriptors, `poll`, clocks, sleeps and system errors: a poll's outcome, a read's size and a time-out are parameters; how long a wait lasts is not modelled.
- Frames that do not fit in 64 bytes: the source aborts, and the model requires that they fit.
- QueryFrame.ParseQuery: `ReadInt` converts a reading to `int`, and `mode`, `home_state`, `fault`, `trajectory_complete` and the gpio fields narrow it further. The model keeps the reading: whole numbers convert unchanged where they fit, and what a conversion of no number or of a float gives is up to the platform.
- QueryFrame.ParseGenericQuery: the same conversion of registers that the table does not know.
- QueryReply.FieldIsLast: the same conversion of integer fields.
- ReplyRoundTrip.FieldComesBack: the same conversion of integer fields.
- Query.WriteList: lists that are not sorted, or span more than 512 registers (where the source aborts), are excluded by its precondition.
- SerialCycle.Transport.Cycle: lines arrive already understood; cutting and parsing them are the subject of LineBuffer and LineProtocol.
- The retry loop of the UART mode (mjbots/moteus/moteus_transport.h:1009-1053), a bounded loop around the same send and wait.
- Diagnostic.CommandContext.ReadReply: answers arrive as parsed responses; FlowCommand says which ones a flow-controlled link gives.
- Diagnostic.CommandContext.ReadReply: the bound on reads needs an answer to each read, because a read without any answer on the channel does not advance the count of empty replies.
- Flow.DeliversPrefix: the device is the peer the protocol describes, which resends its unacknowledged packet, over a link that drops but does not duplicate or delay; the firmware is not part of this repository.
- Worker: the exception thrown for a second `Cycle` is a rejected call, and the cycle on the hardware is two steps, taking its data and storing its replies.
- AuxSpi.ReadBytes: the hardware is two FIFOs and a shift that the schedule drives; hold times and register set-up are not modelled.
- WheelMath.Limiter.Calculate: the limits are required not to be negative; sines, cosines and distances are arbitrary constants.
- ControlLoop.Robot.Run: the schedule says which timers are due; camera, telemetry sender, Arduino and logging do not affect motion, and a message other than the two words is any velocity command.
- `MakeFrame`'s copying and the controller's many `Make`, `Set` and `Async` wrappers, which only forward.
- Transport factories, device detection, argument parsing and schema checks.
- RF, IMU, telemetry parsing, ball detection, UDP, configuration files and shell scripts.
