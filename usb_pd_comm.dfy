/** The capability-update sequence of mainThread in usb_pd_comm.c: read the
    Sink Capabilities register of the TPS25730, set Variable PDO slot 0's
    maximum voltage to 9 V, write the block back, issue the GSrC 4CC command
    and read the register again.

    The I2C bus is an oracle (class Bus) that answers each transfer from a
    list of replies and logs it. The halt-forever branches become the
    terminal outcome Failed(step). The console output becomes the integer
    millivolt and milliamp values of the Done outcome. */
module UsbPdComm {
  import opened UsbPdo

  /** I2C address of the TPS25730. */
  const I2cTargetAddr: Byte := 0x20

  /** The 4CC command "GSrC": make the controller re-advertise its capabilities. */
  const GSrcCommand: FourCCCommand := FourCCCommand(FourCCReg, 4, [0x47, 0x53, 0x72, 0x43])

  /** The raw maximumVoltage stored in slot 0: 9 V at 50 mV per unit. */
  const NewMaximumVoltage: Word := 180

  // ------------------------------------------------------------------- bus

  /** One I2C_transfer as the bus sees it: target, bytes written, bytes to read. */
  datatype Transaction = Transaction(target: Byte, written: seq<Byte>, readCount: nat)

  /** The bus's answer to one transfer: failure, or success with the bytes read. */
  datatype Reply = Nack | Ack(data: seq<Byte>)

  /** A reply completes a transfer that reads n bytes when it succeeds with
      exactly n bytes; the controller clocks exactly readCount bytes, so any
      other reply is a failed transfer. */
  predicate Answered(r: Reply, n: nat) {
    r.Ack? && |r.data| == n
  }

  /** The reply to the j-th transfer from now; a bus with no reply left fails. */
  function ReplyAt(replies: seq<Reply>, j: nat): Reply {
    if j < |replies| then replies[j] else Nack
  }

  function Rest(replies: seq<Reply>): seq<Reply> {
    if replies == [] then [] else replies[1..]
  }

  /** After j transfers the bus answers with reply j. */
  lemma RepliesInOrder(replies: seq<Reply>)
    ensures ReplyAt(Rest(replies), 0) == ReplyAt(replies, 1)
    ensures ReplyAt(Rest(Rest(replies)), 0) == ReplyAt(replies, 2)
    ensures ReplyAt(Rest(Rest(Rest(replies))), 0) == ReplyAt(replies, 3)
  {
  }

  /** The blocking I2C_transfer collaborator, as an oracle with a log. */
  class Bus {
    var pending: seq<Reply>
    var log: seq<Transaction>

    constructor (replies: seq<Reply>)
      ensures pending == replies && log == []
    {
      pending := replies;
      log := [];
    }

    method Transfer(t: Transaction) returns (ok: bool, data: seq<Byte>)
      modifies this
      ensures log == old(log) + [t]
      ensures pending == Rest(old(pending))
      ensures ok == Answered(ReplyAt(old(pending), 0), t.readCount)
      ensures ok ==> data == ReplyAt(old(pending), 0).data && |data| == t.readCount
    {
      var r := ReplyAt(pending, 0);
      log := log + [t];
      pending := Rest(pending);
      ok := Answered(r, t.readCount);
      data := if ok then r.data else [];
    }
  }

  // ------------------------------------------------------ I2C_Transaction

  /** What `i2cTransaction.writeBuf` points at. */
  datatype WriteBuffer = AddrRegBuffer | SinkReadPacketBuffer | GSrcCommandBuffer

  /** The fields of the local I2C_Transaction record that mainThread sets.
      readBuf always points at sinkCapabilities, so it is left implicit. */
  datatype I2cTransaction = I2cTransaction(
    writeBuf: WriteBuffer,
    writeCount: nat,
    readCount: nat,
    targetAddress: Byte)

  /** The bytes the write buffer pointer designates at the time of a transfer. */
  function BufferBytes(b: WriteBuffer, addrReg: Byte, packet: seq<Byte>): seq<Byte> {
    match b
    case AddrRegBuffer => [addrReg]
    case SinkReadPacketBuffer => packet
    case GSrcCommandBuffer => SerialiseFourCC(GSrcCommand)
  }

  /** What the bus sees for a transfer of `txn`. */
  function Issued(txn: I2cTransaction, addrReg: Byte, packet: seq<Byte>): Transaction
    requires txn.writeCount <= |BufferBytes(txn.writeBuf, addrReg, packet)|
  {
    Transaction(txn.targetAddress, BufferBytes(txn.writeBuf, addrReg, packet)[..txn.writeCount], txn.readCount)
  }

  /** I2C_transfer(i2c, &i2cTransaction): write writeCount bytes of the write
      buffer, then read readCount bytes into sinkCapabilities. */
  method I2cTransfer(bus: Bus, txn: I2cTransaction, addrReg: Byte,
                     sinkCapabilities: array<Byte>, sinkReadPacket: array<Byte>) returns (ok: bool)
    requires txn.writeCount <= |BufferBytes(txn.writeBuf, addrReg, sinkReadPacket[..])|
    requires txn.readCount <= sinkCapabilities.Length
    modifies bus, sinkCapabilities
    ensures bus.log == old(bus.log) + [Issued(txn, addrReg, old(sinkReadPacket[..]))]
    ensures bus.pending == Rest(old(bus.pending))
    ensures ok == Answered(ReplyAt(old(bus.pending), 0), txn.readCount)
    ensures ok ==> sinkCapabilities[..] == ReplyAt(old(bus.pending), 0).data + old(sinkCapabilities[txn.readCount..])
    ensures !ok ==> sinkCapabilities[..] == old(sinkCapabilities[..])
  {
    var t := Issued(txn, addrReg, sinkReadPacket[..]);
    var data;
    ok, data := bus.Transfer(t);
    if ok {
      forall i | 0 <= i < txn.readCount {
        sinkCapabilities[i] := data[i];
      }
      assert sinkCapabilities[..] == data + old(sinkCapabilities[txn.readCount..]);
    }
  }

  // ------------------------------------------------------- in-place edit

  /** `sinkCapabilities.sinkPDOs[slot].bits.maximumVoltage = v` on the block's
      storage: a read-modify-write of the slot's little-endian word. */
  method AssignMaximumVoltageInPlace(caps: array<Byte>, slot: nat, v: Word)
    requires caps.Length == SinkCapabilitiesSize && slot < SinkPdoSlots
    modifies caps
    ensures caps[..] == AssignedMaximumVoltage(old(caps[..]), slot, v)
  {
    var off := SinkPdoOffset(slot);
    var w := WordFromBytes(caps[off .. off + 4]);
    SlotFieldEditBytes(caps[..], slot, VariableMaximumVoltage, v);
    StoreWord(caps, off, WordBytes(WithField(w, VariableMaximumVoltage, v)));
  }

  /** Stores four bytes at `off`, leaving the rest of the buffer alone. */
  method StoreWord(a: array<Byte>, off: nat, bytes: seq<Byte>)
    requires |bytes| == 4 && off + 4 <= a.Length
    modifies a
    ensures a[..] == old(a[..])[..off] + bytes + old(a[..])[off + 4..]
  {
    a[off], a[off + 1], a[off + 2], a[off + 3] := bytes[0], bytes[1], bytes[2], bytes[3];
    assert a[..] == old(a[..])[..off] + bytes + old(a[..])[off + 4..];
  }

  /** sinkReadPacket.writeAddr = SinkCapReg and the block copy into
      sinkReadPacket.sinkSourceCap. */
  method FrameWritePacket(packet: array<Byte>, caps: array<Byte>)
    requires packet.Length == WritePacketSize && caps.Length == SinkCapabilitiesSize
    modifies packet
    ensures packet[..] == [SinkCapReg] + caps[..]
  {
    packet[0] := SinkCapReg;
    forall i | 0 <= i < SinkCapabilitiesSize {
      packet[i + 1] := caps[i];
    }
    assert packet[..] == [SinkCapReg] + caps[..];
  }

  // ---------------------------------------------------------- the sequence

  datatype Step = ReadInitial | WriteCapabilities | WriteCommand | ReadVerify

  /** Slot 0 of a capabilities block in integer units, as mainThread reports it. */
  datatype Report = Report(minimumMillivolts: nat, maximumMillivolts: nat, currentMilliamps: nat)

  datatype Outcome = Failed(step: Step) | Done(before: Report, after: Report)

  function SlotReport(bs: seq<Byte>): Report
    requires |bs| == SinkCapabilitiesSize
  {
    var p := DecodeVariable(ParseCapabilities(bs).sinkPDOs[0]);
    Report(Millivolts(p.minimumVoltage), Millivolts(p.maximumVoltage), Milliamps(p.operationalCurrent))
  }

  /** The assignment of slot 0's maximumVoltage, the framing of the write
      packet and its transfer; the transaction record keeps its target. */
  method WriteBack(bus: Bus, txn: I2cTransaction, addrReg: Byte,
                   sinkCapabilities: array<Byte>, sinkReadPacket: array<Byte>)
      returns (ok: bool, txn': I2cTransaction)
    requires sinkCapabilities.Length == SinkCapabilitiesSize
    requires sinkReadPacket.Length == WritePacketSize
    requires sinkCapabilities != sinkReadPacket
    requires addrReg == SinkCapReg && txn.targetAddress == I2cTargetAddr
    modifies bus, sinkCapabilities, sinkReadPacket
    ensures sinkCapabilities[..] == AssignedMaximumVoltage(old(sinkCapabilities[..]), 0, NewMaximumVoltage)
    ensures sinkReadPacket[..] == [SinkCapReg] + sinkCapabilities[..]
    ensures txn' == txn.(writeCount := WritePacketSize, writeBuf := SinkReadPacketBuffer, readCount := 0)
    ensures bus.log == old(bus.log) + [Plan(old(sinkCapabilities[..]))[1]]
    ensures bus.pending == Rest(old(bus.pending))
    ensures ok == Answered(ReplyAt(old(bus.pending), 0), 0)
  {
    ghost var first := sinkCapabilities[..];
    AssignMaximumVoltageInPlace(sinkCapabilities, 0, NewMaximumVoltage);
    FrameWritePacket(sinkReadPacket, sinkCapabilities);
    WritePacketIsPlanned(first, sinkReadPacket[..]);
    txn' := txn.(writeCount := WritePacketSize, writeBuf := SinkReadPacketBuffer, readCount := 0);
    assert sinkReadPacket[..][..txn'.writeCount] == sinkReadPacket[..];
    ok := I2cTransfer(bus, txn', addrReg, sinkCapabilities, sinkReadPacket);
  }

  /** The GSrC 4CC command write; readCount and targetAddress are inherited
      from the write-back transfer. */
  method SendCommand(bus: Bus, txn: I2cTransaction, addrReg: Byte,
                     sinkCapabilities: array<Byte>, sinkReadPacket: array<Byte>)
      returns (ok: bool, txn': I2cTransaction)
    requires sinkCapabilities.Length == SinkCapabilitiesSize
    requires txn.readCount == 0 && txn.targetAddress == I2cTargetAddr
    modifies bus, sinkCapabilities
    ensures sinkCapabilities[..] == old(sinkCapabilities[..])
    ensures txn' == txn.(writeBuf := GSrcCommandBuffer, writeCount := FourCCCommandSize)
    ensures bus.log == old(bus.log) + [Transaction(I2cTargetAddr, SerialiseFourCC(GSrcCommand), 0)]
    ensures bus.pending == Rest(old(bus.pending))
    ensures ok == Answered(ReplyAt(old(bus.pending), 0), 0)
  {
    txn' := txn.(writeBuf := GSrcCommandBuffer, writeCount := FourCCCommandSize);
    assert SerialiseFourCC(GSrcCommand)[..FourCCCommandSize] == SerialiseFourCC(GSrcCommand);
    ok := I2cTransfer(bus, txn', addrReg, sinkCapabilities, sinkReadPacket);
  }

  /** The verification read of the Sink Capabilities register. */
  method ReadBack(bus: Bus, txn: I2cTransaction, addrReg: Byte,
                  sinkCapabilities: array<Byte>, sinkReadPacket: array<Byte>)
      returns (ok: bool, txn': I2cTransaction)
    requires sinkCapabilities.Length == SinkCapabilitiesSize
    requires addrReg == SinkCapReg
    modifies bus, sinkCapabilities
    ensures txn' == txn.(writeBuf := AddrRegBuffer, writeCount := 1, readCount := SinkCapabilitiesSize,
                         targetAddress := I2cTargetAddr)
    ensures bus.log == old(bus.log) + [CapabilitiesRead]
    ensures bus.pending == Rest(old(bus.pending))
    ensures ok == Answered(ReplyAt(old(bus.pending), 0), SinkCapabilitiesSize)
    ensures ok ==> sinkCapabilities[..] == ReplyAt(old(bus.pending), 0).data
  {
    txn' := txn.(writeBuf := AddrRegBuffer, writeCount := 1, readCount := SinkCapabilitiesSize,
                 targetAddress := I2cTargetAddr);
    assert Issued(txn', addrReg, sinkReadPacket[..]) == CapabilitiesRead;
    ok := I2cTransfer(bus, txn', addrReg, sinkCapabilities, sinkReadPacket);
    if ok {
      assert sinkCapabilities[..] == ReplyAt(old(bus.pending), 0).data + old(sinkCapabilities[SinkCapabilitiesSize..]);
    }
  }

  /** mainThread from the first register read to the verification read.
      The arrays are the static buffers sinkCapabilities and sinkReadPacket. */
  method MainThread(bus: Bus, sinkCapabilities: array<Byte>, sinkReadPacket: array<Byte>)
      returns (outcome: Outcome)
    requires sinkCapabilities != sinkReadPacket
    requires sinkCapabilities.Length == SinkCapabilitiesSize
    requires sinkReadPacket.Length == WritePacketSize
    modifies bus, sinkCapabilities, sinkReadPacket
    ensures outcome == Run(old(bus.pending)).outcome
    ensures bus.log == old(bus.log) + Run(old(bus.pending)).trace
    ensures outcome.Done? ==> sinkCapabilities[..] == ReplyAt(old(bus.pending), 3).data
  {
    ghost var replies := bus.pending;
    ghost var log0 := bus.log;

    // Reading the PDOs initially.
    var addrReg: Byte := SinkCapReg;
    var txn := I2cTransaction(AddrRegBuffer, 1, SinkCapabilitiesSize, I2cTargetAddr);
    assert Issued(txn, addrReg, sinkReadPacket[..]) == CapabilitiesRead;
    var ok := I2cTransfer(bus, txn, addrReg, sinkCapabilities, sinkReadPacket);
    if !ok {
      RunFailsAt(replies, 0);
      return Failed(ReadInitial);
    }
    assert sinkCapabilities[..] == ReplyAt(replies, 0).data;
    outcome := Reconfigure(bus, txn, addrReg, sinkCapabilities, sinkReadPacket, replies);
    RunStartsWithRead(replies);
    assert Run(replies).trace == [CapabilitiesRead] + Run(replies).trace[1..];
  }

  /** The rest of the cycle once the first read has returned reply 0: report
      slot 0, edit it, write it back, send GSrC and read the block again. */
  method Reconfigure(bus: Bus, txn: I2cTransaction, addrReg: Byte,
                     sinkCapabilities: array<Byte>, sinkReadPacket: array<Byte>,
                     ghost replies: seq<Reply>)
      returns (outcome: Outcome)
    requires sinkCapabilities != sinkReadPacket
    requires sinkCapabilities.Length == SinkCapabilitiesSize
    requires sinkReadPacket.Length == WritePacketSize
    requires addrReg == SinkCapReg
    requires txn == I2cTransaction(AddrRegBuffer, 1, SinkCapabilitiesSize, I2cTargetAddr)
    requires Answered(ReplyAt(replies, 0), SinkCapabilitiesSize)
    requires sinkCapabilities[..] == ReplyAt(replies, 0).data
    requires bus.pending == Rest(replies)
    modifies bus, sinkCapabilities, sinkReadPacket
    ensures outcome == Run(replies).outcome
    ensures bus.log == old(bus.log) + Run(replies).trace[1..]
    ensures outcome.Done? ==> sinkCapabilities[..] == ReplyAt(replies, 3).data
  {
    ghost var log0 := bus.log;
    ghost var first := sinkCapabilities[..];
    ghost var plan := Plan(first);
    RepliesInOrder(replies);
    var before := SlotReport(sinkCapabilities[..]);

    // Changing the maximum voltage to 9 V and writing the block back.
    var ok, txn := WriteBack(bus, txn, addrReg, sinkCapabilities, sinkReadPacket);
    assert bus.log == log0 + plan[1..2];
    if !ok {
      RunFailsAt(replies, 1);
      return Failed(WriteCapabilities);
    }

    // Issuing the 4CC command, then reading the PDOs back.
    ok, txn := SendCommand(bus, txn, addrReg, sinkCapabilities, sinkReadPacket);
    assert plan[1..2] + [plan[2]] == plan[1..3];
    if !ok {
      RunFailsAt(replies, 2);
      return Failed(WriteCommand);
    }
    ok, txn := ReadBack(bus, txn, addrReg, sinkCapabilities, sinkReadPacket);
    assert plan[1..3] + [plan[3]] == plan[1..];
    if !ok {
      RunFailsAt(replies, 3);
      return Failed(ReadVerify);
    }
    assert sinkCapabilities[..] == ReplyAt(replies, 3).data;
    RunCompletes(replies);
    var after := SlotReport(sinkCapabilities[..]);
    outcome := Done(before, after);
  }

  // ------------------------------------------------------- specification

  /** The register read of steps 1 and 6. */
  const CapabilitiesRead := Transaction(I2cTargetAddr, [SinkCapReg], SinkCapabilitiesSize)

  /** The block mainThread writes back, given the block it read. */
  function ModifiedBlock(first: seq<Byte>): SinkCapabilities
    requires |first| == SinkCapabilitiesSize
  {
    WithSinkPdoField(ParseCapabilities(first), 0, VariableMaximumVoltage, NewMaximumVoltage)
  }

  /** The four transactions of a complete cycle, given the block the first read returned. */
  function Plan(first: seq<Byte>): (plan: seq<Transaction>)
    requires |first| == SinkCapabilitiesSize
    ensures |plan| == 4
  {
    [ CapabilitiesRead,
      Transaction(I2cTargetAddr, SerialiseWritePacket(WritePacket(SinkCapReg, ModifiedBlock(first))), 0),
      Transaction(I2cTargetAddr, SerialiseFourCC(GSrcCommand), 0),
      CapabilitiesRead ]
  }

  /** The packet framed from the edited block is the one the plan writes. */
  lemma WritePacketIsPlanned(first: seq<Byte>, packet: seq<Byte>)
    requires |first| == SinkCapabilitiesSize
    requires packet == [SinkCapReg] + AssignedMaximumVoltage(first, 0, NewMaximumVoltage)
    ensures packet == Plan(first)[1].written
  {
  }

  function StepOf(k: nat): Step
    requires k < 4
  {
    [ReadInitial, WriteCapabilities, WriteCommand, ReadVerify][k]
  }

  /** How many bytes transfer k of a cycle reads. */
  function StepReadCount(k: nat): nat {
    if k == 0 || k == 3 then SinkCapabilitiesSize else 0
  }

  datatype Cycle = Cycle(outcome: Outcome, trace: seq<Transaction>)

  /** What a cycle against these replies does: the plan up to and including
      the first transfer that fails, or all of it. */
  function Run(replies: seq<Reply>): Cycle {
    if !Answered(ReplyAt(replies, 0), SinkCapabilitiesSize) then
      Cycle(Failed(ReadInitial), [CapabilitiesRead])
    else
      var first := ReplyAt(replies, 0).data;
      var plan := Plan(first);
      if !Answered(ReplyAt(replies, 1), 0) then Cycle(Failed(WriteCapabilities), plan[..2])
      else if !Answered(ReplyAt(replies, 2), 0) then Cycle(Failed(WriteCommand), plan[..3])
      else if !Answered(ReplyAt(replies, 3), SinkCapabilitiesSize) then Cycle(Failed(ReadVerify), plan)
      else Cycle(Done(SlotReport(first), SlotReport(ReplyAt(replies, 3).data)), plan)
  }

  /** Transfers 0..k-1 answered and transfer k not: the cycle stops with
      Failed at step k and issues nothing after transfer k. */
  lemma RunFailsAt(replies: seq<Reply>, k: nat)
    requires k < 4
    requires k > 0 ==> Answered(ReplyAt(replies, 0), StepReadCount(0))
    requires k > 1 ==> Answered(ReplyAt(replies, 1), StepReadCount(1))
    requires k > 2 ==> Answered(ReplyAt(replies, 2), StepReadCount(2))
    requires !Answered(ReplyAt(replies, k), StepReadCount(k))
    ensures Run(replies).outcome == Failed(StepOf(k))
    ensures |Run(replies).trace| == k + 1 && Run(replies).trace[0] == CapabilitiesRead
    ensures k > 0 ==> Run(replies).trace == Plan(ReplyAt(replies, 0).data)[..k + 1]
    ensures k > 0 ==> Run(replies).trace[1..] == Plan(ReplyAt(replies, 0).data)[1..k + 1]
  {
    if k > 0 {
      var plan := Plan(ReplyAt(replies, 0).data);
      assert forall j :: 0 <= j < 4 ==> plan[j].readCount == StepReadCount(j);
    }
  }

  /** Every cycle begins with the initial register read. */
  lemma RunStartsWithRead(replies: seq<Reply>)
    ensures |Run(replies).trace| >= 1 && Run(replies).trace[0] == CapabilitiesRead
  {
  }

  /** All four transfers answered: the cycle completes with all of the plan. */
  lemma RunCompletes(replies: seq<Reply>)
    requires Answered(ReplyAt(replies, 0), SinkCapabilitiesSize)
    requires Answered(ReplyAt(replies, 1), 0) && Answered(ReplyAt(replies, 2), 0)
    requires Answered(ReplyAt(replies, 3), SinkCapabilitiesSize)
    ensures Run(replies).trace == Plan(ReplyAt(replies, 0).data)
    ensures Run(replies).trace[1..] == Plan(ReplyAt(replies, 0).data)[1..]
    ensures Run(replies).outcome
         == Done(SlotReport(ReplyAt(replies, 0).data), SlotReport(ReplyAt(replies, 3).data))
  {
    var plan := Plan(ReplyAt(replies, 0).data);
    assert forall j :: 0 <= j < 4 ==> plan[j].readCount == StepReadCount(j);
  }

  // ------------------------------------------------------------ properties

  /** gSrcCommand goes on the wire as 08 04 47 53 72 43: the 4CC register,
      the byte count, then the ASCII code "GSrC". */
  lemma GSrcCommandBytes()
    ensures SerialiseFourCC(GSrcCommand) == [0x08, 0x04, 0x47, 0x53, 0x72, 0x43]
    ensures forall i :: 0 <= i < 4 ==> GSrcCommand.fourCCBytes[i] as int == "GSrC"[i] as int
  {
  }

  /** Raw 180 is 9 V at 50 mV per unit, and 9 V converts back to 180. */
  lemma NewMaximumIsNineVolts()
    ensures Millivolts(NewMaximumVoltage as bv10) == 9000
    ensures VoltageUnits(9000) == NewMaximumVoltage as int
  {
  }

  /** The four transactions of a complete cycle, all to target 0x20: read 54
      bytes after writing [0x33]; write the 55-byte packet whose first byte
      is 0x33 and whose payload is the edited block; write the six GSrC
      bytes; read 54 bytes after writing [0x33] again. */
  lemma PlanShape(first: seq<Byte>)
    requires |first| == SinkCapabilitiesSize
    ensures forall t :: t in Plan(first) ==> t.target == 0x20
    ensures Plan(first)[0] == Plan(first)[3] == Transaction(0x20, [0x33], 54)
    ensures Plan(first)[1].written == [0x33] + AssignedMaximumVoltage(first, 0, NewMaximumVoltage)
    ensures |Plan(first)[1].written| == 55 && Plan(first)[1].readCount == 0
    ensures Plan(first)[2].written == [0x08, 0x04, 0x47, 0x53, 0x72, 0x43] && Plan(first)[2].readCount == 0
  {
    var plan := Plan(first);
    assert forall t :: t in plan ==> t == plan[0] || t == plan[1] || t == plan[2] || t == plan[3];
    GSrcCommandBytes();
  }

  /** The payload written back is the block that was read with only bits
      20..29 of slot 0 replaced: every byte but the ninth and tenth of the
      block is copied, the low nibble of the ninth and the top two bits of
      the tenth are kept, and slot 0 decodes as before except that its
      maximum voltage is 9000 mV. */
  lemma WriteBackPayload(first: seq<Byte>)
    requires |first| == SinkCapabilitiesSize
    ensures forall i :: 0 <= i < SinkCapabilitiesSize && i != 8 && i != 9
              ==> Plan(first)[1].written[i + 1] == first[i]
    ensures Plan(first)[1].written[9] & 0x0F == first[8] & 0x0F
    ensures Plan(first)[1].written[10] & 0xC0 == first[9] & 0xC0
    ensures DecodeVariable(ParseCapabilities(Plan(first)[1].written[1..]).sinkPDOs[0])
         == DecodeVariable(ParseCapabilities(first).sinkPDOs[0]).(maximumVoltage := 180)
    ensures Millivolts(DecodeVariable(ParseCapabilities(Plan(first)[1].written[1..]).sinkPDOs[0]).maximumVoltage)
         == 9000
  {
    var payload := AssignedMaximumVoltage(first, 0, NewMaximumVoltage);
    PlanShape(first);
    assert Plan(first)[1].written[1..] == payload;
    MaximumVoltageEditIsolated(first, 0, NewMaximumVoltage);
    MaximumVoltageEditDecoded(first, 0, NewMaximumVoltage);
    forall i | 0 <= i < SinkCapabilitiesSize
      ensures Plan(first)[1].written[i + 1] == payload[i]
    {
    }
  }

  /** The cycle completes exactly when all four transfers are answered. */
  lemma DoneIffAllAnswered(replies: seq<Reply>)
    ensures Run(replies).outcome.Done?
        <==> (Answered(ReplyAt(replies, 0), 54) && Answered(ReplyAt(replies, 1), 0)
              && Answered(ReplyAt(replies, 2), 0) && Answered(ReplyAt(replies, 3), 54))
  {
  }

  /** Whatever the replies, the bus sees a non-empty prefix of the plan for
      the block the first read returned; all four transactions are issued
      exactly when the two writes are answered, so a completed cycle has
      issued the whole plan. */
  lemma TraceIsPlanPrefix(replies: seq<Reply>)
    requires Answered(ReplyAt(replies, 0), SinkCapabilitiesSize)
    ensures 1 <= |Run(replies).trace| && Run(replies).trace <= Plan(ReplyAt(replies, 0).data)
    ensures Run(replies).trace == Plan(ReplyAt(replies, 0).data)
        <==> (Answered(ReplyAt(replies, 1), 0) && Answered(ReplyAt(replies, 2), 0))
    ensures Run(replies).outcome.Done? ==> Run(replies).trace == Plan(ReplyAt(replies, 0).data)
  {
  }

  /** If the verification read returns the block that was written, the
      "after" report shows 9000 mV maximum and the "before" minimum voltage
      and current. */
  lemma EchoedBlockReportsNineVolts(replies: seq<Reply>)
    requires Answered(ReplyAt(replies, 0), SinkCapabilitiesSize)
    requires Answered(ReplyAt(replies, 1), 0) && Answered(ReplyAt(replies, 2), 0)
    requires ReplyAt(replies, 3) == Ack(Plan(ReplyAt(replies, 0).data)[1].written[1..])
    ensures Run(replies).outcome.Done?
    ensures Run(replies).outcome.after.maximumMillivolts == 9000
    ensures Run(replies).outcome.after.minimumMillivolts == Run(replies).outcome.before.minimumMillivolts
    ensures Run(replies).outcome.after.currentMilliamps == Run(replies).outcome.before.currentMilliamps
  {
    var first := ReplyAt(replies, 0).data;
    WriteBackPayload(first);
    RunCompletes(replies);
  }

  /** A controller that does not answer the first read: one transaction, then Failed. */
  lemma SilentControllerExample()
    ensures Run([]) == Cycle(Failed(ReadInitial), [Transaction(0x20, [0x33], 54)])
  {
  }

  /** A controller that rejects the 4CC command: three transactions and no
      verification read. */
  lemma RejectedCommandExample(block: seq<Byte>)
    requires |block| == SinkCapabilitiesSize
    ensures Run([Ack(block), Ack([]), Nack]).outcome == Failed(WriteCommand)
    ensures |Run([Ack(block), Ack([]), Nack]).trace| == 3
    ensures Run([Ack(block), Ack([]), Nack]).trace[2].written == [0x08, 0x04, 0x47, 0x53, 0x72, 0x43]
  {
    RunFailsAt([Ack(block), Ack([]), Nack], 2);
    PlanShape(block);
  }
}
