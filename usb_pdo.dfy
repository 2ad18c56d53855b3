/** The TPS25730 register layouts of usb_pdo.h: bit-packed Fixed and Variable
    Power Data Objects (the Sink Fixed Supply and Variable Supply PDOs of
    section 6.4.1 of the USB Power Delivery Specification), the 54-byte Sink
    Capabilities register block, the address-prefixed write packet, the 6-byte
    4CC command and the register addresses.

    A C bit-field union is modelled as a 32-bit word with shift/mask accessors;
    fields run least-significant bit first in declaration order, and words are
    stored little-endian, as on the Cortex-M0+ target. */
module UsbPdo {

  type Byte = bv8
  type Word = bv32

  // ------------------------------------------------------------ register map

  const SourceCapReg: Byte := 0x30
  const SinkCapReg: Byte := 0x33
  const FourCCReg: Byte := 0x08

  // ------------------------------------------------------------- bit fields

  /** An unsigned bit-field of a 32-bit word: `width` bits from bit `offset`.
      Offsets and widths are bit-vectors so that shifts by them stay in the
      bit-vector theory. */
  datatype BitField = BitField(offset: bv32, width: bv32)

  predicate InWord(f: BitField) {
    0 < f.width <= 32 && f.offset <= 32 && f.offset + f.width <= 32
  }

  /** The first bit above the field. */
  function End(f: BitField): bv32 {
    f.offset + f.width
  }

  /** The word whose low `width` bits are set. */
  function LowMask(width: bv32): Word
    requires width <= 32
  {
    ((1 as Word) << width) - 1
  }

  /** The bits of the word that belong to `f`. */
  function FieldMask(f: BitField): Word
    requires InWord(f)
  {
    LowMask(f.width) << f.offset
  }

  /** Reading `x.bits.f`: the field's bits, moved down to bit 0. */
  function FieldValue(w: Word, f: BitField): Word
    requires InWord(f)
  {
    (w >> f.offset) & LowMask(f.width)
  }

  /** Assigning `x.bits.f = v`: C converts `v` to the unsigned bit-field, so
      only its low `f.width` bits are stored, and nothing else in the word. */
  function WithField(w: Word, f: BitField, v: Word): Word
    requires InWord(f)
  {
    (w & !FieldMask(f)) | ((v & LowMask(f.width)) << f.offset)
  }

  // ---------------------------------------------------------------- layouts

  const VariableCurrent := BitField(0, 10)
  const VariableMinimumVoltage := BitField(10, 10)
  const VariableMaximumVoltage := BitField(20, 10)
  const VariableSupply := BitField(30, 2)
  const VariableLayout: seq<BitField> :=
    [VariableCurrent, VariableMinimumVoltage, VariableMaximumVoltage, VariableSupply]

  const FixedCurrent := BitField(0, 10)
  const FixedVoltage := BitField(10, 10)
  const FixedReserved1 := BitField(20, 5)
  const FixedDualRoleData := BitField(25, 1)
  const FixedReserved2 := BitField(26, 2)
  const FixedHigherCapability := BitField(28, 1)
  const FixedDualRolePower := BitField(29, 1)
  const FixedSupplyType := BitField(30, 2)
  const FixedLayout: seq<BitField> :=
    [FixedCurrent, FixedVoltage, FixedReserved1, FixedDualRoleData,
     FixedReserved2, FixedHigherCapability, FixedDualRolePower, FixedSupplyType]

  /** The fields sit end to end from bit 0, in declaration order, and fill the word. */
  predicate Tiles(layout: seq<BitField>) {
    && |layout| > 0
    && layout[0].offset == 0
    && (forall i :: 0 <= i < |layout| ==> InWord(layout[i]))
    && (forall i :: 0 < i < |layout| ==> layout[i].offset == End(layout[i - 1]))
    && End(layout[|layout| - 1]) == 32
  }

  lemma LayoutsTile()
    ensures Tiles(VariableLayout)
    ensures Tiles(FixedLayout)
  {
  }

  /** In a tiled layout an earlier field ends at or below where a later one
      starts, so no two fields share a bit. */
  lemma {:induction false} TiledFieldsOrdered(layout: seq<BitField>, i: nat, j: nat)
    requires Tiles(layout) && i < j < |layout|
    ensures End(layout[i]) <= layout[j].offset
  {
    if i + 1 < j {
      TiledFieldsOrdered(layout, i, j - 1);
    }
  }

  // ----------------------------------------------------------- Variable PDO

  datatype VariablePdo = VariablePdo(
    operationalCurrent: bv10,
    minimumVoltage: bv10,
    maximumVoltage: bv10,
    variableSupply: bv2)

  function DecodeVariable(w: Word): VariablePdo {
    VariablePdo(
      FieldValue(w, VariableCurrent) as bv10,
      FieldValue(w, VariableMinimumVoltage) as bv10,
      FieldValue(w, VariableMaximumVoltage) as bv10,
      FieldValue(w, VariableSupply) as bv2)
  }

  function EncodeVariable(p: VariablePdo): Word {
    var w0 := WithField(0, VariableCurrent, p.operationalCurrent as Word);
    var w1 := WithField(w0, VariableMinimumVoltage, p.minimumVoltage as Word);
    var w2 := WithField(w1, VariableMaximumVoltage, p.maximumVoltage as Word);
    WithField(w2, VariableSupply, p.variableSupply as Word)
  }

  /** The decoded fields are the shift/mask formulas of the 32-bit word. */
  lemma VariableDecodeFields(w: Word)
    ensures DecodeVariable(w).operationalCurrent as Word == w & 0x3FF
    ensures DecodeVariable(w).minimumVoltage as Word == (w >> 10) & 0x3FF
    ensures DecodeVariable(w).maximumVoltage as Word == (w >> 20) & 0x3FF
    ensures DecodeVariable(w).variableSupply as Word == w >> 30
  {
  }

  lemma VariableWordRoundTrip(w: Word)
    ensures EncodeVariable(DecodeVariable(w)) == w
  {
  }

  lemma VariableFieldsRoundTrip(p: VariablePdo)
    ensures DecodeVariable(EncodeVariable(p)) == p
  {
  }

  // Each field's law is a lemma of its own: the bit-vector reasoning for one
  // field is cheap, for all of them at once it is not.

  lemma AssignVariableCurrent(w: Word, v: Word)
    ensures DecodeVariable(WithField(w, VariableCurrent, v)) == DecodeVariable(w).(operationalCurrent := (v & 0x3FF) as bv10)
    ensures WithField(w, VariableCurrent, v) & !FieldMask(VariableCurrent) == w & !FieldMask(VariableCurrent)
  {
  }

  lemma AssignVariableMinimumVoltage(w: Word, v: Word)
    ensures DecodeVariable(WithField(w, VariableMinimumVoltage, v)) == DecodeVariable(w).(minimumVoltage := (v & 0x3FF) as bv10)
    ensures WithField(w, VariableMinimumVoltage, v) & !FieldMask(VariableMinimumVoltage) == w & !FieldMask(VariableMinimumVoltage)
  {
  }

  lemma AssignVariableMaximumVoltage(w: Word, v: Word)
    ensures DecodeVariable(WithField(w, VariableMaximumVoltage, v)) == DecodeVariable(w).(maximumVoltage := (v & 0x3FF) as bv10)
    ensures WithField(w, VariableMaximumVoltage, v) & !FieldMask(VariableMaximumVoltage) == w & !FieldMask(VariableMaximumVoltage)
  {
  }

  lemma AssignVariableSupply(w: Word, v: Word)
    ensures DecodeVariable(WithField(w, VariableSupply, v)) == DecodeVariable(w).(variableSupply := (v & 3) as bv2)
    ensures WithField(w, VariableSupply, v) & !FieldMask(VariableSupply) == w & !FieldMask(VariableSupply)
  {
  }

  /** Summary of the four per-field lemmas above: assigning any one field of
      a Variable PDO stores the low bits of the value in that field and
      leaves the other fields, and every bit outside the field, as they were. */
  lemma VariableAssignments(w: Word, v: Word)
    ensures DecodeVariable(WithField(w, VariableCurrent, v))
         == DecodeVariable(w).(operationalCurrent := (v & 0x3FF) as bv10)
    ensures DecodeVariable(WithField(w, VariableMinimumVoltage, v))
         == DecodeVariable(w).(minimumVoltage := (v & 0x3FF) as bv10)
    ensures DecodeVariable(WithField(w, VariableMaximumVoltage, v))
         == DecodeVariable(w).(maximumVoltage := (v & 0x3FF) as bv10)
    ensures DecodeVariable(WithField(w, VariableSupply, v))
         == DecodeVariable(w).(variableSupply := (v & 3) as bv2)
    ensures WithField(w, VariableCurrent, v) & !FieldMask(VariableCurrent) == w & !FieldMask(VariableCurrent)
    ensures WithField(w, VariableMinimumVoltage, v) & !FieldMask(VariableMinimumVoltage) == w & !FieldMask(VariableMinimumVoltage)
    ensures WithField(w, VariableMaximumVoltage, v) & !FieldMask(VariableMaximumVoltage) == w & !FieldMask(VariableMaximumVoltage)
    ensures WithField(w, VariableSupply, v) & !FieldMask(VariableSupply) == w & !FieldMask(VariableSupply)
  {
    AssignVariableCurrent(w, v);
    AssignVariableMinimumVoltage(w, v);
    AssignVariableMaximumVoltage(w, v);
    AssignVariableSupply(w, v);
  }

  /** Out-of-range values keep only their low ten bits: 1024 stores 0 and
      1203 stores 179 (8.95 V instead of 60.15 V). */
  lemma MaximumVoltageTruncates(w: Word)
    ensures DecodeVariable(WithField(w, VariableMaximumVoltage, 1024)).maximumVoltage == 0
    ensures DecodeVariable(WithField(w, VariableMaximumVoltage, 1203)).maximumVoltage == 179
  {
    AssignVariableMaximumVoltage(w, 1024);
    AssignVariableMaximumVoltage(w, 1203);
  }

  // -------------------------------------------------------------- Fixed PDO

  datatype FixedPdo = FixedPdo(
    operationalCurrent: bv10,
    operationalVoltage: bv10,
    reserved1: bv5,
    dualRoleData: bv1,
    reserved2: bv2,
    higherCapability: bv1,
    dualRolePower: bv1,
    supplyType: bv2)

  function DecodeFixed(w: Word): FixedPdo {
    FixedPdo(
      FieldValue(w, FixedCurrent) as bv10,
      FieldValue(w, FixedVoltage) as bv10,
      FieldValue(w, FixedReserved1) as bv5,
      FieldValue(w, FixedDualRoleData) as bv1,
      FieldValue(w, FixedReserved2) as bv2,
      FieldValue(w, FixedHigherCapability) as bv1,
      FieldValue(w, FixedDualRolePower) as bv1,
      FieldValue(w, FixedSupplyType) as bv2)
  }

  function EncodeFixed(p: FixedPdo): Word {
    var w0 := WithField(0, FixedCurrent, p.operationalCurrent as Word);
    var w1 := WithField(w0, FixedVoltage, p.operationalVoltage as Word);
    var w2 := WithField(w1, FixedReserved1, p.reserved1 as Word);
    var w3 := WithField(w2, FixedDualRoleData, p.dualRoleData as Word);
    var w4 := WithField(w3, FixedReserved2, p.reserved2 as Word);
    var w5 := WithField(w4, FixedHigherCapability, p.higherCapability as Word);
    var w6 := WithField(w5, FixedDualRolePower, p.dualRolePower as Word);
    WithField(w6, FixedSupplyType, p.supplyType as Word)
  }

  /** The decoded fields are the shift/mask formulas of the 32-bit word. */
  lemma FixedDecodeFields(w: Word)
    ensures DecodeFixed(w).operationalCurrent as Word == w & 0x3FF
    ensures DecodeFixed(w).operationalVoltage as Word == (w >> 10) & 0x3FF
    ensures DecodeFixed(w).reserved1 as Word == (w >> 20) & 0x1F
    ensures DecodeFixed(w).dualRoleData as Word == (w >> 25) & 1
    ensures DecodeFixed(w).reserved2 as Word == (w >> 26) & 3
    ensures DecodeFixed(w).higherCapability as Word == (w >> 28) & 1
    ensures DecodeFixed(w).dualRolePower as Word == (w >> 29) & 1
    ensures DecodeFixed(w).supplyType as Word == w >> 30
  {
  }

  lemma FixedWordRoundTrip(w: Word)
    ensures EncodeFixed(DecodeFixed(w)) == w
  {
  }

  lemma FixedFieldsRoundTrip(p: FixedPdo)
    ensures DecodeFixed(EncodeFixed(p)) == p
  {
  }

  lemma AssignFixedCurrent(w: Word, v: Word)
    ensures DecodeFixed(WithField(w, FixedCurrent, v)) == DecodeFixed(w).(operationalCurrent := (v & 0x3FF) as bv10)
    ensures WithField(w, FixedCurrent, v) & !FieldMask(FixedCurrent) == w & !FieldMask(FixedCurrent)
  {
  }

  lemma AssignFixedVoltage(w: Word, v: Word)
    ensures DecodeFixed(WithField(w, FixedVoltage, v)) == DecodeFixed(w).(operationalVoltage := (v & 0x3FF) as bv10)
    ensures WithField(w, FixedVoltage, v) & !FieldMask(FixedVoltage) == w & !FieldMask(FixedVoltage)
  {
  }

  lemma AssignFixedReserved1(w: Word, v: Word)
    ensures DecodeFixed(WithField(w, FixedReserved1, v)) == DecodeFixed(w).(reserved1 := (v & 0x1F) as bv5)
    ensures WithField(w, FixedReserved1, v) & !FieldMask(FixedReserved1) == w & !FieldMask(FixedReserved1)
  {
  }

  lemma AssignFixedDualRoleData(w: Word, v: Word)
    ensures DecodeFixed(WithField(w, FixedDualRoleData, v)) == DecodeFixed(w).(dualRoleData := (v & 1) as bv1)
    ensures WithField(w, FixedDualRoleData, v) & !FieldMask(FixedDualRoleData) == w & !FieldMask(FixedDualRoleData)
  {
  }

  lemma AssignFixedReserved2(w: Word, v: Word)
    ensures DecodeFixed(WithField(w, FixedReserved2, v)) == DecodeFixed(w).(reserved2 := (v & 3) as bv2)
    ensures WithField(w, FixedReserved2, v) & !FieldMask(FixedReserved2) == w & !FieldMask(FixedReserved2)
  {
  }

  lemma AssignFixedHigherCapability(w: Word, v: Word)
    ensures DecodeFixed(WithField(w, FixedHigherCapability, v)) == DecodeFixed(w).(higherCapability := (v & 1) as bv1)
    ensures WithField(w, FixedHigherCapability, v) & !FieldMask(FixedHigherCapability) == w & !FieldMask(FixedHigherCapability)
  {
  }

  lemma AssignFixedDualRolePower(w: Word, v: Word)
    ensures DecodeFixed(WithField(w, FixedDualRolePower, v)) == DecodeFixed(w).(dualRolePower := (v & 1) as bv1)
    ensures WithField(w, FixedDualRolePower, v) & !FieldMask(FixedDualRolePower) == w & !FieldMask(FixedDualRolePower)
  {
  }

  lemma AssignFixedSupplyType(w: Word, v: Word)
    ensures DecodeFixed(WithField(w, FixedSupplyType, v)) == DecodeFixed(w).(supplyType := (v & 3) as bv2)
    ensures WithField(w, FixedSupplyType, v) & !FieldMask(FixedSupplyType) == w & !FieldMask(FixedSupplyType)
  {
  }

  /** Summary of the eight per-field lemmas above: assigning any one field of
      a Fixed PDO stores the low bits of the value in that field and leaves
      the other fields, and every bit outside the field, as they were. */
  lemma FixedAssignments(w: Word, v: Word)
    ensures DecodeFixed(WithField(w, FixedCurrent, v))
         == DecodeFixed(w).(operationalCurrent := (v & 0x3FF) as bv10)
    ensures DecodeFixed(WithField(w, FixedVoltage, v))
         == DecodeFixed(w).(operationalVoltage := (v & 0x3FF) as bv10)
    ensures DecodeFixed(WithField(w, FixedReserved1, v))
         == DecodeFixed(w).(reserved1 := (v & 0x1F) as bv5)
    ensures DecodeFixed(WithField(w, FixedDualRoleData, v))
         == DecodeFixed(w).(dualRoleData := (v & 1) as bv1)
    ensures DecodeFixed(WithField(w, FixedReserved2, v))
         == DecodeFixed(w).(reserved2 := (v & 3) as bv2)
    ensures DecodeFixed(WithField(w, FixedHigherCapability, v))
         == DecodeFixed(w).(higherCapability := (v & 1) as bv1)
    ensures DecodeFixed(WithField(w, FixedDualRolePower, v))
         == DecodeFixed(w).(dualRolePower := (v & 1) as bv1)
    ensures DecodeFixed(WithField(w, FixedSupplyType, v))
         == DecodeFixed(w).(supplyType := (v & 3) as bv2)
    ensures WithField(w, FixedCurrent, v) & !FieldMask(FixedCurrent) == w & !FieldMask(FixedCurrent)
    ensures WithField(w, FixedVoltage, v) & !FieldMask(FixedVoltage) == w & !FieldMask(FixedVoltage)
    ensures WithField(w, FixedReserved1, v) & !FieldMask(FixedReserved1) == w & !FieldMask(FixedReserved1)
    ensures WithField(w, FixedDualRoleData, v) & !FieldMask(FixedDualRoleData) == w & !FieldMask(FixedDualRoleData)
    ensures WithField(w, FixedReserved2, v) & !FieldMask(FixedReserved2) == w & !FieldMask(FixedReserved2)
    ensures WithField(w, FixedHigherCapability, v) & !FieldMask(FixedHigherCapability) == w & !FieldMask(FixedHigherCapability)
    ensures WithField(w, FixedDualRolePower, v) & !FieldMask(FixedDualRolePower) == w & !FieldMask(FixedDualRolePower)
    ensures WithField(w, FixedSupplyType, v) & !FieldMask(FixedSupplyType) == w & !FieldMask(FixedSupplyType)
  {
    AssignFixedCurrent(w, v);
    AssignFixedVoltage(w, v);
    AssignFixedReserved1(w, v);
    AssignFixedDualRoleData(w, v);
    AssignFixedReserved2(w, v);
    AssignFixedHigherCapability(w, v);
    AssignFixedDualRolePower(w, v);
    AssignFixedSupplyType(w, v);
  }

  // ------------------------------------------------------- physical units

  /** 50 mV per unit of a voltage field; 10-bit fields reach 51.15 V. */
  function Millivolts(raw: bv10): (mv: nat)
    ensures mv <= 51150 && mv % 50 == 0
  {
    raw as int * 50
  }

  /** 10 mA per unit of a current field; 10-bit fields reach 10.23 A. */
  function Milliamps(raw: bv10): (ma: nat)
    ensures ma <= 10230 && ma % 10 == 0
  {
    raw as int * 10
  }

  /** Dividing a current by 10 mA gives the raw field value back. */
  lemma CurrentUnitsInvertsMilliamps(raw: bv10)
    ensures Milliamps(raw) / 10 == raw as int
  {
  }

  /** The field value for a voltage, as in "9 V / 0.05 V = 180". */
  function VoltageUnits(mv: nat): nat {
    mv / 50
  }

  lemma VoltageUnitsInvertsMillivolts(raw: bv10)
    ensures VoltageUnits(Millivolts(raw)) == raw as int
  {
  }

  lemma MillivoltsInvertsVoltageUnits(mv: nat)
    requires mv <= 51150 && mv % 50 == 0
    ensures VoltageUnits(mv) < 1024 && VoltageUnits(mv) * 50 == mv
  {
  }

  // ---------------------------------------------------------------- words

  /** A word in memory order on a little-endian target. */
  function WordBytes(w: Word): (bs: seq<Byte>)
    ensures |bs| == 4
  {
    [(w & 0xFF) as Byte, ((w >> 8) & 0xFF) as Byte, ((w >> 16) & 0xFF) as Byte, (w >> 24) as Byte]
  }

  function WordFromBytes(bs: seq<Byte>): Word
    requires |bs| == 4
  {
    (bs[0] as Word) | ((bs[1] as Word) << 8) | ((bs[2] as Word) << 16) | ((bs[3] as Word) << 24)
  }

  lemma WordBytesRoundTrip(w: Word)
    ensures WordFromBytes(WordBytes(w)) == w
  {
  }

  lemma BytesWordRoundTrip(bs: seq<Byte>)
    requires |bs| == 4
    ensures WordBytes(WordFromBytes(bs)) == bs
  {
    assert bs == [bs[0], bs[1], bs[2], bs[3]];
  }

  /** Consecutive little-endian words. */
  function WordsBytes(ws: seq<Word>): (bs: seq<Byte>)
    ensures |bs| == 4 * |ws|
  {
    if ws == [] then [] else WordBytes(ws[0]) + WordsBytes(ws[1..])
  }

  function WordsFromBytes(bs: seq<Byte>): (ws: seq<Word>)
    requires |bs| % 4 == 0
    ensures |ws| == |bs| / 4
  {
    if bs == [] then [] else [WordFromBytes(bs[..4])] + WordsFromBytes(bs[4..])
  }

  /** Word i occupies bytes 4i .. 4i+3. */
  lemma {:induction false} WordsBytesAt(ws: seq<Word>, i: nat)
    requires i < |ws|
    ensures WordsBytes(ws)[4 * i .. 4 * i + 4] == WordBytes(ws[i])
  {
    if i > 0 {
      WordsBytesAt(ws[1..], i - 1);
      assert WordsBytes(ws)[4 * i .. 4 * i + 4] == WordsBytes(ws[1..])[4 * (i - 1) .. 4 * (i - 1) + 4];
    }
  }

  lemma {:induction false} WordsRoundTrip(ws: seq<Word>)
    ensures WordsFromBytes(WordsBytes(ws)) == ws
  {
    if ws != [] {
      var bs := WordsBytes(ws);
      assert bs[..4] == WordBytes(ws[0]);
      assert bs[4..] == WordsBytes(ws[1..]);
      WordBytesRoundTrip(ws[0]);
      WordsRoundTrip(ws[1..]);
    }
  }

  lemma {:induction false} BytesWordsRoundTrip(bs: seq<Byte>)
    requires |bs| % 4 == 0
    ensures WordsBytes(WordsFromBytes(bs)) == bs
  {
    if bs != [] {
      var ws := WordsFromBytes(bs);
      assert ws[0] == WordFromBytes(bs[..4]);
      assert ws[1..] == WordsFromBytes(bs[4..]);
      BytesWordRoundTrip(bs[..4]);
      BytesWordsRoundTrip(bs[4..]);
      assert bs == bs[..4] + bs[4..];
    }
  }

  /** Replacing word i replaces exactly bytes 4i .. 4i+3. */
  lemma {:induction false} WordsBytesUpdate(ws: seq<Word>, i: nat, w: Word)
    requires i < |ws|
    ensures WordsBytes(ws[i := w])
         == WordsBytes(ws)[..4 * i] + WordBytes(w) + WordsBytes(ws)[4 * i + 4..]
  {
    if i == 0 {
      assert ws[i := w][1..] == ws[1..];
    } else {
      assert ws[i := w][1..] == ws[1..][i - 1 := w];
      WordsBytesUpdate(ws[1..], i - 1, w);
    }
  }

  // ------------------------------------------ Sink Capabilities register

  const SinkPdoSlots: nat := 6
  const SinkCapabilitiesSize: nat := 54
  const WritePacketSize: nat := 55
  const FourCCCommandSize: nat := 6

  type SinkPdoTable = s: seq<Word> | |s| == 6 witness [0, 0, 0, 0, 0, 0]
  type ReservedBlock = s: seq<Byte> | |s| == 24
    witness [0, 0, 0, 0, 0, 0, 0, 0, 0, 0, 0, 0, 0, 0, 0, 0, 0, 0, 0, 0, 0, 0, 0, 0]

  /** tSinkSourceCapabilities; the PDOs are kept as their union words. */
  datatype SinkCapabilities = SinkCapabilities(
    numOfBytes: Byte,
    numOfPDOs: bv3,
    reserved0: bv5,
    fixedPDO: Word,
    sinkPDOs: SinkPdoTable,
    reserved1: ReservedBlock)

  /** Where Variable PDO slot i starts in the serialised block. */
  function SinkPdoOffset(slot: nat): nat {
    6 + 4 * slot
  }

  /** Byte 1: numOfPDOs in bits 0..2, reserved0 in bits 3..7. */
  function CountByte(numOfPDOs: bv3, reserved0: bv5): Byte {
    (numOfPDOs as Byte) | ((reserved0 as Byte) << 3)
  }

  function SerialiseCapabilities(c: SinkCapabilities): (bs: seq<Byte>)
    ensures |bs| == SinkCapabilitiesSize
  {
    [c.numOfBytes, CountByte(c.numOfPDOs, c.reserved0)]
      + WordBytes(c.fixedPDO) + WordsBytes(c.sinkPDOs) + c.reserved1
  }

  function ParseCapabilities(bs: seq<Byte>): SinkCapabilities
    requires |bs| == SinkCapabilitiesSize
  {
    SinkCapabilities(
      bs[0],
      (bs[1] & 7) as bv3,
      (bs[1] >> 3) as bv5,
      WordFromBytes(bs[2..6]),
      WordsFromBytes(bs[6..30]),
      bs[30..])
  }

  /** The byte layout of the 54-byte register block. */
  lemma CapabilitiesLayout(c: SinkCapabilities)
    ensures var bs := SerialiseCapabilities(c);
      && bs[0] == c.numOfBytes
      && bs[1] & 7 == c.numOfPDOs as Byte
      && bs[1] >> 3 == c.reserved0 as Byte
      && bs[2..6] == WordBytes(c.fixedPDO)
      && (forall i :: 0 <= i < SinkPdoSlots ==>
            bs[SinkPdoOffset(i) .. SinkPdoOffset(i) + 4] == WordBytes(c.sinkPDOs[i]))
      && bs[30..] == c.reserved1
  {
    var bs := SerialiseCapabilities(c);
    var head := [c.numOfBytes, CountByte(c.numOfPDOs, c.reserved0)] + WordBytes(c.fixedPDO);
    assert bs == head + WordsBytes(c.sinkPDOs) + c.reserved1;
    forall i | 0 <= i < SinkPdoSlots
      ensures bs[SinkPdoOffset(i) .. SinkPdoOffset(i) + 4] == WordBytes(c.sinkPDOs[i])
    {
      WordsBytesAt(c.sinkPDOs, i);
      assert bs[SinkPdoOffset(i) .. SinkPdoOffset(i) + 4]
          == WordsBytes(c.sinkPDOs)[4 * i .. 4 * i + 4];
    }
  }

  lemma CapabilitiesRoundTrip(c: SinkCapabilities)
    ensures ParseCapabilities(SerialiseCapabilities(c)) == c
  {
    var bs := SerialiseCapabilities(c);
    assert bs[2..6] == WordBytes(c.fixedPDO);
    assert bs[6..30] == WordsBytes(c.sinkPDOs);
    assert bs[30..] == c.reserved1;
    WordBytesRoundTrip(c.fixedPDO);
    WordsRoundTrip(c.sinkPDOs);
  }

  lemma CapabilitiesBytesRoundTrip(bs: seq<Byte>)
    requires |bs| == SinkCapabilitiesSize
    ensures SerialiseCapabilities(ParseCapabilities(bs)) == bs
  {
    var c := ParseCapabilities(bs);
    BytesWordRoundTrip(bs[2..6]);
    BytesWordsRoundTrip(bs[6..30]);
    assert CountByte(c.numOfPDOs, c.reserved0) == bs[1];
    assert bs == [bs[0], bs[1]] + bs[2..6] + bs[6..30] + bs[30..];
  }

  /** Replacing the word of one slot replaces exactly that slot's four bytes. */
  lemma CapabilitiesWithSlot(c: SinkCapabilities, slot: nat, w: Word)
    requires slot < SinkPdoSlots
    ensures var off := SinkPdoOffset(slot);
      SerialiseCapabilities(c.(sinkPDOs := c.sinkPDOs[slot := w]))
        == SerialiseCapabilities(c)[..off] + WordBytes(w) + SerialiseCapabilities(c)[off + 4..]
  {
    WordsBytesUpdate(c.sinkPDOs, slot, w);
  }

  /** The word of slot i is read from bytes 6+4i .. 9+4i. */
  lemma ParsedSlot(bs: seq<Byte>, slot: nat)
    requires |bs| == SinkCapabilitiesSize && slot < SinkPdoSlots
    ensures ParseCapabilities(bs).sinkPDOs[slot]
         == WordFromBytes(bs[SinkPdoOffset(slot) .. SinkPdoOffset(slot) + 4])
  {
    var c := ParseCapabilities(bs);
    CapabilitiesBytesRoundTrip(bs);
    CapabilitiesLayout(c);
    WordBytesRoundTrip(c.sinkPDOs[slot]);
  }

  /** `block.sinkPDOs[slot].bits.f = v`. */
  function WithSinkPdoField(c: SinkCapabilities, slot: nat, f: BitField, v: Word): SinkCapabilities
    requires slot < SinkPdoSlots && InWord(f)
  {
    c.(sinkPDOs := c.sinkPDOs[slot := WithField(c.sinkPDOs[slot], f, v)])
  }

  /** Assigning a field of one slot in a serialised block rewrites exactly
      that slot's four bytes, with the word the assignment produces. */
  lemma SlotFieldEditBytes(bs: seq<Byte>, slot: nat, f: BitField, v: Word)
    requires |bs| == SinkCapabilitiesSize && slot < SinkPdoSlots && InWord(f)
    ensures var off := SinkPdoOffset(slot);
      SerialiseCapabilities(WithSinkPdoField(ParseCapabilities(bs), slot, f, v))
        == bs[..off] + WordBytes(WithField(WordFromBytes(bs[off .. off + 4]), f, v)) + bs[off + 4..]
  {
    var c := ParseCapabilities(bs);
    CapabilitiesBytesRoundTrip(bs);
    ParsedSlot(bs, slot);
    CapabilitiesWithSlot(c, slot, WithField(c.sinkPDOs[slot], f, v));
  }

  /** In memory order, maximumVoltage (bits 20..29) lies in bits 4..7 of the
      third byte and bits 0..5 of the fourth byte of its word. */
  lemma MaximumVoltageBytes(w: Word, v: Word)
    ensures WordBytes(WithField(w, VariableMaximumVoltage, v))[0] == WordBytes(w)[0]
    ensures WordBytes(WithField(w, VariableMaximumVoltage, v))[1] == WordBytes(w)[1]
    ensures WordBytes(WithField(w, VariableMaximumVoltage, v))[2] & 0x0F == WordBytes(w)[2] & 0x0F
    ensures WordBytes(WithField(w, VariableMaximumVoltage, v))[3] & 0xC0 == WordBytes(w)[3] & 0xC0
  {
    // One lemma per byte keeps each bit-vector obligation small.
    MaximumVoltageByte0(w, v);
    MaximumVoltageByte1(w, v);
    MaximumVoltageByte2(w, v);
    MaximumVoltageByte3(w, v);
  }

  lemma MaximumVoltageByte0(w: Word, v: Word)
    ensures WordBytes(WithField(w, VariableMaximumVoltage, v))[0] == WordBytes(w)[0]
  {
  }

  lemma MaximumVoltageByte1(w: Word, v: Word)
    ensures WordBytes(WithField(w, VariableMaximumVoltage, v))[1] == WordBytes(w)[1]
  {
  }

  lemma MaximumVoltageByte2(w: Word, v: Word)
    ensures WordBytes(WithField(w, VariableMaximumVoltage, v))[2] & 0x0F == WordBytes(w)[2] & 0x0F
  {
  }

  lemma MaximumVoltageByte3(w: Word, v: Word)
    ensures WordBytes(WithField(w, VariableMaximumVoltage, v))[3] & 0xC0 == WordBytes(w)[3] & 0xC0
  {
  }

  /** The serialised block after `block.sinkPDOs[slot].bits.maximumVoltage = v`. */
  function AssignedMaximumVoltage(bs: seq<Byte>, slot: nat, v: Word): seq<Byte>
    requires |bs| == SinkCapabilitiesSize && slot < SinkPdoSlots
  {
    SerialiseCapabilities(WithSinkPdoField(ParseCapabilities(bs), slot, VariableMaximumVoltage, v))
  }

  /** Assigning maximumVoltage of one slot in a serialised block changes only
      bits 20..29 of that slot's word: bits 4..7 of its third byte and bits
      0..5 of its fourth; every other byte is identical. */
  lemma MaximumVoltageEditIsolated(bs: seq<Byte>, slot: nat, v: Word)
    requires |bs| == SinkCapabilitiesSize && slot < SinkPdoSlots
    ensures |AssignedMaximumVoltage(bs, slot, v)| == SinkCapabilitiesSize
    ensures forall i :: 0 <= i < SinkCapabilitiesSize && i != SinkPdoOffset(slot) + 2 && i != SinkPdoOffset(slot) + 3
              ==> AssignedMaximumVoltage(bs, slot, v)[i] == bs[i]
    ensures AssignedMaximumVoltage(bs, slot, v)[SinkPdoOffset(slot) + 2] & 0x0F == bs[SinkPdoOffset(slot) + 2] & 0x0F
    ensures AssignedMaximumVoltage(bs, slot, v)[SinkPdoOffset(slot) + 3] & 0xC0 == bs[SinkPdoOffset(slot) + 3] & 0xC0
  {
    var off := SinkPdoOffset(slot);
    var w := WordFromBytes(bs[off .. off + 4]);
    var out := AssignedMaximumVoltage(bs, slot, v);
    var before, after := WordBytes(w), WordBytes(WithField(w, VariableMaximumVoltage, v));
    SlotFieldEditBytes(bs, slot, VariableMaximumVoltage, v);
    assert out == bs[..off] + after + bs[off + 4..];
    BytesWordRoundTrip(bs[off .. off + 4]);
    assert bs[off .. off + 4] == before;
    MaximumVoltageBytes(w, v);
    forall i | 0 <= i < SinkCapabilitiesSize && i != off + 2 && i != off + 3
      ensures out[i] == bs[i]
    {
      if off <= i < off + 4 {
        assert out[i] == after[i - off] && bs[i] == before[i - off];
      }
    }
    assert out[off + 2] == after[2] && bs[off + 2] == before[2];
    assert out[off + 3] == after[3] && bs[off + 3] == before[3];
  }

  /** After the assignment the slot decodes as before except for
      maximumVoltage, which holds the low 10 bits of v. */
  lemma MaximumVoltageEditDecoded(bs: seq<Byte>, slot: nat, v: Word)
    requires |bs| == SinkCapabilitiesSize && slot < SinkPdoSlots
    ensures DecodeVariable(ParseCapabilities(AssignedMaximumVoltage(bs, slot, v)).sinkPDOs[slot])
         == DecodeVariable(ParseCapabilities(bs).sinkPDOs[slot]).(maximumVoltage := (v & 0x3FF) as bv10)
  {
    var c := ParseCapabilities(bs);
    CapabilitiesRoundTrip(WithSinkPdoField(c, slot, VariableMaximumVoltage, v));
    AssignVariableMaximumVoltage(c.sinkPDOs[slot], v);
  }

  // ---------------------------------------------------------- write packet

  /** tSinkSourceWritePacket: the register address, then the whole block. */
  datatype WritePacket = WritePacket(writeAddr: Byte, sinkSourceCap: SinkCapabilities)

  function SerialiseWritePacket(p: WritePacket): (bs: seq<Byte>)
    ensures |bs| == WritePacketSize == 1 + SinkCapabilitiesSize
  {
    [p.writeAddr] + SerialiseCapabilities(p.sinkSourceCap)
  }

  function ParseWritePacket(bs: seq<Byte>): WritePacket
    requires |bs| == WritePacketSize
  {
    WritePacket(bs[0], ParseCapabilities(bs[1..]))
  }

  /** Framing: byte 0 is the address and bytes 1..54 the serialised block. */
  lemma WritePacketFraming(p: WritePacket)
    ensures var bs := SerialiseWritePacket(p);
      bs[0] == p.writeAddr && bs[1..] == SerialiseCapabilities(p.sinkSourceCap)
      && ParseWritePacket(bs) == p
  {
    var bs := SerialiseWritePacket(p);
    assert bs[1..] == SerialiseCapabilities(p.sinkSourceCap);
    CapabilitiesRoundTrip(p.sinkSourceCap);
  }

  lemma WritePacketBytesRoundTrip(bs: seq<Byte>)
    requires |bs| == WritePacketSize
    ensures SerialiseWritePacket(ParseWritePacket(bs)) == bs
  {
    CapabilitiesBytesRoundTrip(bs[1..]);
    assert bs == [bs[0]] + bs[1..];
  }

  // ----------------------------------------------------------- 4CC command

  type FourCCCode = s: seq<Byte> | |s| == 4 witness [0, 0, 0, 0]

  /** t4CCCommand: command register, byte count, four code bytes. */
  datatype FourCCCommand = FourCCCommand(commandRegister: Byte, numOfBytes: Byte, fourCCBytes: FourCCCode)

  function SerialiseFourCC(c: FourCCCommand): (bs: seq<Byte>)
    ensures |bs| == FourCCCommandSize
  {
    [c.commandRegister, c.numOfBytes] + c.fourCCBytes
  }

  function ParseFourCC(bs: seq<Byte>): FourCCCommand
    requires |bs| == FourCCCommandSize
  {
    FourCCCommand(bs[0], bs[1], bs[2..])
  }

  lemma FourCCRoundTrip(c: FourCCCommand)
    ensures ParseFourCC(SerialiseFourCC(c)) == c
  {
    assert SerialiseFourCC(c)[2..] == c.fourCCBytes;
  }

  lemma FourCCBytesRoundTrip(bs: seq<Byte>)
    requires |bs| == FourCCCommandSize
    ensures SerialiseFourCC(ParseFourCC(bs)) == bs
  {
    assert bs == [bs[0], bs[1]] + bs[2..];
  }
}
