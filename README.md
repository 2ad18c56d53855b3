# TPS25730 sink-capability update, modelled in Dafny

This project models the TI example that reconfigures a TPS25730 USB Power
Delivery sink controller over I2C. It has two parts.

- `usb_pdo.dfy` (module `UsbPdo`) covers the register layouts of `usb_pdo.h`:
  - the bit-packed Variable and Fixed PDO words;
  - the 54-byte Sink Capabilities block;
  - the 55-byte write packet (register address followed by the block);
  - the 6-byte 4CC command;
  - the register addresses 0x30, 0x33 and 0x08.

  A bit-field union is a 32-bit word with shift/mask accessors. Fields run
  least-significant bit first. Words are stored little-endian, as on the
  Cortex-M0+ target. Every layout has a serialiser and a parser, and the
  round trips between them are proved.
- `usb_pd_comm.dfy` (module `UsbPdComm`) covers `mainThread` in
  `usb_pd_comm.c`, from the first register read to the verification read.
  - The static buffers `sinkCapabilities` and `sinkReadPacket` are byte arrays.
    The code edits them in place.
  - `I2C_transfer` is a `Bus` object. It answers each transfer from a list of
    replies and logs it.
  - `MainThread` is proved equal to a specification function `Run(replies)`.
    `Run` gives the outcome and the exact transaction trace.
  - A halt-forever branch becomes the terminal outcome `Failed(step)`. A
    completed cycle becomes `Done(before, after)`, which holds slot 0's
    voltages and current as integer mV and mA.

## Model

| member | source | states |
|---|---|---|
| UsbPdo.FieldValue | examples/tps25730/mspm0g3507/tps25730_usb_pd_change_voltage/usb_pdo.h:41-47 | Reading an unsigned bit-field: the word shifted right by the field offset, masked to the width. The per-field decode lemmas state its result for every declared field. |
| UsbPdo.WithField | examples/tps25730/mspm0g3507/tps25730_usb_pd_change_voltage/usb_pdo.h:41-47 | Assigning an unsigned bit-field. The Assign lemmas state for every declared field that the field gets the low bits of the value and every other bit is kept. |
| UsbPdo.LayoutsTile | examples/tps25730/mspm0g3507/tps25730_usb_pd_change_voltage/usb_pdo.h:38-65 | The Variable fields (widths 10, 10, 10, 2) and the Fixed fields (offsets 0, 10, 20, 25, 26, 28, 29, 30; widths 10, 10, 5, 1, 2, 1, 1, 2) each lie end to end from bit 0 to bit 32. |
| UsbPdo.TiledFieldsOrdered | examples/tps25730/mspm0g3507/tps25730_usb_pd_change_voltage/usb_pdo.h:54-64 | In a layout that tiles the word, a field declared earlier ends at or before the start of any field declared later, so no two fields overlap. |
| UsbPdo.DecodeVariable | examples/tps25730/mspm0g3507/tps25730_usb_pd_change_voltage/usb_pdo.h:38-48 | Reading the `bits` view of a Variable PDO union. VariableDecodeFields gives each field's shift and mask, and VariableWordRoundTrip makes EncodeVariable its inverse. |
| UsbPdo.EncodeVariable | examples/tps25730/mspm0g3507/tps25730_usb_pd_change_voltage/usb_pdo.h:38-48 | Writing the four fields into the `word` view. VariableFieldsRoundTrip makes DecodeVariable its inverse. |
| UsbPdo.VariableDecodeFields | examples/tps25730/mspm0g3507/tps25730_usb_pd_change_voltage/usb_pdo.h:38-48 | The decoded current is `w & 0x3FF`, the minimum voltage is `(w >> 10) & 0x3FF`, the maximum voltage is `(w >> 20) & 0x3FF` and variableSupply is `w >> 30`. |
| UsbPdo.VariableWordRoundTrip | examples/tps25730/mspm0g3507/tps25730_usb_pd_change_voltage/usb_pdo.h:38-48 | The union read through `bits` and written back through `bits` gives the same word, for every 32-bit word. |
| UsbPdo.VariableFieldsRoundTrip | examples/tps25730/mspm0g3507/tps25730_usb_pd_change_voltage/usb_pdo.h:38-48 | Encoding in-range field values and decoding the word gives the same values back. |
| UsbPdo.AssignVariableCurrent | examples/tps25730/mspm0g3507/tps25730_usb_pd_change_voltage/usb_pdo.h:43 | `bits.operationalCurrent = v` stores the low 10 bits of v. The other fields are unchanged, and so is every bit outside bits 0..9. |
| UsbPdo.AssignVariableMinimumVoltage | examples/tps25730/mspm0g3507/tps25730_usb_pd_change_voltage/usb_pdo.h:44 | `bits.minimumVoltage = v` stores the low 10 bits of v. The other fields are unchanged, and so is every bit outside bits 10..19. |
| UsbPdo.AssignVariableMaximumVoltage | examples/tps25730/mspm0g3507/tps25730_usb_pd_change_voltage/usb_pdo.h:45 | `bits.maximumVoltage = v` stores the low 10 bits of v. The other fields are unchanged, and so is every bit outside bits 20..29. |
| UsbPdo.AssignVariableSupply | examples/tps25730/mspm0g3507/tps25730_usb_pd_change_voltage/usb_pdo.h:46 | `bits.variableSupply = v` stores the low 2 bits of v. The other fields are unchanged, and so is every bit outside bits 30..31. |
| UsbPdo.VariableAssignments | examples/tps25730/mspm0g3507/tps25730_usb_pd_change_voltage/usb_pdo.h:41-47 | The four assignment laws above, together. |
| UsbPdo.MaximumVoltageTruncates | examples/tps25730/mspm0g3507/tps25730_usb_pd_change_voltage/usb_pdo.h:45 | Assigning 1024 stores 0 and assigning 1203 stores 179, whatever the word held before. |
| UsbPdo.DecodeFixed | examples/tps25730/mspm0g3507/tps25730_usb_pd_change_voltage/usb_pdo.h:51-65 | Reading the `bits` view of a Fixed PDO union. FixedDecodeFields gives each field's shift and mask, and FixedWordRoundTrip makes EncodeFixed its inverse. |
| UsbPdo.EncodeFixed | examples/tps25730/mspm0g3507/tps25730_usb_pd_change_voltage/usb_pdo.h:51-65 | Writing the eight fields into the `word` view. FixedFieldsRoundTrip makes DecodeFixed its inverse. |
| UsbPdo.FixedDecodeFields | examples/tps25730/mspm0g3507/tps25730_usb_pd_change_voltage/usb_pdo.h:51-65 | Each decoded Fixed PDO field is the word shifted right by the field's offset and masked to its width. |
| UsbPdo.FixedWordRoundTrip | examples/tps25730/mspm0g3507/tps25730_usb_pd_change_voltage/usb_pdo.h:51-65 | Decoding and re-encoding a Fixed PDO gives the same word, for every 32-bit word. |
| UsbPdo.FixedFieldsRoundTrip | examples/tps25730/mspm0g3507/tps25730_usb_pd_change_voltage/usb_pdo.h:51-65 | Encoding in-range Fixed PDO field values and decoding the word gives the same values back. |
| UsbPdo.AssignFixedCurrent | examples/tps25730/mspm0g3507/tps25730_usb_pd_change_voltage/usb_pdo.h:56 | `bits.operationalCurrent = v` stores the low 10 bits of v. Every other field and every bit outside bits 0..9 is unchanged. |
| UsbPdo.AssignFixedVoltage | examples/tps25730/mspm0g3507/tps25730_usb_pd_change_voltage/usb_pdo.h:57 | `bits.operationalVoltage = v` stores the low 10 bits of v. Every other field and every bit outside bits 10..19 is unchanged. |
| UsbPdo.AssignFixedReserved1 | examples/tps25730/mspm0g3507/tps25730_usb_pd_change_voltage/usb_pdo.h:58 | `bits.reserved1 = v` stores the low 5 bits of v. Every other field and every bit outside bits 20..24 is unchanged. |
| UsbPdo.AssignFixedDualRoleData | examples/tps25730/mspm0g3507/tps25730_usb_pd_change_voltage/usb_pdo.h:59 | `bits.dualRoleData = v` stores bit 0 of v. Every other field and every bit other than bit 25 is unchanged. |
| UsbPdo.AssignFixedReserved2 | examples/tps25730/mspm0g3507/tps25730_usb_pd_change_voltage/usb_pdo.h:60 | `bits.reserved2 = v` stores the low 2 bits of v. Every other field and every bit outside bits 26..27 is unchanged. |
| UsbPdo.AssignFixedHigherCapability | examples/tps25730/mspm0g3507/tps25730_usb_pd_change_voltage/usb_pdo.h:61 | `bits.higherCapability = v` stores bit 0 of v. Every other field and every bit other than bit 28 is unchanged. |
| UsbPdo.AssignFixedDualRolePower | examples/tps25730/mspm0g3507/tps25730_usb_pd_change_voltage/usb_pdo.h:62 | `bits.dualRolePower = v` stores bit 0 of v. Every other field and every bit other than bit 29 is unchanged. |
| UsbPdo.AssignFixedSupplyType | examples/tps25730/mspm0g3507/tps25730_usb_pd_change_voltage/usb_pdo.h:63 | `bits.suuplyType = v` stores the low 2 bits of v. Every other field and every bit outside bits 30..31 is unchanged. |
| UsbPdo.FixedAssignments | examples/tps25730/mspm0g3507/tps25730_usb_pd_change_voltage/usb_pdo.h:54-64 | The eight Fixed PDO assignment laws above, together. |
| UsbPdo.Millivolts | examples/tps25730/mspm0g3507/tps25730_usb_pd_change_voltage/usb_pd_comm.c:121-122 | A raw voltage field is a multiple of 50 mV and at most 51150 mV. |
| UsbPdo.Milliamps | examples/tps25730/mspm0g3507/tps25730_usb_pd_change_voltage/usb_pd_comm.c:123 | A raw current field is a multiple of 10 mA and at most 10230 mA. |
| UsbPdo.CurrentUnitsInvertsMilliamps | examples/tps25730/mspm0g3507/tps25730_usb_pd_change_voltage/usb_pd_comm.c:123 | A current in milliamps divided by 10 gives the raw field back, so Milliamps is raw times 10. |
| UsbPdo.VoltageUnits | examples/tps25730/mspm0g3507/tps25730_usb_pd_change_voltage/usb_pd_comm.c:125 | The field value for a voltage, as in 9 V / 0.05 V = 180. It is the inverse of Millivolts in both directions: VoltageUnitsInvertsMillivolts and MillivoltsInvertsVoltageUnits. |
| UsbPdo.VoltageUnitsInvertsMillivolts | examples/tps25730/mspm0g3507/tps25730_usb_pd_change_voltage/usb_pd_comm.c:125 | Converting a raw value to millivolts and dividing by 50 gives the raw value back. |
| UsbPdo.MillivoltsInvertsVoltageUnits | examples/tps25730/mspm0g3507/tps25730_usb_pd_change_voltage/usb_pd_comm.c:125 | A multiple of 50 mV up to 51150 mV converts to a raw value below 1024 that converts back to the same voltage. |
| UsbPdo.WordBytes | examples/tps25730/mspm0g3507/tps25730_usb_pd_change_voltage/usb_pdo.h:40 | A word occupies four bytes of memory, low byte first. WordBytesRoundTrip and BytesWordRoundTrip make WordFromBytes its inverse in both directions. |
| UsbPdo.WordFromBytes | examples/tps25730/mspm0g3507/tps25730_usb_pd_change_voltage/usb_pdo.h:40 | Reading a word from four bytes of memory. It is the inverse of WordBytes by the two word round-trip lemmas. |
| UsbPdo.WordBytesRoundTrip | examples/tps25730/mspm0g3507/tps25730_usb_pd_change_voltage/usb_pdo.h:40 | A word stored as four little-endian bytes reads back as the same word. |
| UsbPdo.BytesWordRoundTrip | examples/tps25730/mspm0g3507/tps25730_usb_pd_change_voltage/usb_pdo.h:40 | Any four bytes read as a word and stored again are the same four bytes. |
| UsbPdo.WordsBytes | examples/tps25730/mspm0g3507/tps25730_usb_pd_change_voltage/usb_pdo.h:74 | An array of n words occupies 4n bytes. |
| UsbPdo.WordsBytesAt | examples/tps25730/mspm0g3507/tps25730_usb_pd_change_voltage/usb_pdo.h:74 | Element i of a word array occupies bytes 4i..4i+3 of its storage. |
| UsbPdo.WordsFromBytes | examples/tps25730/mspm0g3507/tps25730_usb_pd_change_voltage/usb_pdo.h:74 | Reading an array of words from its storage. WordsRoundTrip and BytesWordsRoundTrip make it the inverse of WordsBytes. |
| UsbPdo.WordsRoundTrip | examples/tps25730/mspm0g3507/tps25730_usb_pd_change_voltage/usb_pdo.h:74 | A word array stored as bytes and read back is the same array. |
| UsbPdo.BytesWordsRoundTrip | examples/tps25730/mspm0g3507/tps25730_usb_pd_change_voltage/usb_pdo.h:74 | Bytes whose count is a multiple of four, read as words and stored again, are the same bytes. |
| UsbPdo.WordsBytesUpdate | examples/tps25730/mspm0g3507/tps25730_usb_pd_change_voltage/usb_pdo.h:74 | Replacing array element i replaces exactly bytes 4i..4i+3 of the storage. |
| UsbPdo.SerialiseCapabilities | examples/tps25730/mspm0g3507/tps25730_usb_pd_change_voltage/usb_pdo.h:68-76 | The packed block is exactly 54 bytes long. |
| UsbPdo.ParseCapabilities | examples/tps25730/mspm0g3507/tps25730_usb_pd_change_voltage/usb_pdo.h:68-76 | Reading the packed block from 54 bytes. CapabilitiesRoundTrip and CapabilitiesBytesRoundTrip make it the inverse of SerialiseCapabilities, and ParsedSlot gives the slot words. |
| UsbPdo.CapabilitiesLayout | examples/tps25730/mspm0g3507/tps25730_usb_pd_change_voltage/usb_pdo.h:68-76 | Byte 0 is numOfBytes. Byte 1 holds numOfPDOs in bits 0..2 and reserved0 in bits 3..7. Bytes 2..5 are the fixed PDO. Bytes 6+4i..9+4i are sinkPDOs[i], little-endian. Bytes 30..53 are reserved1. |
| UsbPdo.CapabilitiesRoundTrip | examples/tps25730/mspm0g3507/tps25730_usb_pd_change_voltage/usb_pdo.h:68-76 | Parsing the serialised block gives the same block. |
| UsbPdo.CapabilitiesBytesRoundTrip | examples/tps25730/mspm0g3507/tps25730_usb_pd_change_voltage/usb_pdo.h:68-76 | Serialising the parse of any 54 bytes gives the same 54 bytes. |
| UsbPdo.CapabilitiesWithSlot | examples/tps25730/mspm0g3507/tps25730_usb_pd_change_voltage/usb_pdo.h:74 | Replacing the word of slot i changes exactly bytes 6+4i..9+4i of the serialised block, which get the new word's bytes. |
| UsbPdo.ParsedSlot | examples/tps25730/mspm0g3507/tps25730_usb_pd_change_voltage/usb_pdo.h:74 | Slot i of a parsed block is the little-endian word at bytes 6+4i..9+4i. |
| UsbPdo.WithSinkPdoField | examples/tps25730/mspm0g3507/tps25730_usb_pd_change_voltage/usb_pd_comm.c:126 | `block.sinkPDOs[slot].bits.f = v`. SlotFieldEditBytes, MaximumVoltageEditIsolated and MaximumVoltageEditDecoded state its effect on the bytes and on the decoded slot. |
| UsbPdo.SlotFieldEditBytes | examples/tps25730/mspm0g3507/tps25730_usb_pd_change_voltage/usb_pd_comm.c:126 | Assigning a bit-field of slot i in a block rewrites only that slot's four bytes, with the word the assignment produces. |
| UsbPdo.MaximumVoltageBytes | examples/tps25730/mspm0g3507/tps25730_usb_pd_change_voltage/usb_pdo.h:45 | Assigning maximumVoltage leaves the word's first two bytes, the low nibble of the third and the top two bits of the fourth unchanged. |
| UsbPdo.MaximumVoltageEditIsolated | examples/tps25730/mspm0g3507/tps25730_usb_pd_change_voltage/usb_pd_comm.c:126 | After `sinkPDOs[slot].bits.maximumVoltage = v`, the block is still 54 bytes. Every byte other than the slot's third and fourth is identical. Those two keep their bits outside the field. |
| UsbPdo.MaximumVoltageEditDecoded | examples/tps25730/mspm0g3507/tps25730_usb_pd_change_voltage/usb_pd_comm.c:126 | After the same assignment, the slot decodes as before except that its maximumVoltage holds the low 10 bits of v. |
| UsbPdo.SerialiseWritePacket | examples/tps25730/mspm0g3507/tps25730_usb_pd_change_voltage/usb_pdo.h:80-85 | The write packet is 55 bytes: one address byte and then the 54-byte block. |
| UsbPdo.ParseWritePacket | examples/tps25730/mspm0g3507/tps25730_usb_pd_change_voltage/usb_pdo.h:80-85 | Reading a write packet from 55 bytes. WritePacketFraming and WritePacketBytesRoundTrip make it the inverse of SerialiseWritePacket. |
| UsbPdo.WritePacketFraming | examples/tps25730/mspm0g3507/tps25730_usb_pd_change_voltage/usb_pdo.h:80-85 | Byte 0 of the packet is writeAddr and bytes 1..54 are the serialised block; parsing the packet gives it back. |
| UsbPdo.WritePacketBytesRoundTrip | examples/tps25730/mspm0g3507/tps25730_usb_pd_change_voltage/usb_pdo.h:80-85 | Any 55 bytes, parsed as a packet and serialised again, are the same bytes. |
| UsbPdo.SerialiseFourCC | examples/tps25730/mspm0g3507/tps25730_usb_pd_change_voltage/usb_pdo.h:93-98 | The 4CC command is 6 bytes: the register, then the count, then the four code bytes. |
| UsbPdo.ParseFourCC | examples/tps25730/mspm0g3507/tps25730_usb_pd_change_voltage/usb_pdo.h:93-98 | Reading a 4CC command from 6 bytes. FourCCRoundTrip and FourCCBytesRoundTrip make it the inverse of SerialiseFourCC. |
| UsbPdo.FourCCRoundTrip | examples/tps25730/mspm0g3507/tps25730_usb_pd_change_voltage/usb_pdo.h:93-98 | Parsing a serialised 4CC command gives the same command. |
| UsbPdo.FourCCBytesRoundTrip | examples/tps25730/mspm0g3507/tps25730_usb_pd_change_voltage/usb_pdo.h:93-98 | Any 6 bytes, parsed as a 4CC command and serialised again, are the same bytes. |
| UsbPdComm.Bus.Transfer | examples/tps25730/mspm0g3507/tps25730_usb_pd_change_voltage/usb_pd_comm.c:112 | One transfer is appended to the log and consumes one reply. It succeeds exactly when that reply is an Ack carrying readCount bytes, and it then returns those bytes. |
| UsbPdComm.I2cTransfer | examples/tps25730/mspm0g3507/tps25730_usb_pd_change_voltage/usb_pd_comm.c:112 | The bus sees the target, the first writeCount bytes of the buffer writeBuf designates, and readCount. On success the first readCount bytes of sinkCapabilities are the reply and the rest are unchanged. On failure sinkCapabilities is unchanged. |
| UsbPdComm.AssignMaximumVoltageInPlace | examples/tps25730/mspm0g3507/tps25730_usb_pd_change_voltage/usb_pd_comm.c:126 | The edit in place of the static block leaves it equal to the serialisation of the parsed block with that slot's maximumVoltage assigned. |
| UsbPdComm.StoreWord | examples/tps25730/mspm0g3507/tps25730_usb_pd_change_voltage/usb_pd_comm.c:126 | The store of the assigned slot word: the four bytes at the offset are replaced and every other byte of the buffer is unchanged. |
| UsbPdComm.FrameWritePacket | examples/tps25730/mspm0g3507/tps25730_usb_pd_change_voltage/usb_pd_comm.c:127-128 | After the framing, sinkReadPacket is 0x33 followed by a copy of all 54 bytes of sinkCapabilities. |
| UsbPdComm.WriteBack | examples/tps25730/mspm0g3507/tps25730_usb_pd_change_voltage/usb_pd_comm.c:126-139 | sinkCapabilities becomes the block with slot 0's maximumVoltage set to 180, and sinkReadPacket becomes 0x33 followed by that block. The transfer logs exactly the planned write-back transaction. The record now has writeCount 55, readCount 0 and the same target. Success means the reply was an empty Ack. |
| UsbPdComm.SendCommand | examples/tps25730/mspm0g3507/tps25730_usb_pd_change_voltage/usb_pd_comm.c:143-153 | The 4CC transfer writes the 6 serialised gSrcCommand bytes to 0x20 and reads nothing. Its readCount 0 and target are inherited from the previous transfer. sinkCapabilities is unchanged. |
| UsbPdComm.ReadBack | examples/tps25730/mspm0g3507/tps25730_usb_pd_change_voltage/usb_pd_comm.c:157-170 | The verification read logs a transaction that writes [0x33] to 0x20 and reads 54 bytes, reusing addrReg. On success sinkCapabilities holds the reply. |
| UsbPdComm.MainThread | examples/tps25730/mspm0g3507/tps25730_usb_pd_change_voltage/usb_pd_comm.c:104-175 | The outcome is `Run(replies).outcome` and the bus log grows by exactly `Run(replies).trace`. On Done, sinkCapabilities holds the verification read. |
| UsbPdComm.Reconfigure | examples/tps25730/mspm0g3507/tps25730_usb_pd_change_voltage/usb_pd_comm.c:120-175 | Once the first read has succeeded, the remaining steps give `Run`'s outcome and log the rest of its trace. |
| UsbPdComm.SlotReport | examples/tps25730/mspm0g3507/tps25730_usb_pd_change_voltage/usb_pd_comm.c:120-123 | The before and after parameters of slot 0 in mV and mA. EchoedBlockReportsNineVolts states the after values when the written block is read back. |
| UsbPdComm.ModifiedBlock | examples/tps25730/mspm0g3507/tps25730_usb_pd_change_voltage/usb_pd_comm.c:126 | The block that is written back: the parsed read with slot 0's maximumVoltage set to 180. WriteBackPayload states its bytes and decoded slot. |
| UsbPdComm.Run | examples/tps25730/mspm0g3507/tps25730_usb_pd_change_voltage/usb_pd_comm.c:104-175 | The whole cycle for a list of replies, which MainThread is proved equal to. RunFailsAt, RunCompletes, DoneIffAllAnswered and TraceIsPlanPrefix state its outcome and trace. |
| UsbPdComm.Plan | examples/tps25730/mspm0g3507/tps25730_usb_pd_change_voltage/usb_pd_comm.c:105-164 | A complete cycle consists of four transactions. |
| UsbPdComm.WritePacketIsPlanned | examples/tps25730/mspm0g3507/tps25730_usb_pd_change_voltage/usb_pd_comm.c:127-130 | 0x33 followed by the edited block is the written part of the plan's second transaction. |
| UsbPdComm.RunFailsAt | examples/tps25730/mspm0g3507/tps25730_usb_pd_change_voltage/usb_pd_comm.c:112-170 | If transfers 0..k-1 are answered and transfer k is not, the outcome is Failed at step k. The trace is the first k+1 planned transactions, so nothing later is issued. |
| UsbPdComm.RunStartsWithRead | examples/tps25730/mspm0g3507/tps25730_usb_pd_change_voltage/usb_pd_comm.c:105-112 | Every cycle starts with the register read, write [0x33] then read 54 bytes. |
| UsbPdComm.RunCompletes | examples/tps25730/mspm0g3507/tps25730_usb_pd_change_voltage/usb_pd_comm.c:104-175 | If all four transfers are answered, the trace is the whole plan and the outcome is Done. It then reports slot 0 of the first read and of the verification read. |
| UsbPdComm.RepliesInOrder | examples/tps25730/mspm0g3507/tps25730_usb_pd_change_voltage/usb_pd_comm.c:112 | The second, third and fourth transfers are answered by list entries 1, 2 and 3. |
| UsbPdComm.GSrcCommandBytes | examples/tps25730/mspm0g3507/tps25730_usb_pd_change_voltage/usb_pd_comm.c:57-62 | gSrcCommand serialises to 08 04 47 53 72 43, and its code bytes are the ASCII characters of "GSrC". |
| UsbPdComm.NewMaximumIsNineVolts | examples/tps25730/mspm0g3507/tps25730_usb_pd_change_voltage/usb_pd_comm.c:125-126 | Raw 180 is 9000 mV, and 9000 mV is raw 180. |
| UsbPdComm.PlanShape | examples/tps25730/mspm0g3507/tps25730_usb_pd_change_voltage/usb_pd_comm.c:105-164 | All four transactions go to 0x20. The first and last write [0x33] and read 54 bytes. The second writes 55 bytes, 0x33 then the edited block, and reads 0. The third writes 08 04 47 53 72 43 and reads 0. |
| UsbPdComm.WriteBackPayload | examples/tps25730/mspm0g3507/tps25730_usb_pd_change_voltage/usb_pd_comm.c:126-131 | The written payload equals the block that was read at every byte except block bytes 8 and 9. Those keep their bits outside bits 20..29 of slot 0. Slot 0 decodes as before, but with maximumVoltage 180, which is 9000 mV. |
| UsbPdComm.DoneIffAllAnswered | examples/tps25730/mspm0g3507/tps25730_usb_pd_change_voltage/usb_pd_comm.c:112-170 | The cycle completes exactly when all four transfers are answered. |
| UsbPdComm.TraceIsPlanPrefix | examples/tps25730/mspm0g3507/tps25730_usb_pd_change_voltage/usb_pd_comm.c:112-170 | Once the first read succeeds, the trace is a non-empty prefix of the plan. It is the whole plan exactly when both writes are answered, and always on Done. |
| UsbPdComm.EchoedBlockReportsNineVolts | examples/tps25730/mspm0g3507/tps25730_usb_pd_change_voltage/usb_pd_comm.c:172-175 | If the device returns the written block on the verification read, the "after" report shows 9000 mV maximum with the "before" minimum voltage and current. |
| UsbPdComm.SilentControllerExample | examples/tps25730/mspm0g3507/tps25730_usb_pd_change_voltage/usb_pd_comm.c:112-118 | A bus with no replies gives Failed at the initial read, after one transaction. |
| UsbPdComm.RejectedCommandExample | examples/tps25730/mspm0g3507/tps25730_usb_pd_change_voltage/usb_pd_comm.c:147-153 | A rejected 4CC command gives Failed at that step. The trace holds three transactions, the last being the GSrC write, and no verification read. |

## Left out

- Display output: `Display_init`, `Display_open`, `Display_printf` and their float formatting are not modelled. The "before" and "after" parameters become integer mV and mA values in the `Done` outcome.
- Driver set-up and tear-down: `I2C_init`, `I2C_Params_init`, `I2C_open`, `I2C_close` and their failure loops (lines 75-102 and 177-179) are not modelled. The model starts with an open bus.
- Halting: each `while (1)` halt becomes the terminal outcome `Failed(step)`. Nothing runs after it.
- Device behaviour: what the TPS25730 does with the block and the GSrC command is not modelled. Its answers are the list of replies given to the `Bus`.
- Compiler layout: the GCC packed bit-field layout (fields from bit 0 upward, little-endian words) is taken as given, not derived from the C ABI.
- Failed transfers: a failed transfer is modelled as writing nothing into readBuf. A driver that stops mid-read may leave part of the bytes there. Every failure halts the cycle, so nothing reads them.
- Incomplete reads: a transfer whose reply is an Ack of any length other than readCount is a failed transfer. This is also the case when no reply is left.
- readBuf: it always points at `sinkCapabilities`, so the `I2cTransaction` record leaves it out.
- numOfPDOs: the block does not enforce `numOfPDOs <= 6`. The source does not check it either.
- SourceCapReg: 0x30 is defined but never used by `mainThread`, so no member uses it.
- Field laws: the field laws are stated per field, for the fields the headers declare. Generic laws over symbolic offsets and widths are not stated.
- supplyType: the Fixed PDO field the header spells `suuplyType` is `supplyType` here.
