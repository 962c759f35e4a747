# Verified model of nsemu

nsemu is a user-mode emulator for AArch64 programs. This project models five of its parts in Dafny
and proves what they are for.

- **Decoder and interpreter** (`Bits`, `Flags`, `Bitfield`, `BitmaskImmediate`, `Multiply`,
  `Interpreter`, `Disassembler`, `CompareChain`, `LogicStep`, `Vectors`, `Simd`, `Pairwise`, `Encodings`). The
  decoder turns an instruction into micro-operations on a register file with scratch registers.
  `Interpreter.Cpu` is that register file; each micro-operation states the whole new state. What the
  decoder methods compute is compared with the meaning that the Arm Architecture Reference Manual
  (DDI 0487) gives the instructions: condition codes of section C1.2.4, the instructions of C6.2 and
  C7.2, and `DecodeBitMasks()` of chapter J1. Where the code departs from it, the theorem is the exact
  condition under which the two agree.
- **Guest memory** (`GuestMemory`, `Regions`). Byte loops over one flat RAM and separately allocated
  blocks behave like one flat byte map; the list of regions partitions the address space; the heap's
  blocks tile its range.
- **GDB stub** (`GdbPacket`, `Breakpoints`). The byte-at-a-time receiver refines a decoder of packets
  into tokens (GDB Remote Serial Protocol, section E.1 of "Debugging with GDB"); the sender and the
  receiver undo each other; breakpoint patches are reversible throughout a run exactly when every
  insert fits the live patches.
- **IPC messages** (`Ipc`). The builder lays out header, handles and payload; a parser on the same
  buffer recovers them.
- **IPC stub compiler** (`StubGen`, `StubArgs`, `StubRun`, `StubMessage`). Parameter offsets, and the order of the
  statements of a generated stub. `StubArgs` reads every argument and statement off the signature. `StubRun` gives the statements a meaning and shows that a reordered stub
  never uses anything too early or too late; `StubMessage` places what it writes in the message that its
  `GenBuf` call builds.

Words are bounded integers, and wrap-around, truncation and sign conversion are written out. Negating
the most negative value and similar signed overflows are taken as two's complement.

Several properties hold of the code only under a condition. Those are stated as equivalences, so the
failing inputs are described exactly:

- A comparison is decided wrongly for a subtrahend of 2^63 (64 bits) and of 0 or 2^31 (32 bits), for
  some condition codes: `Flags.CompareThenDecide`.
- BFI leaves source bits above the field, and 32-bit BFM and SBFM leave upper register bits:
  `Bitfield.BitfieldMove`.
- The region list is no partition when two regions meet, when one wraps and when one reaches one of the
  last two addresses: `Regions.GetRegionsPartition`. Shrinking the heap and growing it again makes regions
  meet: `Regions.RegrownOverlaps`.
- The heap stops being tiled when a request shrinks it, grows it by more than 2^32 or runs past the
  top: `Regions.HeapTiling`.
- The packet sender escapes nothing, so a payload with `#`, `}` or `*` is not delivered, and a command is
  cut off at a zero byte: `GdbPacket.DeliveredExactlyWhenPlain`, `GdbPacket.SeenExactlyWhenPlain`. The
  hexadecimal reply to a memory read is delivered unless it is the longest one that the stub allows:
  `GdbPacket.MemoryReplyDelivered`.
- A message with sixteen or more copied handles is read back with other counts, and so is one without
  handles by an object whose counts are not zero: `Ipc.CountsRecovered`, `Ipc.BuildThenParse`.
- Inserting a breakpoint keeps the patches reversible unless its word meets a live patch, other than one
  on the same address over a BRK of the guest's own: `Breakpoints.InsertExactly`,
  `Breakpoints.RunsExactly`. Two breakpoints on one address and overlapping ones are instances:
  `Breakpoints.SameAddressTwice`, `Breakpoints.OverlapClobbers`.
- A 32-bit logical immediate with N set is reserved, and accepted unless `imms` is 63; `0x12400000` is
  one: `LogicStep.AcceptsAsManual`, `LogicStep.ReservedButAccepted`.
- AND, ORR and EOR (immediate) with destination 31 leave the stack pointer as it was, where the manual
  writes it; ANDS sets the carry of a sum, where the manual clears it: `LogicStep.ResultAsManual`,
  `LogicStep.AndsThenDecide`, and together `LogicStep.StepLogImm`.
- A multiple-structure load of eight-byte registers keeps their upper halves, and ADDP on eight-byte
  vectors copies the upper half of the scratch vector, where the manual has zeros:
  `Simd.LoadsAsManual`, `Pairwise.PairsAsManual`.
- Base register 31 of a multiple-structure access is read and written as the zero register, where the
  manual means the stack pointer: `Simd.BaseAsManual`, `Simd.PostIndexAsManual`.
- Without post-indexing a multiple-structure access is allocated with a zero Rm field only, which the code
  does not test; `0x0c017000` is reserved and accepted: `Simd.AcceptsAsManual`, `Simd.ReservedButAccepted`.
- What a stub writes lies inside the message buffer exactly when its data ends there, which the generator
  does not test: `StubMessage.WritesInside`.

## Model

| member | source | states |
|---|---|---|
| Flags.CarryIsExact64 | ARMv8/Interpreter.cpp:126 | the half-adder average has its top bit set exactly when the 64-bit sum carries out |
| Flags.CarryIsExact32 | ARMv8/Interpreter.cpp:112 | the same for 32-bit sums |
| Flags.CondHoldOfPack | ARMv8/Interpreter.cpp:71-96 | the condition test reads back the four flags that the flag update packed, for every condition code |
| Flags.CompareThenDecide | ARMv8/Interpreter.cpp:71-132 | testing a condition after a flag-setting subtract gives the integer relation exactly for the decidable operands, in both widths |
| Flags.AddThenDecide | ARMv8/Interpreter.cpp:71-132 | testing a condition after a flag-setting add gives the relation of the exact unsigned or signed sum, for all operands, both widths and every condition code |
| Flags.OverflowIsExact64 | ARMv8/Interpreter.cpp:119-132 | the overflow flag of a sum says exactly that the signed sum is out of range |
| Flags.OverflowIsExact32 | ARMv8/Interpreter.cpp:105-118 | the same for 32-bit sums |
| Interpreter.Cpu.Compute | ARMv8/Interpreter.cpp:244-267 | subtraction by negate-and-add: result and all four flags, including the patched carry |
| Interpreter.Difference | ARMv8/Interpreter.cpp:247-255 | the value of a subtraction is the exact difference modulo 2^64 or 2^32 |
| CompareChain.ChainIsConjunction | ARMv8/Interpreter.cpp:893-917 | with falsifying fallbacks, the final condition of a chain of conditional compares holds exactly when every comparison holds |
| CompareChain.RunCompareAndBranch | ARMv8/Disassembler.cpp:782-803 | running CMP, any number of CCMPs and a branch on the machine takes the branch exactly when all comparisons hold, and changes no general register |
| Disassembler.DisasAddSubReg | ARMv8/Disassembler.cpp:689-709 | add and subtract of a shifted register: the exact sum or difference modulo the width in the destination, flags, and nothing else but the scratch register |
| Disassembler.BitShiftedOperand | ARMv8/Interpreter.cpp:221-230 | every bit of the shifted operand, for the three shift types and both widths |
| Disassembler.DisasCondCmp | ARMv8/Disassembler.cpp:782-803 | the flags are those of the comparison if the condition holds and the fallback otherwise |
| Disassembler.DisasCondSel | ARMv8/Disassembler.cpp:805-828 | selects Xn or the inverted and incremented Xm, even when the destination is a source |
| Disassembler.ElseNegates | ARMv8/Disassembler.cpp:805-828 | inverted and incremented, the unselected operand is its negation in the width of the register |
| Disassembler.DisasCondBrImm | ARMv8/Disassembler.cpp:312-325 | the program counter is left four short of the target exactly when the condition holds |
| Disassembler.Retire | ARMv8/Interpreter.cpp:11-18 | the end of a step moves the program counter on and clears the zero register |
| Encodings.SignedField | include/Util.hpp:92-95 | a signed field is two's complement |
| Encodings.BranchTargets | ARMv8/Disassembler.cpp:312-325 | a conditional branch goes four times the signed field of nineteen bits away |
| Encodings.ShiftTypes | ARMv8/Disassembler.cpp:689-709 | the shift that bits 23 and 22 name |
| Encodings.BitfieldOps | ARMv8/Disassembler.cpp:173-228 | the operation that bits 30 and 29 name |
| Encodings.LogicOps | ARMv8/Disassembler.cpp:106-139 | the operation that bits 30 and 29 name |
| Encodings.LogicMasks | ARMv8/Disassembler.cpp:106-118 | the bits of the word that are passed to DecodeBitMasks() |
| Encodings.CondCmpOperands | ARMv8/Disassembler.cpp:782-803 | the immediate or the register in the width of the comparison |
| Encodings.CondCmpResults | ARMv8/Interpreter.cpp:893-917 | the flags of the subtraction, of the addition or of the fallback field |
| Encodings.FallbackFlags | ARMv8/Interpreter.cpp:893-917 | the fallback field is N, Z, C and V from its top bit down |
| Encodings.ElseValues | ARMv8/Disassembler.cpp:805-828 | CSEL, CSINV, CSINC and CSNEG give the operand, its complement, its successor and its negation modulo the width |
| Encodings.BitfieldTable | ARMv8/Disassembler.cpp:173-195 | the allocated bitfield moves, bit by bit |
| Encodings.AddSubTable | ARMv8/Disassembler.cpp:689-709 | the allocated shifted additions and subtractions, bit by bit |
| Encodings.ConditionalTables | ARMv8/Disassembler.cpp:782-828 | the allocated conditional compares, selects and branches, bit by bit |
| Encodings.AddpTable | ARMv8/Disassembler.cpp:1954-1997 | lane size and allocation of ADDP, bit by bit |
| Encodings.MultiTable | ARMv8/Disassembler.cpp:1383-1408 | registers, interleaving, lane size and lane number of every opcode of a multiple-structure transfer |
| Encodings.MultiAllocated | ARMv8/Disassembler.cpp:1376-1416 | the accepted opcodes and fixed bits |
| Bitfield.BitfieldMove | ARMv8/Disassembler.cpp:173-228 | for every field, operand and width, the emitted sequence computes every bit of the manual's SBFM, BFM or UBFM result exactly for the conforming operands |
| Bitfield.BitUExtract | ARMv8/Interpreter.cpp:809-822 | every bit of an unsigned extraction by a shift pair |
| Bitfield.BitSExtract64 | ARMv8/Interpreter.cpp:795-807 | every bit of a signed extraction by a shift pair |
| Bitfield.BitDeposit | ARMv8/Interpreter.cpp:284-298 | every bit of an unmasked deposit |
| Bitfield.BitDepositZero | ARMv8/Interpreter.cpp:300-313 | every bit of a masked deposit into zero |
| Disassembler.DisasBitfield | ARMv8/Disassembler.cpp:173-228 | the decoder's shift pairs and deposits give the destination that the bitfield result names, through one scratch register |
| Multiply.Umul64 | ARMv8/Interpreter.cpp:168-195 | the two results are the exact 128-bit product, with no lost carry |
| Disassembler.DisasUmulh | ARMv8/Disassembler.cpp:743-745 | UMULH writes the floor of the product divided by 2^64 |
| BitmaskImmediate.Replicate64 | include/Util.hpp:124-131 | the doubling loop ends with bit i equal to bit i modulo the element width |
| BitmaskImmediate.LogicImmDecode | ARMv8/Disassembler.cpp:29-60 | accepts exactly the encodings that DecodeBitMasks() accepts, with the same mask bit by bit |
| BitmaskImmediate.AcceptedMask | ARMv8/Disassembler.cpp:29-60 | an accepted mask is periodic, each element is s + 1 ones rotated right by r, and the word is neither zero nor all ones |
| Disassembler.DisasLogImm | ARMv8/Disassembler.cpp:106-139 | accepts exactly the encodings that DecodeBitMasks() accepts; destination and flags of the four operations with that mask, as the code has them |
| Disassembler.BitLogicResult | ARMv8/Interpreter.cpp:211-219 | every bit of the result of the four operations |
| LogicStep.AcceptsAsManual | ARMv8/Disassembler.cpp:106-118 | the decoder accepts what the manual allocates exactly when the encoding is not a 32-bit one with N set and `imms` other than 63 |
| LogicStep.ReservedButAccepted | ARMv8/Disassembler.cpp:106-118 | a reserved encoding that is accepted |
| LogicStep.ResultAsManual | ARMv8/Interpreter.cpp:452-476 | after the step the registers are the manual's exactly when the destination is not the stack pointer or the result is what that held |
| LogicStep.AndsFlags | ARMv8/Interpreter.cpp:244-267 | the flags of ANDS: sign and zero of the result, the carry of the operands' sum, no overflow |
| LogicStep.AndsThenDecide | ARMv8/Interpreter.cpp:71-96 | a condition after ANDS holds as in the manual exactly unless the sum carries and the condition looks at it |
| LogicStep.StepLogImm | ARMv8/Disassembler.cpp:106-139 | a whole step agrees with the manual about acceptance, registers and flags exactly under those conditions |
| Vectors.LaneBytes | ARMv8/Interpreter.cpp:675-704 | every byte of a lane, and of a vector with one lane replaced |
| Vectors.TotalIs | ARMv8/Disassembler.cpp:1422-1435 | as many registers as iterations times columns, and as many lanes as these times lanes of a register |
| Vectors.PositionOfLane | ARMv8/Disassembler.cpp:1422-1435 | lanes and memory positions correspond one to one |
| Vectors.StoreThenLoad | ARMv8/Interpreter.cpp:675-704 | loading a stored image restores every named lane and no other byte |
| Simd.DisasLdStMulti | ARMv8/Disassembler.cpp:1364-1443 | the three nested loops leave the registers or the memory of all lanes in order, with post-indexing; every Rm field is accepted |
| Simd.AcceptsAsManual | ARMv8/Disassembler.cpp:1364-1416 | the manual allocates exactly the accepted encodings that are post-indexed or have a zero Rm field |
| Simd.ReservedButAccepted | ARMv8/Disassembler.cpp:1364-1416 | a reserved encoding that is accepted |
| Simd.StoredLanes | ARMv8/Disassembler.cpp:1422-1435 | lane e of register rt + r + col modulo 32 is stored at ((r * elements + e) * selem + col) lane widths from the base |
| Simd.StoredElsewhere | ARMv8/Disassembler.cpp:1422-1435 | a store changes no byte outside the lanes' addresses |
| Simd.LoadedLanes | ARMv8/Disassembler.cpp:1422-1435 | the same lane is loaded from that address |
| Simd.LoadedElsewhere | ARMv8/Disassembler.cpp:1422-1435 | a load changes no other register and no byte above the lanes |
| Simd.LoadsAsManual | ARMv8/Disassembler.cpp:1422-1435 | a load leaves the manual's registers exactly when the bytes it keeps above the lanes were zero |
| Simd.BaseAsManual | ARMv8/Disassembler.cpp:1364-1421 | a lane is at the manual's address exactly when the base register is not 31 or the stack pointer is zero |
| Simd.PostIndexAsManual | ARMv8/Disassembler.cpp:1436-1442 | post-indexing moves the manual's base register as it should exactly when that is not the stack pointer, or by a register that holds zero |
| Simd.StoreThenLoadLanes | ARMv8/Disassembler.cpp:1364-1443 | a load after a store of the same shape and base gives back every transferred lane, whatever the registers held meanwhile |
| Simd.OthersKept | ARMv8/Disassembler.cpp:1436-1442 | without post-indexing only the scratch register changes, and with it the base register too |
| Simd.PostIndexByTransfer | ARMv8/Disassembler.cpp:1436-1442 | immediate post-indexing moves the base by exactly the bytes transferred |
| Pairwise.PairwiseAdd | ARMv8/Disassembler.cpp:1963-1991 | each lane of the staged vector is the sum of two adjacent lanes of the two sources side by side, modulo the lane width |
| Pairwise.StagedElsewhere | ARMv8/Disassembler.cpp:1963-1991 | bytes above the lanes keep what the scratch vector held |
| Pairwise.PairsAsManual | ARMv8/Disassembler.cpp:1963-1997 | the destination is the manual's exactly when the scratch vector was zero above the lanes |
| Pairwise.DisasAddp | ARMv8/Disassembler.cpp:1954-1997 | the destination is the sum of the original sources, for any registers, equal ones included |
| Interpreter.Cpu.LoadVecReg | ARMv8/Interpreter.cpp:675-689 | one lane takes the bytes at the address |
| Interpreter.Cpu.StoreVecReg | ARMv8/Interpreter.cpp:690-704 | memory takes one lane's bytes and changes nowhere else |
| Interpreter.Cpu.SExtractI64 | ARMv8/Interpreter.cpp:795-807 | the new register file of a signed extraction |
| Interpreter.Cpu.UExtractI64 | ARMv8/Interpreter.cpp:809-822 | the new register file of an unsigned extraction |
| Interpreter.Cpu.Mul2Reg | ARMv8/Interpreter.cpp:403-409 | two registers take the halves of the exact product, the high half last |
| Interpreter.Cpu.CondMovReg | ARMv8/Interpreter.cpp:326-341 | one register takes the selected source |
| Interpreter.Cpu.ReadVecElem | ARMv8/Interpreter.cpp:1136-1147 | a lane as a number |
| Interpreter.Cpu.WriteVecElem | ARMv8/Interpreter.cpp:1149-1159 | a number's low bytes as a lane |
| GuestMemory.Memory.FindRamBlock | Memory.cpp:47-59 | the first region whose inclusive range has the address |
| GuestMemory.Memory.GetRawPtr | Memory.cpp:135-149 | the buffer and offset at which an access is stored |
| GuestMemory.Memory.ReadFromRAM | ARMv8/MMU.cpp:15-29 | a read is the little-endian value of the flat map's bytes |
| GuestMemory.Memory.WriteToRAM | ARMv8/MMU.cpp:31-43 | a write stores the value's low bytes in the flat map and changes nothing else |
| GuestMemory.ReadBack | ARMv8/MMU.cpp:15-43 | a read inside a value just written returns that slice of its bits |
| GuestMemory.NoAliasing | Memory.cpp:135-149 | two addresses never share storage |
| GuestMemory.DisjointSegments | Memory.cpp:47-59 | an access inside a block that no earlier region meets stays in one segment |
| GuestMemory.Memory.ReadBytes | ARMv8/MMU.cpp:45-51 | the host buffer holds the guest bytes |
| GuestMemory.Memory.WriteBytes | ARMv8/MMU.cpp:81-86 | the guest bytes become those of the host buffer |
| GuestMemory.Memory.MirrorStack | Svc.cpp:122-130 | the destination receives what the source held before, even where the ranges overlap, and nothing else changes |
| GuestMemory.Memory.AddMemmap | Memory.cpp:61-88 | one region is appended, and every mapped byte keeps its contents |
| GuestMemory.Memory.DelMemmap | Memory.cpp:90-101 | exactly the regions inside the range are erased, in one pass |
| GuestMemory.Memory.UnmapMemory | Svc.cpp:132-136 | the same, for the system call |
| GuestMemory.KeptExactly | Memory.cpp:90-101 | exactly the regions whose addresses are not inside the range are kept, each once and in order |
| GuestMemory.Ranges | Memory.cpp:43-59 | the inclusive range of a region, and when a range is straight or inside another, in addresses |
| GuestMemory.SpanRange | Memory.cpp:114-121 | the spans that are listed have the addresses of the regions |
| GuestMemory.CopySizes | Svc.cpp:122-130 | a size of 2^31 or more modulo 2^32 copies nothing |
| GuestMemory.Memory.SetHeapSize | Svc.cpp:106-116 | the regions before the call stay, and the added ones are those of the heap specification |
| Regions.GetRegions | Memory.cpp:114-133 | sorting and the running last address give the reported list |
| Regions.GetRegionsPartition | Memory.cpp:114-133 | for every list of regions, the reported list partitions the address space and marks the mapped addresses exactly when no two regions meet and none wraps or reaches the last two addresses |
| Regions.RegrownOverlaps | Svc.cpp:106-116 | growing the heap after shrinking it maps a range twice, and what is reported is no partition |
| Regions.FindRegion | Svc.cpp:151-175 | the search finds the first region that has the address; in a partition there is one for every address, and no other has it |
| GuestMemory.Memory.QueryRegion | Svc.cpp:149-177 | the region found is listed and has the address; when the list is a partition one is found, and it is marked mapped exactly when the address is |
| Regions.HeapStep | Svc.cpp:106-116 | one request keeps the heap tiled exactly when it neither shrinks it nor grows it too far |
| Regions.HeapTiling | Svc.cpp:106-116 | over every run of requests the blocks tile the heap exactly when each request fits |
| Regions.TilesCover | Memory.cpp:61-88 | tiles cover every address of the heap once and no other |
| GdbPacket.Stub.HandlePacket | GdbStub.cpp:424-536 | each received byte moves the stub's fields as the receiver function does, with every buffer access in bounds |
| GdbPacket.EveryStreamIsSane | GdbStub.cpp:424-536 | for every byte stream the stored bytes leave room for the terminator, and exactly the acknowledged packets are handed over |
| GdbPacket.ShortTextFits | GdbStub.cpp:449-496 | a text of at most 4094 bytes fits however it is encoded |
| GdbPacket.ReceivePacket | GdbStub.cpp:424-536 | a packet of literals, escapes and runs that fits is expanded, handed over and acknowledged exactly when its digits are its sum modulo 256, and refused otherwise |
| GdbPacket.BitUnescaped | GdbStub.cpp:468 | an escaped byte stands for the one with bit 5 flipped |
| GdbPacket.EscapedDelivered | GdbStub.cpp:424-536 | any text of at most 4095 bytes is delivered when its reserved bytes are sent escaped |
| GdbPacket.Characters | GdbStub.cpp:424-536 | the bytes of the protocol are these characters, and the replies `+` and `-` |
| GdbPacket.DigitValues | GdbStub.cpp:31-53 | the digit printed for a value, and the values of both spellings of each digit |
| GdbPacket.OnlyDigits | GdbStub.cpp:31-46 | the hex digits are those 22 characters |
| GdbPacket.IdleBytes | GdbStub.cpp:428-436 | bytes between packets change nothing |
| GdbPacket.BadRun | GdbStub.cpp:474-496 | a repeat mark without a valid count, or with nothing to repeat, stores nothing |
| GdbPacket.GoodRun | GdbStub.cpp:482-496 | a count stands for 29 less than its code |
| GdbPacket.BadFirstDigit | GdbStub.cpp:499-506 | after a wrong first checksum digit the packet goes on |
| GdbPacket.BadSecondDigit | GdbStub.cpp:511-517 | and after a wrong second one |
| GdbPacket.CutEscape | GdbStub.cpp:458-461 | a checksum mark after an escape mark ends the packet |
| GdbPacket.DropPacket | GdbStub.cpp:449-485 | at the first token that does not fit the packet is dropped without a reply |
| GdbPacket.Stub.SendPacket | GdbStub.cpp:107-127 | the bytes sent are the framed payload |
| GdbPacket.SendThenReceive | GdbStub.cpp:107-127 | a payload of at most 4095 bytes without reserved bytes is delivered and acknowledged |
| GdbPacket.WrongDigitsRefused | GdbStub.cpp:512-526 | with any other two hex digits the reply is a refusal and no command is delivered |
| GdbPacket.DeliveredExactlyWhenPlain | GdbStub.cpp:107-127 | the payload is what is delivered exactly when it has no reserved byte |
| GdbPacket.SeenExactlyWhenPlain | GdbStub.cpp:424-536 | the command handler sees the payload exactly when it has neither a reserved byte nor a zero byte |
| GdbPacket.HexDigits | GdbStub.cpp:55-65 | every byte can be read back from its two digits |
| GdbPacket.MemoryReplyDelivered | GdbStub.cpp:330-347 | the reply to a memory read is delivered exactly when it has fewer than 2048 bytes, the most that the stub allows |
| GdbPacket.Stub.MemToHex | GdbStub.cpp:55-65 | the digits of the bytes, and a terminator |
| GdbPacket.Stub.WritePacket | GdbStub.cpp:129-131 | the string up to its terminator is sent framed |
| GdbPacket.Stub.SendMemory | GdbStub.cpp:340-347 | the framed digits of the bytes are sent |
| Breakpoints.Debugger.SwBreakpointInsert | GdbStub.cpp:186-192 | saves the instruction and patches it |
| Breakpoints.Debugger.SwBreakpointRemove | GdbStub.cpp:194-208 | restores and erases the first entry with the same address, length and kind, or fails without a change when there is none |
| Breakpoints.Debugger.BreakpointInsert | GdbStub.cpp:262-276 | software and hardware breakpoints patch, watchpoints are listed, other kinds fail |
| Breakpoints.Debugger.BreakpointRemove | GdbStub.cpp:278-293 | breakpoints restore, watchpoints leave the list, anything else fails |
| Breakpoints.RemoveTakes | GdbStub.cpp:194-208 | a remove takes the first entry with the same address, length and kind and restores its word, or there is none |
| Breakpoints.InsertAppends | GdbStub.cpp:186-192 | an insert appends the entry with the word that was there, and stores the BRK bytes |
| Breakpoints.RemoveUndoesInsert | GdbStub.cpp:186-208 | a remove undoes the insert of the same address, length and kind, unless an equal one precedes it |
| Breakpoints.RemoveTakesFirst | GdbStub.cpp:194-208 | otherwise it takes the first equal one |
| Breakpoints.InsertExactly | GdbStub.cpp:186-192 | inserting keeps the patches reversible exactly when the word meets no live patch, other than one over a BRK of the guest's own |
| Breakpoints.RunsExactly | GdbStub.cpp:186-208 | every prefix of a run of inserts, removes and guest stores outside patches is reversible exactly when every insert fits |
| Breakpoints.EveryRunIsPatched | GdbStub.cpp:186-208 | after a run whose inserts all fit, live addresses hold the BRK word and putting the saved instructions back gives the run's memory without a debugger |
| Breakpoints.NoPatchRemains | GdbStub.cpp:194-208 | when the list is empty again the memory is as without a debugger |
| Breakpoints.SameAddressTwice | GdbStub.cpp:186-208 | two breakpoints on one address removed in order of insertion leave a patch behind |
| Breakpoints.OverlapClobbers | GdbStub.cpp:186-192 | inserting over part of a live patch destroys it |
| Ipc.IpcMessage.GenBuf | Ipc.cpp:48-73 | the words that a built message begins with |
| Ipc.IpcMessage.ParseMessage | Ipc.cpp:6-46 | the fields and offsets read from any buffer; counts are set only when there are handles |
| Ipc.Positions | Ipc.cpp:6-40 | where handles, descriptors and payload begin, in terms of the bits of the first three words |
| Ipc.MagicReads | Ipc.cpp:72 | the magic is the word that reads SFCO |
| Ipc.DescriptorWord | Ipc.cpp:19-22 | process id flag and handle counts of a descriptor as quotient and remainder |
| Ipc.FirstWord | Ipc.cpp:8-11 | type and descriptor counts as quotient and remainder |
| Ipc.SecondWord | Ipc.cpp:12-16 | word count, C descriptor flags and handle flag as quotient and remainder |
| Ipc.HandlePositions | Ipc.cpp:19-32 | the handles follow the descriptor, and the process id if there is one |
| Ipc.IpcMessage.SetErrorCode | Ipc.cpp:75-80 | one word takes the result code |
| Ipc.IpcMessage.SetMove | include/Ipc.hpp:75-85 | one word after the copied handles takes the handle |
| Ipc.IpcMessage.SetCopy | include/Ipc.hpp:86-92 | one word after the descriptor takes the handle |
| Ipc.IpcMessage.GetMoved | include/Ipc.hpp:93-95 | one word at the parsed position of the moved handles |
| Ipc.IpcMessage.GetCopied | include/Ipc.hpp:96-98 | one word at the parsed position of the copied handles |
| Ipc.SectionsDisjoint | include/Ipc.hpp:75-92 | handles, data words and result code never share a word with each other, the header or the magic |
| Ipc.BuildThenParse | Ipc.cpp:6-80 | one object builds a reply and another on the same buffer parses it: counts are recovered exactly when fewer than sixteen handles are copied and, without handles, they were zero before; payload position, word count, command and all handles are recovered |
| Ipc.CountsParsedBack | Ipc.cpp:20-34 | what the parser makes of the counts, however many handles there are |
| Ipc.CountsRecovered | Ipc.cpp:20-34 | the descriptor gives both handle counts back exactly when fewer than sixteen handles are copied |
| Ipc.LayoutRecovered | Ipc.cpp:6-73 | the parser finds the builder's payload position, word count, magic and handle positions |
| Ipc.ResultRecovered | Ipc.cpp:75-80 | the command word holds the result code last written |
| Ipc.CopyRecovered | include/Ipc.hpp:86-98 | every copied handle is read back as last written |
| Ipc.MoveRecovered | include/Ipc.hpp:75-95 | every moved handle is read back as last written |
| Ipc.DataWordsIsCeiling | Ipc.cpp:67-69 | the data size is rounded up to words |
| StubGen.AlignUpIsLeast | GenIpcStubs.py:170-171 | padding stops at the least aligned offset |
| StubGen.BasicSizes | GenIpcStubs.py:25-53 | sizes of the basic types, and which are passed by pointer |
| StubGen.NamedSizes | GenIpcStubs.py:43-53 | a defined name has the size of its definition |
| StubGen.DataKinds | GenIpcStubs.py:136-190 | which parameters travel in the data area |
| StubGen.OtherSizes | GenIpcStubs.py:164-190 | sizes of bytes, and alignment as given or as the size up to eight |
| StubArgs.InputArguments | GenIpcStubs.py:136-190 | every input parameter's arguments and statements, at their places, read off the signature |
| StubArgs.InputReferences | GenIpcStubs.py:164-190 | the request data that the call reads is that of the input fields, in order |
| StubArgs.OutputArguments | GenIpcStubs.py:192-243 | every output parameter's arguments and statements: data references and pointers are those of the output fields |
| StubGen.InputLayout | GenIpcStubs.py:164-190 | input data fields have the sizes and alignments of their types and least padding from offset 8 |
| StubGen.OutputLayout | GenIpcStubs.py:227-243 | the same for output data fields |
| StubGen.FieldsDisjoint | GenIpcStubs.py:164-247 | fields ascend without overlap, clear of the result code, inside the size passed to `GenBuf` |
| StubGen.InputHandles | GenIpcStubs.py:152-156 | the input objects are the moved handles in order, each used once |
| StubGen.NeverRejected | GenIpcStubs.py:243-245 | arguments number inputs, outputs and buffers, so the rejecting branch is never taken |
| StubGen.GenerateCaller | GenIpcStubs.py:122-254 | the loops yield the specified statements, and fail exactly on an output process id |
| StubGen.Reorder | GenIpcStubs.py:256-273 | the reordering loop |
| StubGen.StubOrder | GenIpcStubs.py:256-273 | the reordered stub is `GenBuf`, the statements for now, log and call, the statements for later, and the return, each generated statement once |
| StubRun.StubRuns | GenIpcStubs.py:122-273 | every reordered stub runs to its end: the buffers of each kind are fetched in order; each is allocated once, filled before the call or written back after it at its own address and size, passed to the service with its size, and freed once; of the returned handles exactly those that are not null are sent, each under its own index within the built counts; data pointers stay in the built area; nothing is used before it is set |
| StubRun.HandleCounts | GenIpcStubs.py:211-226 | one handle for each output object and service, each in a temporary of its own that is an argument of the call |
| StubMessage.WritesApart | GenIpcStubs.py:122-254 | in the message that the stub's `GenBuf` builds, output fields, handles and result code never share a byte |
| StubMessage.HeaderUntouched | include/Ipc.hpp:20-27 | nothing that a stub writes touches the header, the descriptor or the magic |
| StubMessage.WritesInside | include/Ipc.hpp:20-27 | everything that a stub writes lies inside the buffer exactly when its data ends there, and the message can then be built and parsed |
| StubRun.BufferCounts | GenIpcStubs.py:122-210 | as many buffers are allocated as the signature has, and exactly the output ones are written back |

## Left out

- Instructions whose code departs from the manual beyond the conditions above: rotate and extract, signed high multiply, carry-in arithmetic, multiply-add, bit and byte reversal in 32 bits, BICS.
- Interpreter.Cpu.Mul2Reg: the signed variant is left out.
- Bitfield.BitfieldMove: BFM of a whole 64-bit register is outside the theorem, because the code shifts by the word width, which C++ does not define.
- Disassembler.DisasBitfield: the same field of 64 bits is excluded.
- Simd.DisasLdStMulti: each lane access is required to lie inside one segment, because the code reads past the storage of a segment otherwise.
- Pairwise.DisasAddp: the floating-point pairwise operations abort and are left out.
- Unallocated and unsupported encodings: a decoder method returns false instead of aborting.
- System registers, floating point, exclusives, barriers, single-structure vector accesses and the decode tables.
- GuestMemory.Memory.ReadFromRAM: watchpoint notification after an access is left out; it only sends a message.
- GuestMemory.Memory.WriteToRAM: the same notification is left out.
- GuestMemory.Memory.GetRawPtr: an access must be inside one segment's storage; the last byte of an inclusive region range has no storage and is outside the contract.
- GuestMemory.Memory.MirrorStack: the size is converted to a host int for the copy, as in the code; a failed allocation is left out.
- Shrinking the heap returns no region, as in the code; what that breaks is stated by `Regions.HeapStep`.
- GuestMemory.Memory.QueryRegion: the record that the system call stores in guest memory, other than the region it finds.
- GdbPacket.Stub.HandlePacket: the byte received is a parameter, and a command is recorded instead of executed; the command's own text format is left out. The running sum is unbounded, of which only the low eight bits are used.
- GdbPacket.Stub.SendMemory: a read of exactly 2048 bytes is outside the contract, because its digits leave no room for the terminator; reads of guest memory and registers into the buffer are left out.
- Messages about watchpoint hits.
- Ipc.IpcMessage.GenBuf: messages to domain objects and buffer descriptors are left out.
- Ipc.IpcMessage.ParseMessage: domain messages are left out. The process id keeps its lower word, as the field of the code does.
- Ipc.BuildThenParse: a message without handles is built over a second word of zero, which the code guarantees by clearing the reply buffer (Ipc.cpp:104-105).
- Ipc.IpcMessage.SetMove: the branch that numbers the objects of a domain is left out.
- StubGen.GenerateCaller: the C++ text of a statement, type names and log arguments are left out; a statement keeps its operands, offsets and sizes. Alignments of zero, which the generator divides by, are excluded. A copied input handle is looked up under the count of moved ones, as in the code, and nothing is claimed about it.
- The parsers of the interface definitions, file output and the service implementations.
- Sockets, host memory mapping, threads, printing and the loader.
