# rvemu decode/execute engine in Dafny

This project models the core of `rvemu`, a small emulator for a subset of the
RV32I base integer instruction set, written in Rust. It has three parts:

- **Format decoders** (`types.dfy`). These model `src/types.rs`. They extract
  the R-, I-, S- and U-type field records from a 32-bit instruction word by
  shifts and masks, with sign extension of the I- and S-immediates. Each
  extraction is paired with the layout of section 2.2 of the RISC-V
  Unprivileged ISA (version 20191213), written as an encoder. Both round trips
  are proved: encoding the extracted fields gives back the word, and
  extracting from the encoding of any valid record gives back the record.
- **Opcode dispatcher** (`decoder.dfy`, over the tagged union in
  `instruction.dfy`). This models `decode_instruction` in `src/decoder.rs`. It
  is a total classifier from words to `Ok(instruction)` or
  `Err(Unsupported)`. It is proved:
  - to invert the whole-instruction encoder, in both directions;
  - to accept exactly the listed groups and function codes;
  - to reject compressed encodings and the unimplemented groups;
  - to take its payload from the format decoder of the word's group;
  - to break the ADD/SUB, SRL/SRA and SRLI/SRAI ties on bit 30, after one
    correction listed under Findings.
- **Emulator state machine** (`emulator.dfy`). This models `src/emulator.rs`
  as a Dafny class that holds:
  - a 32-entry `array<u64>` register file, where x0 reads as zero;
  - a `pc`;
  - the byte memory.

  Its methods are `GetReg`, `SetReg`, `FetchInstruction`, `ExecuteInstruction`
  and `Run`. Each is proved against a value-level specification:
  `ReadReg`/`WriteReg`, `LoadWord`, `Execute` and `RunFrom`. Lemmas about that
  specification state what the source promises:
  - ADDI and ADD add modulo 2^64;
  - every other word changes nothing;
  - memory is never written and x0 is never stored into;
  - pc advances in steps of 4, and a run halts exactly when pc reaches the
    end of memory;
  - the `addi/addi/add` program leaves 10 in a0.

`bits.dfy` holds the machine-integer vocabulary shared by all three parts:
- `u8`, `u32`, `u64` and `i32`;
- `as i32` reinterpretation, sign extension to 64 bits and `wrapping_add`;
- a bitwise OR on naturals;
- the division and remainder facts that stand in for shifts and masks.

Instruction words are modelled as integers below 2^32:
- `(w >> k) & (2^n - 1)` is `(w / 2^k) % 2^n`;
- an arithmetic shift right of an `i32` is Dafny's flooring division;
- Rust's `|` is `BitOr`, proved equal to `+` when the operands' bits are
  disjoint.

Where the code is incomplete or departs from the RISC-V ISA, the model follows
the code, with one exception: the dispatcher's OP arm. It is modelled as
corrected (`Decoder.DecodeOp`, tie broken on word bit 30), because the code as
written reads bit 31 (see Findings). `Decoder.DecodeInstruction` and every
lemma about it describe the corrected dispatcher; their rows say
"(corrected)". The code as written is `Decoder.DecodeInstructionAsWritten`. It
is proved to accept the same words, fail the same way and carry the same
payloads, and to differ only in the ADD/SUB and SRL/SRA tag of OP words
(`Decoder.AsWrittenDiffersOnlyInTieBreak`); on every OP word it decides that
tag by bit 31 alone (`Decoder.TieBreaksOnBit31AsWritten`).

Points where the code is incomplete or departs from the ISA, and what the
model does:
- The emulator executes raw words and does not call the dispatcher.
- Its ADD does not look at funct7, so a SUB word is executed as ADD
  (`Emulator.ExecuteAdd`).
- Its fetch panics when the word at pc straddles the end of memory. The model
  makes this an explicit `FetchOutOfBounds` outcome, or `None` from
  `FetchInstruction`, rather than a crash.
- The OP arm ignores funct7 apart from its tie-break bit, and the
  shift-immediate arms ignore imm[11:5] apart from bit 10. So RV32M words and
  reserved shift encodings are not rejected but decode as base instructions:
  MUL 0x02b50533 decodes as ADD and DIV 0x02b54533 as XOR. The model follows
  the code (`Decoder.DecodeSucceedsIff`, `Decoder.MulDecodedAsAdd`), and
  `Decoder.WellFormed` constrains only the bits the dispatcher examines.
- The `Instruction` union is the full set of variants `decode_instruction`
  constructs (37), not the 12 that `src/instruction.rs` declares.
- `Btype`/`Jtype` are imported by the dispatcher but are not defined in
  `src/types.rs`. Their immediates follow section 2.3 of the ISA (figures 2.3
  and 2.4) and are not backed by source code. The dispatcher only reads their
  `funct3` (B) or nothing (J).

## Model

| member | source | states |
|---|---|---|
| Bits.ToI32 | src/types.rs:70 | `as i32` keeps the 32 bits (the result is congruent to the word modulo 2^32) and is negative exactly when bit 31 is set |
| Bits.ToU32 | src/types.rs:52 | the 32-bit pattern of an i32, on which the `|` of two i32 values acts; reading it back as an i32 gives the value again |
| Bits.SignExtend64 | src/emulator.rs:134 | `as i64 as u64` keeps the low 32 bits, is the value itself when non-negative and lies in the top 2^31 of u64 when negative |
| Bits.WrappingAdd | src/emulator.rs:169 | `wrapping_add` is the exact sum when below 2^64 and the sum minus 2^64 otherwise |
| Bits.BitOr | src/types.rs:52 | the OR is at least each operand and at most their sum |
| Bits.OrDisjoint | src/emulator.rs:102-107 | OR of a value below 2^k and a multiple of 2^k is their sum, so the shifted parts of a word combine without interference |
| Types.Opcode | src/decoder.rs:10 | the opcode field is below 0x80 |
| Types.RtypeFrom | src/types.rs:10-19 | every register index is below 32, funct3 below 8 and funct7 below 128 |
| Types.RtypeFromLosesNothing | src/types.rs:10-19 | the opcode and the five extracted fields, laid out as in section 2.2 of the ISA, rebuild the word |
| Types.RtypeFromEncode | src/types.rs:10-19 | extraction from the encoding of any valid R record gives back the record and the opcode |
| Types.ItypeFrom | src/types.rs:30-38 | imm lies in [-2048, 2047], its low 12 bits are word bits 31:20, and it is negative exactly when bit 31 is set |
| Types.ItypeFromLosesNothing | src/types.rs:30-38 | the extracted I fields and opcode rebuild the word |
| Types.ItypeFromEncode | src/types.rs:30-38 | extraction from the encoding of any valid I record gives back the record |
| Types.ItypeExample | src/types.rs:82-88 | 0x80152583 gives rd 11, funct3 2, rs1 10, imm -2047 |
| Types.StypeFrom | src/types.rs:49-57 | imm lies in [-2048, 2047], imm[4:0] are word bits 11:7, imm[11:5] are word bits 31:25, and it is negative exactly when bit 31 is set |
| Types.SImmParts | src/types.rs:52 | the two OR'd parts of the S immediate occupy disjoint bits, so the OR is their sum and fits in 32 bits |
| Types.StypeFromLosesNothing | src/types.rs:49-57 | the extracted S fields and opcode rebuild the word |
| Types.StypeFromEncode | src/types.rs:49-57 | extraction from the encoding of any valid S record gives back the record |
| Types.StypeFixedPoint | src/types.rs:49-57 | the S immediate is the only value in [-2048, 2047] whose two bit fields match the word's |
| Types.StypeExampleNegative | src/types.rs:91-96 | 0x80b520a3 gives imm -2047, funct3 2, rs1 10, rs2 11 |
| Types.StypeExamplePositive | src/types.rs:98-102 | 0x7eb52fa3 gives imm 2047, funct3 2, rs1 10, rs2 11 |
| Types.UtypeFrom | src/types.rs:66-73 | imm is a multiple of 4096 and equals the word with its low 12 bits cleared, modulo 2^32 |
| Types.UtypeFromLosesNothing | src/types.rs:66-73 | the extracted U fields and opcode rebuild the word |
| Types.UtypeFromEncode | src/types.rs:66-73 | extraction from the encoding of any valid U record gives back the record |
| Types.SignIsFunct7Bit6 | src/types.rs:17 | bit 6 of the extracted funct7 is set exactly when word bit 31, the sign bit, is set |
| Types.BImm | src/decoder.rs:171 | the B immediate built from the rd and funct7 chunks is even, lies in [-4096, 4094] and is negative exactly when funct7 bit 6 is set |
| Types.BImmScatter | src/decoder.rs:171 | laying a B immediate out again gives back the rd and funct7 chunks it was built from |
| Types.BImmGather | src/decoder.rs:171 | building the immediate from the chunks of any valid B immediate gives back that immediate |
| Types.BtypeFrom | src/decoder.rs:171 | the B immediate is even, lies in [-4096, 4094] and is negative exactly when bit 31 is set |
| Types.BtypeFromLosesNothing | src/decoder.rs:171 | the extracted B fields and opcode rebuild the word |
| Types.BtypeFromEncode | src/decoder.rs:171 | extraction from the encoding of any valid B record gives back the record |
| Types.JImm | src/decoder.rs:194 | the J immediate built from the funct3, rs1, rs2 and funct7 chunks is even, lies in [-2^20, 2^20 - 2] and is negative exactly when funct7 bit 6 is set |
| Types.JImmScatter | src/decoder.rs:194 | laying a J immediate out again gives back the four chunks it was built from |
| Types.JImmGather | src/decoder.rs:194 | building the immediate from the chunks of any valid J immediate gives back that immediate |
| Types.JtypeFrom | src/decoder.rs:194 | the J immediate is even, lies in [-2^20, 2^20 - 2] and is negative exactly when bit 31 is set |
| Types.JtypeFromLosesNothing | src/decoder.rs:194 | the extracted J fields and opcode rebuild the word |
| Types.JtypeFromEncode | src/decoder.rs:194 | extraction from the encoding of any valid J record gives back the record |
| Instructions.SrliSraiDifferOnlyInTag | src/instruction.rs:15-16 | SRLI and SRAI carry the same payload yet are never equal; each kind is equal to itself exactly when the payloads are equal |
| Decoder.Group | src/decoder.rs:12 | the opcode group, bits 6:2, is below 32 |
| Decoder.DecodeInstruction | src/decoder.rs:9-209 | (corrected) only a word whose low two bits are 11 can decode successfully |
| Decoder.DecodeLoad | src/decoder.rs:16-23 | the LOAD arm: funct3 000, 001, 010, 100, 101 give LB, LH, LW, LBU, LHU, anything else `Unsupported`; its contract is stated by DecodeLoadSound and DecodeLoadInverts |
| Decoder.ImmBit10 | src/decoder.rs:67 | `(imm >> 10) & 1` on the sign-extended immediate is 0 or 1; ImmBit10IsBit30 shows it is word bit 30 |
| Decoder.DecodeOpImm | src/decoder.rs:38-76 | the OP-IMM arm: every funct3 is accepted, 101 split by immediate bit 10; stated by DecodeOpImmSound and DecodeOpImmInverts |
| Decoder.DecodeStore | src/decoder.rs:91-96 | the STORE arm: funct3 000, 001, 010 give SB, SH, SW, anything else `Unsupported`; stated by DecodeStoreSound and DecodeStoreInverts |
| Decoder.Funct7Bit5 | src/decoder.rs:112-121 | (corrected) `(funct7 >> 5) & 1` is 0 or 1; Funct7Bit5IsBit30 shows it is word bit 30 |
| Decoder.DecodeOp | src/decoder.rs:111-132 | (corrected) the OP arm with the tie-break on funct7 bit 5; stated by DecodeOpSound, DecodeOpInverts and TieBreaksOnBit30 |
| Decoder.DecodeOpAsWritten | src/decoder.rs:111-132 | the OP arm as written, tie-break on funct7 bit 6 (word bit 31); stated by TieBreaksOnBit31AsWritten, SubDecodedAsAddAsWritten and AsWrittenNeverAlternate |
| Decoder.DecodeBranch | src/decoder.rs:172-180 | the BRANCH arm: funct3 010 and 011 are `Unsupported`, the other six give the six branches; stated by DecodeBranchSound and DecodeBranchInverts |
| Decoder.DecodeJalr | src/decoder.rs:184-190 | the JALR arm: only funct3 000 is accepted; stated by DecodeJalrSound and JalrRoundTrip |
| Decoder.DecodeInstructionAsWritten | src/decoder.rs:9-209 | the dispatcher as written, differing from the corrected one only in the OP arm; stated by AsWrittenDiffersOnlyInTieBreak |
| Decoder.AsWrittenDiffersOnlyInTieBreak | src/decoder.rs:9-209 | the dispatcher as written accepts exactly the words the corrected one accepts, fails identically, returns the same payload under the word's opcode, and differs only by ADD/SUB or SRL/SRA on an OP word |
| Decoder.AsWrittenSucceedsIff | src/decoder.rs:9-209 | the dispatcher as written decodes a word exactly when its low bits are 11 and its group and funct3 are accepted; every failure is `Unsupported` |
| Decoder.LoadGroup | src/decoder.rs:13-24 | opcode 0x03 is dispatched to the LOAD arm on the I-type fields |
| Decoder.OpImmGroup | src/decoder.rs:35-77 | opcode 0x13 is dispatched to the OP-IMM arm on the I-type fields |
| Decoder.AuipcGroup | src/decoder.rs:78-82 | opcode 0x17 always decodes to AUIPC of the U-type fields |
| Decoder.StoreGroup | src/decoder.rs:88-97 | opcode 0x23 is dispatched to the STORE arm on the S-type fields |
| Decoder.OpGroup | src/decoder.rs:108-133 | (corrected) opcode 0x33 is dispatched to the OP arm on the R-type fields |
| Decoder.LuiGroup | src/decoder.rs:134-138 | opcode 0x37 always decodes to LUI of the U-type fields |
| Decoder.BranchGroup | src/decoder.rs:169-181 | opcode 0x63 is dispatched to the BRANCH arm on the B-type fields |
| Decoder.JalrGroup | src/decoder.rs:182-191 | opcode 0x67 is dispatched to the JALR arm on the I-type fields |
| Decoder.JalGroup | src/decoder.rs:192-196 | opcode 0x6f always decodes to JAL of the J-type fields |
| Decoder.OtherGroupsRejected | src/decoder.rs:197-207 | every opcode outside the nine implemented ones yields `Err(Unsupported)` |
| Decoder.DecodeLoadSound | src/decoder.rs:16-23 | whatever the LOAD arm returns is well-formed, carries the given I record and belongs to opcode 0x03 |
| Decoder.DecodeOpImmSound | src/decoder.rs:38-76 | whatever the OP-IMM arm returns is well-formed, carries the given I record and belongs to opcode 0x13 |
| Decoder.DecodeStoreSound | src/decoder.rs:91-96 | whatever the STORE arm returns is well-formed, carries the given S record and belongs to opcode 0x23 |
| Decoder.DecodeOpSound | src/decoder.rs:111-132 | whatever the (corrected) OP arm returns is well-formed, carries the given R record and belongs to opcode 0x33 |
| Decoder.DecodeBranchSound | src/decoder.rs:172-180 | whatever the BRANCH arm returns is well-formed, carries the given B record and belongs to opcode 0x63 |
| Decoder.DecodeJalrSound | src/decoder.rs:184-190 | whatever the JALR arm returns is well-formed, carries the given I record and belongs to opcode 0x67 |
| Decoder.DecodeLoadInverts | src/decoder.rs:16-23 | the LOAD arm maps the record of each well-formed LB, LH, LW, LBU or LHU back to that instruction |
| Decoder.DecodeOpImmInverts | src/decoder.rs:38-76 | the OP-IMM arm maps the record of each well-formed OP-IMM instruction back to that instruction |
| Decoder.DecodeStoreInverts | src/decoder.rs:91-96 | the STORE arm maps the record of each well-formed SB, SH or SW back to that instruction |
| Decoder.DecodeOpInverts | src/decoder.rs:111-132 | the (corrected) OP arm maps the record of each well-formed OP instruction back to that instruction |
| Decoder.DecodeBranchInverts | src/decoder.rs:172-180 | the BRANCH arm maps the record of each well-formed branch back to that instruction |
| Decoder.LoadRoundTrip | src/decoder.rs:13-24 | the encoding of any valid I record under opcode 0x03 fits in 32 bits and reaches the LOAD arm with the same record |
| Decoder.OpImmRoundTrip | src/decoder.rs:35-77 | the encoding of any valid I record under opcode 0x13 fits in 32 bits and reaches the OP-IMM arm with the same record |
| Decoder.JalrRoundTrip | src/decoder.rs:182-191 | the encoding of any valid I record under opcode 0x67 fits in 32 bits and reaches the JALR arm with the same record |
| Decoder.StoreRoundTrip | src/decoder.rs:88-97 | the encoding of any valid S record under opcode 0x23 fits in 32 bits and reaches the STORE arm with the same record |
| Decoder.OpRoundTrip | src/decoder.rs:108-133 | (corrected) the encoding of any valid R record under opcode 0x33 fits in 32 bits and reaches the OP arm with the same record |
| Decoder.BranchRoundTrip | src/decoder.rs:169-181 | the encoding of any valid B record under opcode 0x63 fits in 32 bits and reaches the BRANCH arm with the same record |
| Decoder.UpperRoundTrip | src/decoder.rs:78-82 | the encoding of any valid U record under opcode 0x17 or 0x37 decodes to AUIPC or LUI of that record |
| Decoder.JalRoundTrip | src/decoder.rs:192-196 | the encoding of any valid J record under opcode 0x6f decodes to JAL of that record |
| Decoder.DecodeEncodeLoad | src/decoder.rs:13-24 | every well-formed load decodes from its own encoding |
| Decoder.DecodeEncodeOpImm | src/decoder.rs:35-77 | every well-formed OP-IMM instruction decodes from its own encoding |
| Decoder.DecodeEncodeStore | src/decoder.rs:88-97 | every well-formed store decodes from its own encoding |
| Decoder.DecodeEncodeOp | src/decoder.rs:108-133 | (corrected) every well-formed OP instruction decodes from its own encoding |
| Decoder.DecodeEncodeBranch | src/decoder.rs:169-181 | every well-formed branch decodes from its own encoding |
| Decoder.DecodeEncode | src/decoder.rs:9-209 | (corrected) every well-formed instruction is decoded from its own encoding, and that encoding fits in 32 bits |
| Decoder.EncodeDecode | src/decoder.rs:9-209 | (corrected) every accepted word decodes to a well-formed instruction whose encoding is the word itself |
| Decoder.DecodeSucceedsIff | src/decoder.rs:9-209 | (corrected) a word decodes exactly when its low bits are 11 and its group and funct3 are accepted (LOAD {0,1,2,4,5}, STORE {0,1,2}, BRANCH all but {2,3}, JALR {0}, OP-IMM, OP, AUIPC, LUI, JAL); every failure is `Unsupported` |
| Decoder.UnsupportedGroupsRejected | src/decoder.rs:25-205 | LOAD-FP, MISC-MEM, OP-IMM-32, STORE-FP, AMO, OP-32, MADD, MSUB, NMSUB, NMADD, OP-FP and SYSTEM yield `Err(Unsupported)` |
| Decoder.Funct7Bit5IsBit30 | src/types.rs:17 | bit 5 of the extracted funct7 is word bit 30 |
| Decoder.ImmBit10IsBit30 | src/decoder.rs:67 | bit 10 of the sign-extended I immediate is word bit 30 |
| Decoder.TieBreaksOnBit30 | src/decoder.rs:67-125 | (corrected) in OP, funct3 000 gives ADD or SUB and funct3 101 gives SRL or SRA; in OP-IMM, funct3 101 gives SRLI or SRAI; bit 30 alone chooses |
| Decoder.DecodePayload | src/decoder.rs:9-209 | (corrected) on success the payload is the group's format decoder applied to the same word (I for LOAD, OP-IMM, JALR; S for STORE; R for OP; U for AUIPC, LUI; B for BRANCH; J for JAL) |
| Decoder.DecodeExamples | src/decoder.rs:216-228 | 0x00457593, 0x00256613 and 0x00a54693 decode to ANDI, ORI and XORI of their own I fields |
| Decoder.SubDecodedAsAddAsWritten | src/decoder.rs:112-116 | the OP arm, and the whole dispatcher, as written return ADD for the well-formed SUB word 0x40b50533 |
| Decoder.AsWrittenNeverAlternate | src/decoder.rs:112-125 | with bit 31 clear, the OP arm as written never returns SUB or SRA |
| Decoder.MulDecodedAsAdd | src/decoder.rs:108-133 | the RV32M word `mul a0,a0,a1` (funct7 0000001) is not rejected: both the corrected dispatcher and the one as written return ADD of its fields |
| Decoder.SubDecodedAsSub | src/decoder.rs:112-116 | the corrected dispatcher returns SUB for 0x40b50533 |
| Decoder.AsWrittenSubForBit31 | src/decoder.rs:112-114 | for 0x80b50533 (funct7 1000000, bit 30 clear) the dispatcher as written returns SUB where the corrected one returns ADD |
| Decoder.TieBreaksOnBit31AsWritten | src/decoder.rs:111-132 | for every OP word, the dispatcher as written returns ADD for funct3 000 and SRL for 101 when bit 31 is clear, and SUB and SRA when it is set |
| Emulator.ReadReg | src/emulator.rs:88-94 | register 0 always reads 0, whatever is stored in its slot |
| Emulator.WriteReg | src/emulator.rs:96-100 | a write changes no register other than its target, and never changes x0 |
| Emulator.ReadAfterWrite | src/emulator.rs:88-100 | reading after a write gives the written value, except in x0, which reads 0; every other register reads as before |
| Emulator.LoadWord | src/emulator.rs:102-107 | the little-endian word at an address, lowest address in the least significant byte; its contract is stated by LoadWordBytes |
| Emulator.LoadWordBytes | src/emulator.rs:102-107 | byte i of the fetched word is the byte at pc + i (little-endian, nothing lost) |
| Emulator.Execute | src/emulator.rs:109-224 | executing a word never changes pc, memory or the stored x0 |
| Emulator.ExecuteAddi | src/emulator.rs:128-139 | ADDI writes (rs1 + signed imm) mod 2^64 to rd through the register write, so rd = 0 is discarded |
| Emulator.ExecuteAdd | src/emulator.rs:163-175 | ADD writes (rs1 + rs2) mod 2^64 to rd, whatever funct7 holds |
| Emulator.ExecuteOtherwiseNoEffect | src/emulator.rs:109-224 | every word other than ADDI or ADD with funct3 000 leaves the state unchanged |
| Emulator.AddWrapsToZero | src/emulator.rs:169 | adding 1 to 0xFFFF_FFFF_FFFF_FFFF gives 0 without faulting |
| Emulator.Step | src/emulator.rs:231-233 | one loop turn advances pc by exactly 4 and keeps memory and x0 |
| Emulator.RunFrom | src/emulator.rs:226-235 | the loop of `run`: the final state is valid, memory is never written and the stored x0 never changes |
| Emulator.RunFromAdvancesPc | src/emulator.rs:226-235 | pc only moves forward, by exactly 4 on every turn of the loop: the final pc is the start pc plus 4 times the number of turns |
| Emulator.RunFromOutcome | src/emulator.rs:226-235 | a run halts exactly when pc has reached the end of memory, and faults only at a pc whose word straddles the end |
| Emulator.RunFromAlignedHalts | src/emulator.rs:226-235 | with a memory length that is a multiple of 4 and an aligned pc, the run halts with pc equal to the length |
| Emulator.Initial | src/emulator.rs:80-86 | a new emulator has every register reading 0, pc 0 and the given memory |
| Emulator.AddiAddProgram | src/emulator.rs:243-254 | the program `addi a0,x0,6; addi a1,x0,4; add a0,a0,a1` halts with a0 = 10 |
| Emulator.AddiAddWords | src/emulator.rs:244-248 | the program's bytes form the little-endian words 0x00600513, 0x00400593 and 0x00b50533 |
| Emulator.AddiAddFields | src/emulator.rs:245-247 | those words are `addi a0,x0,6`, `addi a1,x0,4` and `add a0,a0,a1` |
| Emulator.Emulator.constructor | src/emulator.rs:80-86 | the new object's state is `Initial(memory)` |
| Emulator.Emulator.GetReg | src/emulator.rs:88-94 | register 0 reads 0; any other register reads its stored value |
| Emulator.Emulator.SetReg | src/emulator.rs:96-100 | the register file becomes `WriteReg` of the old one, keeping the invariant |
| Emulator.Emulator.FetchInstruction | src/emulator.rs:102-107 | the OR of the four shifted bytes is `LoadWord` at pc, or `None` where the source indexes past the end |
| Emulator.Emulator.ExecuteInstruction | src/emulator.rs:109-224 | the new state is `Execute` of the old state and the word |
| Emulator.Emulator.Run | src/emulator.rs:226-235 | the final state and outcome are `RunFrom` of the initial state, and memory is unchanged |
| Emulator.AddiAddTest | src/emulator.rs:243-254 | `test_addi_add` stated against the class: after `Run`, register a0 reads 10 and the run halted |

## Left out

- `src/main.rs`: argument parsing and reading the program file are I/O.
- All `println!` diagnostics, including the ">32b instruction" warning at the
  top of `execute_instruction`: they only log.
- The private copies of the format records in `src/emulator.rs:1-69`. They
  are the same as `src/types.rs` and are modelled once.
- `test_auipc_lw`. The shown `execute_instruction` does not execute AUIPC or
  LW, so the test's expectation does not hold against this code.
- Execution semantics of every instruction other than ADDI and ADD. No code
  defines them, so they are only decoded.
- Emulator.Emulator.FetchInstruction: models the out-of-bounds panic as
  `None`, and `Run` turns it into a `FetchOutOfBounds` outcome instead of a
  crash.
- Emulator.Emulator: the source's fields are public, so a caller could store
  a non-zero value into `regs[0]`. The class invariant requires that x0's storage
  stays 0, which the constructor and `SetReg` guarantee.
- Emulator.MAX_MEMORY: memory is bounded by the largest `Vec<u8>`
  (isize::MAX bytes). This rules out the u64 overflow of `pc + 4` that Rust
  could otherwise hit.
- Emulator.ReadReg, Emulator.WriteReg, Emulator.Emulator.GetReg,
  Emulator.Emulator.SetReg: require a register number below 32. Rust's
  `getreg`/`setreg` would panic on a larger non-zero index, but every caller
  passes a 5-bit field, so that panic cannot be reached and is not modelled.
- `Debug` formatting derived on the records and the instruction union.

## Findings

| source | as written | input that shows it | evidently intended | confidence | as-written member | corrected member |
|---|---|---|---|---|---|---|
| src/decoder.rs:112-125 | the OP arm picks ADD/SUB and SRL/SRA by `(funct7 >> 6) & 1`, which is word bit 31 | `sub a0,a0,a1` = 0x40b50533 (funct7 0100000) decodes as `Add` | `(funct7 >> 5) & 1`, word bit 30, as the OP-IMM arm does with `imm >> 10` (section 2.4 of the RISC-V Unprivileged ISA) | high, not executed | Decoder.SubDecodedAsAddAsWritten | Decoder.SubDecodedAsSub |
