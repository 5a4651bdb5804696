/** The opcode dispatcher: classifies a 32-bit word by its opcode group
    (bits 6:2, the base opcode map of chapter 24 of the RISC-V Unprivileged
    ISA) and its function-select fields into one `Instruction`, or reports
    that the encoding is unsupported. */
module Decoder {
  import opened Bits
  import opened Types
  import opened Instructions

  datatype DecodingError = Unsupported

  datatype DecodeResult = Ok(inst: Instruction) | Err(error: DecodingError)

  // Major opcode groups, bits 6:2 (the base opcode map of chapter 24).
  const LOAD: nat := 0x00
  const LOAD_FP: nat := 0x01
  const MISC_MEM: nat := 0x03
  const OP_IMM: nat := 0x04
  const AUIPC: nat := 0x05
  const OP_IMM_32: nat := 0x06
  const STORE: nat := 0x08
  const STORE_FP: nat := 0x09
  const AMO: nat := 0x0b
  const OP: nat := 0x0c
  const LUI: nat := 0x0d
  const OP_32: nat := 0x0e
  const MADD: nat := 0x10
  const MSUB: nat := 0x11
  const NMSUB: nat := 0x12
  const NMADD: nat := 0x13
  const OP_FP: nat := 0x14
  const BRANCH: nat := 0x18
  const JALR: nat := 0x19
  const JAL: nat := 0x1b
  const SYSTEM: nat := 0x1c

  /** The major opcode group, bits 6:2 of the word. */
  function Group(w: u32): (g: nat)
    ensures g < 0x20
  {
    Opcode(w) / 4
  }

  function DecodeInstruction(w: u32): (r: DecodeResult)
    ensures r.Ok? ==> Opcode(w) % 4 == 3
  {
    var opcode := Opcode(w);
    match opcode % 4
    case 3 =>
      (match opcode / 4
       case 0x00 => DecodeLoad(ItypeFrom(w))      // LOAD
       case 0x04 => DecodeOpImm(ItypeFrom(w))     // OP-IMM
       case 0x05 => Ok(Auipc(UtypeFrom(w)))       // AUIPC
       case 0x08 => DecodeStore(StypeFrom(w))     // STORE
       case 0x0c => DecodeOp(RtypeFrom(w))        // OP
       case 0x0d => Ok(Lui(UtypeFrom(w)))         // LUI
       case 0x18 => DecodeBranch(BtypeFrom(w))    // BRANCH
       case 0x19 => DecodeJalr(ItypeFrom(w))      // JALR
       case 0x1b => Ok(Jal(JtypeFrom(w)))         // JAL
       // LOAD-FP, MISC-MEM, OP-IMM-32, STORE-FP, AMO, OP-32, MADD, MSUB,
       // NMSUB, NMADD, OP-FP, SYSTEM and every unlisted group
       case _ => Err(Unsupported))
    case _ => Err(Unsupported)                    // compressed encoding
  }

  function DecodeLoad(x: Itype): (r: DecodeResult)
  {
    match x.funct3 % 8
    case 0 => Ok(Lb(x))
    case 1 => Ok(Lh(x))
    case 2 => Ok(Lw(x))
    case 4 => Ok(Lbu(x))
    case 5 => Ok(Lhu(x))
    case _ => Err(Unsupported)
  }

  /** Bit 10 of an I-type immediate, read by an arithmetic shift right by 10
      and a mask with 1; for a shift-by-immediate it is bit 30 of the word. */
  function ImmBit10(imm: int): (b: nat)
    ensures b < 2
  {
    (imm / 0x400) % 2
  }

  function DecodeOpImm(x: Itype): (r: DecodeResult)
    requires x.Valid()
  {
    match x.funct3
    case 0 => Ok(Addi(x))
    case 2 => Ok(Slti(x))
    case 3 => Ok(Sltiu(x))
    case 4 => Ok(Xori(x))
    case 6 => Ok(Ori(x))
    case 7 => Ok(Andi(x))
    case 1 => Ok(Slli(x))
    case 5 =>
      (match ImmBit10(x.imm)
       case 0 => Ok(Srli(x))
       case 1 => Ok(Srai(x))
       case _ => assert false; Err(Unsupported))
    case _ => assert false; Err(Unsupported)
  }

  function DecodeStore(x: Stype): (r: DecodeResult)
  {
    match x.funct3 % 8
    case 0 => Ok(Sb(x))
    case 1 => Ok(Sh(x))
    case 2 => Ok(Sw(x))
    case _ => Err(Unsupported)
  }

  /** Bit 5 of funct7, which is bit 30 of the word: the bit that tells SUB
      from ADD and SRA from SRL. */
  function Funct7Bit5(funct7: nat): (b: nat)
    ensures b < 2
  {
    (funct7 / 0x20) % 2
  }

  /** The OP group with the tie-breaking bit read where the ISA puts it. */
  function DecodeOp(x: Rtype): (r: DecodeResult)
    requires x.Valid()
  {
    match x.funct3
    case 0 =>
      (match Funct7Bit5(x.funct7)
       case 0 => Ok(Add(x))
       case 1 => Ok(Sub(x))
       case _ => assert false; Err(Unsupported))
    case 1 => Ok(Sll(x))
    case 2 => Ok(Slt(x))
    case 3 => Ok(Sltu(x))
    case 4 => Ok(Xor(x))
    case 5 =>
      (match Funct7Bit5(x.funct7)
       case 0 => Ok(Srl(x))
       case 1 => Ok(Sra(x))
       case _ => assert false; Err(Unsupported))
    case 6 => Ok(Or(x))
    case 7 => Ok(And(x))
    case _ => assert false; Err(Unsupported)
  }

  /** The OP group exactly as written, testing `(funct7 >> 6) & 1`: bit 6 of
      funct7, which is bit 31 of the word. */
  function DecodeOpAsWritten(x: Rtype): (r: DecodeResult)
    requires x.Valid()
  {
    match x.funct3
    case 0 =>
      (match (x.funct7 / 0x40) % 2
       case 0 => Ok(Add(x))
       case 1 => Ok(Sub(x))
       case _ => assert false; Err(Unsupported))
    case 1 => Ok(Sll(x))
    case 2 => Ok(Slt(x))
    case 3 => Ok(Sltu(x))
    case 4 => Ok(Xor(x))
    case 5 =>
      (match (x.funct7 / 0x40) % 2
       case 0 => Ok(Srl(x))
       case 1 => Ok(Sra(x))
       case _ => assert false; Err(Unsupported))
    case 6 => Ok(Or(x))
    case 7 => Ok(And(x))
    case _ => assert false; Err(Unsupported)
  }

  function DecodeBranch(x: Btype): (r: DecodeResult)
  {
    match x.funct3
    case 0 => Ok(Beq(x))
    case 1 => Ok(Bne(x))
    case 4 => Ok(Blt(x))
    case 5 => Ok(Bge(x))
    case 6 => Ok(Bltu(x))
    case 7 => Ok(Bgeu(x))
    case _ => Err(Unsupported)
  }

  function DecodeJalr(x: Itype): (r: DecodeResult)
  {
    match x.funct3
    case 0 => Ok(Jalr(x))
    case _ => Err(Unsupported)
  }

  // ------------------------------------------------------------ specification

  /** An instruction the dispatcher can produce: its payload is in range and
      the function-select bits the dispatcher examines hold the values it maps
      to that mnemonic. Bits it ignores (funct7 of OP apart from the tie-break
      bit, imm[11:5] of a shift apart from bit 10) may hold anything. */
  predicate WellFormed(inst: Instruction)
  {
    && PayloadOf(inst).Valid()
    && match inst
       case Lb(x) => x.funct3 == 0
       case Lh(x) => x.funct3 == 1
       case Lw(x) => x.funct3 == 2
       case Lbu(x) => x.funct3 == 4
       case Lhu(x) => x.funct3 == 5
       case Addi(x) => x.funct3 == 0
       case Slti(x) => x.funct3 == 2
       case Sltiu(x) => x.funct3 == 3
       case Xori(x) => x.funct3 == 4
       case Ori(x) => x.funct3 == 6
       case Andi(x) => x.funct3 == 7
       case Slli(x) => x.funct3 == 1
       case Srli(x) => x.funct3 == 5 && ImmBit10(x.imm) == 0
       case Srai(x) => x.funct3 == 5 && ImmBit10(x.imm) == 1
       case Auipc(_) => true
       case Sb(x) => x.funct3 == 0
       case Sh(x) => x.funct3 == 1
       case Sw(x) => x.funct3 == 2
       case Add(x) => x.funct3 == 0 && Funct7Bit5(x.funct7) == 0
       case Sub(x) => x.funct3 == 0 && Funct7Bit5(x.funct7) == 1
       case Sll(x) => x.funct3 == 1
       case Slt(x) => x.funct3 == 2
       case Sltu(x) => x.funct3 == 3
       case Xor(x) => x.funct3 == 4
       case Srl(x) => x.funct3 == 5 && Funct7Bit5(x.funct7) == 0
       case Sra(x) => x.funct3 == 5 && Funct7Bit5(x.funct7) == 1
       case Or(x) => x.funct3 == 6
       case And(x) => x.funct3 == 7
       case Lui(_) => true
       case Beq(x) => x.funct3 == 0
       case Bne(x) => x.funct3 == 1
       case Blt(x) => x.funct3 == 4
       case Bge(x) => x.funct3 == 5
       case Bltu(x) => x.funct3 == 6
       case Bgeu(x) => x.funct3 == 7
       case Jalr(x) => x.funct3 == 0
       case Jal(_) => true
  }

  /** The full 7-bit opcode the ISA assigns to an instruction's group. */
  function OpcodeOf(inst: Instruction): (op: nat)
    ensures op < 0x80 && op % 4 == 3
  {
    match inst
    case Lb(_) => 0x03  case Lh(_) => 0x03  case Lw(_) => 0x03  case Lbu(_) => 0x03  case Lhu(_) => 0x03
    case Addi(_) => 0x13  case Slti(_) => 0x13  case Sltiu(_) => 0x13  case Xori(_) => 0x13
    case Ori(_) => 0x13  case Andi(_) => 0x13  case Slli(_) => 0x13  case Srli(_) => 0x13
    case Srai(_) => 0x13
    case Auipc(_) => 0x17
    case Sb(_) => 0x23  case Sh(_) => 0x23  case Sw(_) => 0x23
    case Add(_) => 0x33  case Sub(_) => 0x33  case Sll(_) => 0x33  case Slt(_) => 0x33
    case Sltu(_) => 0x33  case Xor(_) => 0x33  case Srl(_) => 0x33  case Sra(_) => 0x33
    case Or(_) => 0x33  case And(_) => 0x33
    case Lui(_) => 0x37
    case Beq(_) => 0x63  case Bne(_) => 0x63  case Blt(_) => 0x63  case Bge(_) => 0x63
    case Bltu(_) => 0x63  case Bgeu(_) => 0x63
    case Jalr(_) => 0x67
    case Jal(_) => 0x6f
  }

  /** The ISA's encoding of an instruction: its payload laid out in its
      format, under its group's opcode. */
  function Encode(inst: Instruction): (w: nat)
  {
    match PayloadOf(inst)
    case R(x) => EncodeR(x, OpcodeOf(inst))
    case I(x) => EncodeI(x, OpcodeOf(inst))
    case S(x) => EncodeS(x, OpcodeOf(inst))
    case U(x) => EncodeU(x, OpcodeOf(inst))
    case B(x) => EncodeB(x, OpcodeOf(inst))
    case J(x) => EncodeJ(x, OpcodeOf(inst))
  }

  /** Decoding inverts encoding: every well-formed instruction is decoded
      from its own encoding. */
  lemma DecodeEncode(inst: Instruction)
    requires WellFormed(inst)
    ensures Encode(inst) < TWO_32
    ensures DecodeInstruction(Encode(inst)) == Ok(inst)
  {
    match OpcodeOf(inst)
    case 0x03 => DecodeEncodeLoad(inst);
    case 0x13 => DecodeEncodeOpImm(inst);
    case 0x23 => DecodeEncodeStore(inst);
    case 0x33 => DecodeEncodeOp(inst);
    case 0x63 => DecodeEncodeBranch(inst);
    case 0x17 => UpperRoundTrip(inst.u, 0x17);
    case 0x37 => UpperRoundTrip(inst.u, 0x37);
    case 0x67 =>
      assert inst.Jalr? && Encode(inst) == EncodeI(inst.i, 0x67);
      JalrRoundTrip(inst.i, Encode(inst));
    case 0x6f => JalRoundTrip(inst.j);
  }

  /** The LOAD mnemonics carry an I-type payload under opcode 0x03. */
  lemma LoadShape(inst: Instruction)
    requires inst.Lb? || inst.Lh? || inst.Lw? || inst.Lbu? || inst.Lhu?
    ensures PayloadOf(inst) == I(inst.i) && OpcodeOf(inst) == 0x03
  {
  }

  lemma DecodeEncodeLoad(inst: Instruction)
    requires WellFormed(inst)
    requires inst.Lb? || inst.Lh? || inst.Lw? || inst.Lbu? || inst.Lhu?
    ensures Encode(inst) < TWO_32
    ensures DecodeInstruction(Encode(inst)) == Ok(inst)
  {
    LoadShape(inst);
    assert inst.i.Valid() && Encode(inst) == EncodeI(inst.i, 0x03);
    DecodeLoadInverts(inst);
    LoadRoundTrip(inst.i, Encode(inst));
  }

  /** The sub-decoder maps each well-formed payload back to its mnemonic. */
  lemma DecodeLoadInverts(inst: Instruction)
    requires WellFormed(inst)
    requires inst.Lb? || inst.Lh? || inst.Lw? || inst.Lbu? || inst.Lhu?
    ensures DecodeLoad(inst.i) == Ok(inst)
  {
  }

  /** The OP-IMM mnemonics carry an I-type payload under opcode 0x13. */
  lemma OpImmShape(inst: Instruction)
    requires inst.Addi? || inst.Slti? || inst.Sltiu? || inst.Xori? || inst.Ori?
             || inst.Andi? || inst.Slli? || inst.Srli? || inst.Srai?
    ensures PayloadOf(inst) == I(inst.i) && OpcodeOf(inst) == 0x13
  {
  }

  lemma DecodeEncodeOpImm(inst: Instruction)
    requires WellFormed(inst)
    requires inst.Addi? || inst.Slti? || inst.Sltiu? || inst.Xori? || inst.Ori?
             || inst.Andi? || inst.Slli? || inst.Srli? || inst.Srai?
    ensures Encode(inst) < TWO_32
    ensures DecodeInstruction(Encode(inst)) == Ok(inst)
  {
    OpImmShape(inst);
    assert inst.i.Valid() && Encode(inst) == EncodeI(inst.i, 0x13);
    DecodeOpImmInverts(inst);
    OpImmRoundTrip(inst.i, Encode(inst));
  }

  /** The sub-decoder maps each well-formed payload back to its mnemonic. */
  lemma DecodeOpImmInverts(inst: Instruction)
    requires WellFormed(inst)
    requires inst.Addi? || inst.Slti? || inst.Sltiu? || inst.Xori? || inst.Ori?
             || inst.Andi? || inst.Slli? || inst.Srli? || inst.Srai?
    ensures DecodeOpImm(inst.i) == Ok(inst)
  {
  }

  /** The STORE mnemonics carry an S-type payload under opcode 0x23. */
  lemma StoreShape(inst: Instruction)
    requires inst.Sb? || inst.Sh? || inst.Sw?
    ensures PayloadOf(inst) == S(inst.s) && OpcodeOf(inst) == 0x23
  {
  }

  lemma DecodeEncodeStore(inst: Instruction)
    requires WellFormed(inst)
    requires inst.Sb? || inst.Sh? || inst.Sw?
    ensures Encode(inst) < TWO_32
    ensures DecodeInstruction(Encode(inst)) == Ok(inst)
  {
    StoreShape(inst);
    assert inst.s.Valid() && Encode(inst) == EncodeS(inst.s, 0x23);
    DecodeStoreInverts(inst);
    StoreRoundTrip(inst.s, Encode(inst));
  }

  /** The sub-decoder maps each well-formed payload back to its mnemonic. */
  lemma DecodeStoreInverts(inst: Instruction)
    requires WellFormed(inst)
    requires inst.Sb? || inst.Sh? || inst.Sw?
    ensures DecodeStore(inst.s) == Ok(inst)
  {
  }

  /** The OP mnemonics carry an R-type payload under opcode 0x33. */
  lemma OpShape(inst: Instruction)
    requires inst.Add? || inst.Sub? || inst.Sll? || inst.Slt? || inst.Sltu? || inst.Xor?
             || inst.Srl? || inst.Sra? || inst.Or? || inst.And?
    ensures PayloadOf(inst) == R(inst.r) && OpcodeOf(inst) == 0x33
  {
  }

  lemma DecodeEncodeOp(inst: Instruction)
    requires WellFormed(inst)
    requires inst.Add? || inst.Sub? || inst.Sll? || inst.Slt? || inst.Sltu? || inst.Xor?
             || inst.Srl? || inst.Sra? || inst.Or? || inst.And?
    ensures Encode(inst) < TWO_32
    ensures DecodeInstruction(Encode(inst)) == Ok(inst)
  {
    OpShape(inst);
    assert inst.r.Valid() && Encode(inst) == EncodeR(inst.r, 0x33);
    DecodeOpInverts(inst);
    OpRoundTrip(inst.r, Encode(inst));
  }

  /** The sub-decoder maps each well-formed payload back to its mnemonic. */
  lemma DecodeOpInverts(inst: Instruction)
    requires WellFormed(inst)
    requires inst.Add? || inst.Sub? || inst.Sll? || inst.Slt? || inst.Sltu? || inst.Xor?
             || inst.Srl? || inst.Sra? || inst.Or? || inst.And?
    ensures DecodeOp(inst.r) == Ok(inst)
  {
  }

  /** The BRANCH mnemonics carry a B-type payload under opcode 0x63. */
  lemma BranchShape(inst: Instruction)
    requires inst.Beq? || inst.Bne? || inst.Blt? || inst.Bge? || inst.Bltu? || inst.Bgeu?
    ensures PayloadOf(inst) == B(inst.b) && OpcodeOf(inst) == 0x63
  {
  }

  lemma DecodeEncodeBranch(inst: Instruction)
    requires WellFormed(inst)
    requires inst.Beq? || inst.Bne? || inst.Blt? || inst.Bge? || inst.Bltu? || inst.Bgeu?
    ensures Encode(inst) < TWO_32
    ensures DecodeInstruction(Encode(inst)) == Ok(inst)
  {
    BranchShape(inst);
    assert inst.b.Valid() && Encode(inst) == EncodeB(inst.b, 0x63);
    DecodeBranchInverts(inst);
    BranchRoundTrip(inst.b, Encode(inst));
  }

  /** The sub-decoder maps each well-formed payload back to its mnemonic. */
  lemma DecodeBranchInverts(inst: Instruction)
    requires WellFormed(inst)
    requires inst.Beq? || inst.Bne? || inst.Blt? || inst.Bge? || inst.Bltu? || inst.Bgeu?
    ensures DecodeBranch(inst.b) == Ok(inst)
  {
  }

  // Each group's encoding of a valid payload is decoded by that group's
  // sub-decoder applied to the same payload.

  lemma LoadRoundTrip(x: Itype, w: nat)
    requires x.Valid() && w == EncodeI(x, 0x03)
    ensures w < TWO_32 && DecodeInstruction(w) == DecodeLoad(x)
  {
    ItypeFromEncode(x, 0x03);
    LoadGroup(w);
  }

  lemma OpImmRoundTrip(x: Itype, w: nat)
    requires x.Valid() && w == EncodeI(x, 0x13)
    ensures w < TWO_32 && DecodeInstruction(w) == DecodeOpImm(x)
  {
    ItypeFromEncode(x, 0x13);
    OpImmGroup(w);
  }

  lemma JalrRoundTrip(x: Itype, w: nat)
    requires x.Valid() && w == EncodeI(x, 0x67)
    ensures w < TWO_32 && DecodeInstruction(w) == DecodeJalr(x)
  {
    ItypeFromEncode(x, 0x67);
    JalrGroup(w);
  }

  lemma StoreRoundTrip(x: Stype, w: nat)
    requires x.Valid() && w == EncodeS(x, 0x23)
    ensures w < TWO_32 && DecodeInstruction(w) == DecodeStore(x)
  {
    StypeFromEncode(x, 0x23);
    StoreGroup(w);
  }

  lemma OpRoundTrip(x: Rtype, w: nat)
    requires x.Valid() && w == EncodeR(x, 0x33)
    ensures w < TWO_32 && DecodeInstruction(w) == DecodeOp(x)
  {
    RtypeFromEncode(x, 0x33);
    OpGroup(w);
  }

  lemma BranchRoundTrip(x: Btype, w: nat)
    requires x.Valid() && w == EncodeB(x, 0x63)
    ensures w < TWO_32 && DecodeInstruction(w) == DecodeBranch(x)
  {
    BtypeFromEncode(x, 0x63);
    BranchGroup(w);
  }

  lemma UpperRoundTrip(x: Utype, op: nat)
    requires x.Valid() && op in {0x17, 0x37}
    ensures EncodeU(x, op) < TWO_32
    ensures DecodeInstruction(EncodeU(x, op)) == Ok(if op == 0x17 then Auipc(x) else Lui(x))
  {
    UtypeFromEncode(x, op);
    if op == 0x17 {
      AuipcGroup(EncodeU(x, op));
    } else {
      LuiGroup(EncodeU(x, op));
    }
  }

  lemma JalRoundTrip(x: Jtype)
    requires x.Valid()
    ensures EncodeJ(x, 0x6f) < TWO_32 && DecodeInstruction(EncodeJ(x, 0x6f)) == Ok(Jal(x))
  {
    JtypeFromEncode(x, 0x6f);
    JalGroup(EncodeJ(x, 0x6f));
  }

  // ------------------------------------------------------------ by group

  // Which arm of the dispatcher a word with a given 7-bit opcode reaches.

  lemma LoadGroup(w: u32)
    requires Opcode(w) == 0x03
    ensures DecodeInstruction(w) == DecodeLoad(ItypeFrom(w))
  {
    assert Opcode(w) % 4 == 3 && Opcode(w) / 4 == 0x00;
  }

  lemma OpImmGroup(w: u32)
    requires Opcode(w) == 0x13
    ensures DecodeInstruction(w) == DecodeOpImm(ItypeFrom(w))
  {
    assert Opcode(w) % 4 == 3 && Opcode(w) / 4 == 0x04;
  }

  lemma AuipcGroup(w: u32)
    requires Opcode(w) == 0x17
    ensures DecodeInstruction(w) == Ok(Auipc(UtypeFrom(w)))
  {
    assert Opcode(w) % 4 == 3 && Opcode(w) / 4 == 0x05;
  }

  lemma StoreGroup(w: u32)
    requires Opcode(w) == 0x23
    ensures DecodeInstruction(w) == DecodeStore(StypeFrom(w))
  {
    assert Opcode(w) % 4 == 3 && Opcode(w) / 4 == 0x08;
  }

  lemma OpGroup(w: u32)
    requires Opcode(w) == 0x33
    ensures DecodeInstruction(w) == DecodeOp(RtypeFrom(w))
  {
    assert Opcode(w) % 4 == 3 && Opcode(w) / 4 == 0x0c;
  }

  lemma LuiGroup(w: u32)
    requires Opcode(w) == 0x37
    ensures DecodeInstruction(w) == Ok(Lui(UtypeFrom(w)))
  {
    assert Opcode(w) % 4 == 3 && Opcode(w) / 4 == 0x0d;
  }

  lemma BranchGroup(w: u32)
    requires Opcode(w) == 0x63
    ensures DecodeInstruction(w) == DecodeBranch(BtypeFrom(w))
  {
    assert Opcode(w) % 4 == 3 && Opcode(w) / 4 == 0x18;
  }

  lemma JalrGroup(w: u32)
    requires Opcode(w) == 0x67
    ensures DecodeInstruction(w) == DecodeJalr(ItypeFrom(w))
  {
    assert Opcode(w) % 4 == 3 && Opcode(w) / 4 == 0x19;
  }

  lemma JalGroup(w: u32)
    requires Opcode(w) == 0x6f
    ensures DecodeInstruction(w) == Ok(Jal(JtypeFrom(w)))
  {
    assert Opcode(w) % 4 == 3 && Opcode(w) / 4 == 0x1b;
  }

  // Whatever a sub-decoder returns is well-formed, carries the payload it
  // was given and belongs to the sub-decoder's group.

  lemma DecodeLoadSound(x: Itype)
    requires x.Valid() && DecodeLoad(x).Ok?
    ensures var inst := DecodeLoad(x).inst;
            WellFormed(inst) && PayloadOf(inst) == I(x) && OpcodeOf(inst) == 0x03
  {
  }

  lemma DecodeOpImmSound(x: Itype)
    requires x.Valid() && DecodeOpImm(x).Ok?
    ensures var inst := DecodeOpImm(x).inst;
            WellFormed(inst) && PayloadOf(inst) == I(x) && OpcodeOf(inst) == 0x13
  {
  }

  lemma DecodeStoreSound(x: Stype)
    requires x.Valid() && DecodeStore(x).Ok?
    ensures var inst := DecodeStore(x).inst;
            WellFormed(inst) && PayloadOf(inst) == S(x) && OpcodeOf(inst) == 0x23
  {
  }

  lemma DecodeOpSound(x: Rtype)
    requires x.Valid() && DecodeOp(x).Ok?
    ensures var inst := DecodeOp(x).inst;
            WellFormed(inst) && PayloadOf(inst) == R(x) && OpcodeOf(inst) == 0x33
  {
  }

  lemma DecodeBranchSound(x: Btype)
    requires x.Valid() && DecodeBranch(x).Ok?
    ensures var inst := DecodeBranch(x).inst;
            WellFormed(inst) && PayloadOf(inst) == B(x) && OpcodeOf(inst) == 0x63
  {
  }

  lemma DecodeJalrSound(x: Itype)
    requires x.Valid() && DecodeJalr(x).Ok?
    ensures var inst := DecodeJalr(x).inst;
            WellFormed(inst) && PayloadOf(inst) == I(x) && OpcodeOf(inst) == 0x67
  {
  }

  /** On success the instruction is well-formed, belongs to the word's opcode
      group, and carries the payload that the opcode map assigns to the
      group: the group's format decoder applied to the same word. */
  lemma DecodePayload(w: u32)
    requires DecodeInstruction(w).Ok?
    ensures var inst := DecodeInstruction(w).inst;
            var p := PayloadOf(inst);
            var g := Group(w);
            && WellFormed(inst) && OpcodeOf(inst) == Opcode(w)
            && (g in {LOAD, OP_IMM, JALR} ==> p == I(ItypeFrom(w)))
            && (g == STORE ==> p == S(StypeFrom(w)))
            && (g == OP ==> p == R(RtypeFrom(w)))
            && (g in {AUIPC, LUI} ==> p == U(UtypeFrom(w)))
            && (g == BRANCH ==> p == B(BtypeFrom(w)))
            && (g == JAL ==> p == J(JtypeFrom(w)))
  {
    var op := Opcode(w);
    if op == 0x03 {
      LoadGroup(w);
      DecodeLoadSound(ItypeFrom(w));
    } else if op == 0x13 {
      OpImmGroup(w);
      DecodeOpImmSound(ItypeFrom(w));
    } else if op == 0x17 {
      AuipcGroup(w);
    } else if op == 0x23 {
      StoreGroup(w);
      DecodeStoreSound(StypeFrom(w));
    } else if op == 0x33 {
      OpGroup(w);
      DecodeOpSound(RtypeFrom(w));
    } else if op == 0x37 {
      LuiGroup(w);
    } else if op == 0x63 {
      BranchGroup(w);
      DecodeBranchSound(BtypeFrom(w));
    } else if op == 0x67 {
      JalrGroup(w);
      DecodeJalrSound(ItypeFrom(w));
    } else {
      JalGroup(w);
    }
  }

  /** Encoding inverts decoding: whatever the dispatcher accepts is a
      well-formed instruction whose encoding is the word itself, so no bit of
      an accepted word is lost. */
  lemma EncodeDecode(w: u32)
    requires DecodeInstruction(w).Ok?
    ensures WellFormed(DecodeInstruction(w).inst)
    ensures Encode(DecodeInstruction(w).inst) == w
  {
    DecodePayload(w);
    var g := Group(w);
    if g in {LOAD, OP_IMM, JALR} {
      ItypeFromLosesNothing(w);
    } else if g == STORE {
      StypeFromLosesNothing(w);
    } else if g == OP {
      RtypeFromLosesNothing(w);
    } else if g in {AUIPC, LUI} {
      UtypeFromLosesNothing(w);
    } else if g == BRANCH {
      BtypeFromLosesNothing(w);
    } else {
      JtypeFromLosesNothing(w);
    }
  }

  // ------------------------------------------------------------ properties

  /** Bit 30 of a word. */
  function Bit30(w: u32): (b: nat)
    ensures b < 2
  {
    (w / 0x4000_0000) % 2
  }

  /** The function-select combinations the dispatcher accepts, group by group. */
  predicate Accepted(group: nat, funct3: nat)
  {
    || (group == LOAD && funct3 in {0, 1, 2, 4, 5})
    || group == OP_IMM
    || group == AUIPC
    || (group == STORE && funct3 < 3)
    || group == OP
    || group == LUI
    || (group == BRANCH && funct3 !in {2, 3})
    || (group == JALR && funct3 == 0)
    || group == JAL
  }

  /** A word decodes exactly when it is a 32-bit encoding (low bits 11) of an
      accepted group and funct3; every other word, compressed encodings and
      the unimplemented groups included, yields `Unsupported`. */
  lemma DecodeSucceedsIff(w: u32)
    ensures DecodeInstruction(w).Ok? <==> Opcode(w) % 4 == 3 && Accepted(Group(w), RtypeFrom(w).funct3)
    ensures DecodeInstruction(w).Err? ==> DecodeInstruction(w).error == Unsupported
  {
    var op := Opcode(w);
    if op == 0x03 {
      LoadGroup(w);
      assert Group(w) == LOAD && ItypeFrom(w).funct3 == RtypeFrom(w).funct3;
    } else if op == 0x13 {
      OpImmGroup(w);
      assert Group(w) == OP_IMM && ImmBit10(ItypeFrom(w).imm) < 2;
    } else if op == 0x17 {
      AuipcGroup(w);
      assert Group(w) == AUIPC;
    } else if op == 0x23 {
      StoreGroup(w);
      assert Group(w) == STORE && StypeFrom(w).funct3 == RtypeFrom(w).funct3;
    } else if op == 0x33 {
      OpGroup(w);
      assert Group(w) == OP;
    } else if op == 0x37 {
      LuiGroup(w);
      assert Group(w) == LUI;
    } else if op == 0x63 {
      BranchGroup(w);
      assert Group(w) == BRANCH && BtypeFrom(w).funct3 == RtypeFrom(w).funct3;
    } else if op == 0x67 {
      JalrGroup(w);
      assert Group(w) == JALR && ItypeFrom(w).funct3 == RtypeFrom(w).funct3;
    } else if op == 0x6f {
      JalGroup(w);
      assert Group(w) == JAL;
    } else {
      OtherGroupsRejected(w);
      assert op == 4 * Group(w) + op % 4;
    }
  }

  /** Every word outside the nine implemented opcodes is rejected. */
  lemma OtherGroupsRejected(w: u32)
    requires Opcode(w) !in {0x03, 0x13, 0x17, 0x23, 0x33, 0x37, 0x63, 0x67, 0x6f}
    ensures DecodeInstruction(w) == Err(Unsupported)
  {
  }

  /** The groups that are named and rejected outright. */
  lemma UnsupportedGroupsRejected(w: u32)
    requires Group(w) in {LOAD_FP, MISC_MEM, OP_IMM_32, STORE_FP, AMO, OP_32,
                          MADD, MSUB, NMSUB, NMADD, OP_FP, SYSTEM}
    ensures DecodeInstruction(w) == Err(Unsupported)
  {
    OtherGroupsRejected(w);
  }

  /** Bit 30 of the word is bit 5 of funct7 ... */
  lemma Funct7Bit5IsBit30(w: u32)
    ensures Funct7Bit5(RtypeFrom(w).funct7) == Bit30(w)
  {
    DivDiv(w, 0x200_0000, 0x20);
    assert w / 0x200_0000 < 0x80;
  }

  /** ... and bit 10 of the I-type immediate. */
  lemma ImmBit10IsBit30(w: u32)
    ensures ImmBit10(ItypeFrom(w).imm) == Bit30(w)
  {
    var t := w / 0x10_0000;
    var imm := ItypeFrom(w).imm;
    DivDiv(w, 0x10_0000, 0x400);
    var k := (imm - t) / 0x1000;
    assert imm == 0x1000 * k + t;
    DivUnique(t, 0x400, w / 0x4000_0000, t % 0x400);
    DivUnique(imm, 0x400, 4 * k + w / 0x4000_0000, t % 0x400);
    assert (4 * k + w / 0x4000_0000) % 2 == (w / 0x4000_0000) % 2;
  }

  /** ADD/SUB, SRL/SRA and SRLI/SRAI are told apart by bit 30 alone: 0 picks
      the plain operation, 1 the alternate one. */
  lemma TieBreaksOnBit30(w: u32)
    requires Opcode(w) % 4 == 3
    ensures var f3 := RtypeFrom(w).funct3;
            && (Group(w) == OP && f3 == 0 ==>
                  DecodeInstruction(w) == Ok(if Bit30(w) == 0 then Add(RtypeFrom(w)) else Sub(RtypeFrom(w))))
            && (Group(w) == OP && f3 == 5 ==>
                  DecodeInstruction(w) == Ok(if Bit30(w) == 0 then Srl(RtypeFrom(w)) else Sra(RtypeFrom(w))))
            && (Group(w) == OP_IMM && f3 == 5 ==>
                  DecodeInstruction(w) == Ok(if Bit30(w) == 0 then Srli(ItypeFrom(w)) else Srai(ItypeFrom(w))))
  {
    Funct7Bit5IsBit30(w);
    ImmBit10IsBit30(w);
    if Opcode(w) == 0x33 {
      OpGroup(w);
    } else if Opcode(w) == 0x13 {
      OpImmGroup(w);
    }
  }

  /** `andi a1,a0,4`, `ori a2,a0,2` and `xori a3,a0,10`. */
  lemma DecodeExamples()
    ensures DecodeInstruction(0x0045_7593) == Ok(Andi(ItypeFrom(0x0045_7593)))
    ensures DecodeInstruction(0x0025_6613) == Ok(Ori(ItypeFrom(0x0025_6613)))
    ensures DecodeInstruction(0x00a5_4693) == Ok(Xori(ItypeFrom(0x00a5_4693)))
  {
    OpImmGroup(0x0045_7593);
    OpImmGroup(0x0025_6613);
    OpImmGroup(0x00a5_4693);
  }

  // ------------------------------------------------------------ the OP tie-break

  /** `sub a0,a0,a1` is 0x40b50533 (funct7 0100000). The OP arm as written
      reads bit 31 instead of bit 30 and returns ADD for it. */
  lemma SubDecodedAsAddAsWritten()
    ensures var x := RtypeFrom(0x40b5_0533);
            && WellFormed(Sub(x)) && Encode(Sub(x)) == 0x40b5_0533
            && DecodeOpAsWritten(x) == Ok(Add(x))
            && DecodeInstructionAsWritten(0x40b5_0533) == Ok(Add(x))
  {
    SubWordFields();
    var x := Rtype(rd := 10, funct3 := 0, rs1 := 10, rs2 := 11, funct7 := 0x20);
    assert WellFormed(Sub(x));
    assert Encode(Sub(x)) == 0x40b5_0533;
    OpGroup(0x40b5_0533);
  }

  /** `mul a0,a0,a1` (funct7 0000001, an RV32M word) is not rejected: both
      dispatchers read only one bit of funct7 and return ADD. */
  lemma MulDecodedAsAdd()
    ensures var x := RtypeFrom(0x02b5_0533);
            && x.funct7 == 1
            && DecodeInstruction(0x02b5_0533) == Ok(Add(x))
            && DecodeInstructionAsWritten(0x02b5_0533) == Ok(Add(x))
  {
    MulWordFields();
    OpGroup(0x02b5_0533);
  }

  /** The fields of `mul a0,a0,a1`. */
  lemma MulWordFields()
    ensures RtypeFrom(0x02b5_0533) == Rtype(rd := 10, funct3 := 0, rs1 := 10, rs2 := 11, funct7 := 1)
  {
  }

  /** `sub a0,a0,a1`: funct7 0100000, the only set bit being bit 30. */
  lemma SubWordFields()
    ensures RtypeFrom(0x40b5_0533) == Rtype(rd := 10, funct3 := 0, rs1 := 10, rs2 := 11, funct7 := 0x20)
  {
  }

  /** With bit 31 clear the arm as written never yields SUB or SRA, although
      every well-formed SUB and SRA has bit 30 set. */
  lemma AsWrittenNeverAlternate(x: Rtype)
    requires x.Valid() && x.funct7 < 0x40
    ensures DecodeOpAsWritten(x) != Ok(Sub(x)) && DecodeOpAsWritten(x) != Ok(Sra(x))
  {
  }

  /** The corrected arm returns SUB for the same word. */
  lemma SubDecodedAsSub()
    ensures DecodeInstruction(0x40b5_0533) == Ok(Sub(RtypeFrom(0x40b5_0533)))
  {
  }

  // ------------------------------------------------------------ the dispatcher as written

  /** The dispatcher exactly as written: every arm is the one above except
      OP, which reads its tie-break from bit 31 of the word. */
  function DecodeInstructionAsWritten(w: u32): (r: DecodeResult)
  {
    if Opcode(w) == 0x33 then DecodeOpAsWritten(RtypeFrom(w)) else DecodeInstruction(w)
  }

  /** The dispatcher as written and the corrected one accept the same words,
      fail the same way, and on success return the same payload under the
      word's opcode; they differ only in the ADD/SUB or SRL/SRA tag of an OP
      word. */
  lemma AsWrittenDiffersOnlyInTieBreak(w: u32)
    ensures DecodeInstructionAsWritten(w).Ok? <==> DecodeInstruction(w).Ok?
    ensures DecodeInstructionAsWritten(w).Err? ==> DecodeInstructionAsWritten(w) == DecodeInstruction(w)
    ensures DecodeInstructionAsWritten(w).Ok? ==>
              var a, c := DecodeInstructionAsWritten(w).inst, DecodeInstruction(w).inst;
              && PayloadOf(a) == PayloadOf(c)
              && OpcodeOf(a) == OpcodeOf(c) == Opcode(w)
              && (a != c ==>
                    var x := RtypeFrom(w);
                    && Opcode(w) == 0x33
                    && ((x.funct3 == 0 && {a, c} == {Add(x), Sub(x)})
                        || (x.funct3 == 5 && {a, c} == {Srl(x), Sra(x)})))
  {
    if Opcode(w) == 0x33 {
      OpGroup(w);
      var x := RtypeFrom(w);
      assert Funct7Bit5(x.funct7) < 2 && (x.funct7 / 0x40) % 2 < 2;
      DecodeOpSound(x);
    } else if DecodeInstruction(w).Ok? {
      DecodePayload(w);
    }
  }

  /** The acceptance set of the dispatcher as written is the one stated by
      `DecodeSucceedsIff`, and every failure is `Unsupported`. */
  lemma AsWrittenSucceedsIff(w: u32)
    ensures DecodeInstructionAsWritten(w).Ok? <==> Opcode(w) % 4 == 3 && Accepted(Group(w), RtypeFrom(w).funct3)
    ensures DecodeInstructionAsWritten(w).Err? ==> DecodeInstructionAsWritten(w).error == Unsupported
  {
    AsWrittenDiffersOnlyInTieBreak(w);
    DecodeSucceedsIff(w);
  }

  /** With bit 31 set and bit 30 clear (funct7 1000000) the dispatcher as
      written returns SUB where the corrected one returns ADD. */
  lemma AsWrittenSubForBit31()
    ensures var x := RtypeFrom(0x80b5_0533);
            && DecodeInstructionAsWritten(0x80b5_0533) == Ok(Sub(x))
            && DecodeInstruction(0x80b5_0533) == Ok(Add(x))
  {
    Bit31WordFields();
    OpGroup(0x80b5_0533);
  }

  /** The dispatcher as written decides ADD/SUB and SRL/SRA on word bit 31
      alone, in both directions, for every OP word. */
  lemma TieBreaksOnBit31AsWritten(w: u32)
    requires Opcode(w) == 0x33
    ensures var x := RtypeFrom(w);
            && (x.funct3 == 0 ==> DecodeInstructionAsWritten(w) == Ok(if w < TWO_31 then Add(x) else Sub(x)))
            && (x.funct3 == 5 ==> DecodeInstructionAsWritten(w) == Ok(if w < TWO_31 then Srl(x) else Sra(x)))
  {
    SignIsFunct7Bit6(w);
    assert RtypeFrom(w).funct7 < 0x80;
  }

  /** funct7 1000000 with the fields of `add a0,a0,a1`. */
  lemma Bit31WordFields()
    ensures RtypeFrom(0x80b5_0533) == Rtype(rd := 10, funct3 := 0, rs1 := 10, rs2 := 11, funct7 := 0x40)
  {
  }
}
