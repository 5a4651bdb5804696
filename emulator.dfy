/** The emulator: a register file of 32 64-bit registers in which x0 reads as
    zero and ignores writes, a pc, and a byte memory holding the program
    image. This version executes raw words itself (only ADDI and ADD have an
    effect) and does not go through the dispatcher. The class is proved
    against the value-level `State`, `Execute` and `RunFrom` below. */
module Emulator {
  import opened Bits
  import opened Types

  /** The largest length of a Rust `Vec<u8>` (isize::MAX bytes). */
  const MAX_MEMORY: nat := 0x7fff_ffff_ffff_ffff

  datatype Option<T> = None | Some(value: T)

  /** How a run ends: pc reached the end of memory, or a fetch at pc would
      read past it (where the source panics on the out-of-bounds index). */
  datatype Outcome = Halted | FetchOutOfBounds(pc: nat)

  datatype State = State(regs: seq<u64>, pc: nat, memory: seq<u8>)
  {
    ghost predicate Valid() { |regs| == 32 }
  }

  // ------------------------------------------------------------ registers

  /** The value register r reads as. */
  function ReadReg(regs: seq<u64>, r: nat): (v: u64)
    requires |regs| == 32 && r < 32
    ensures r == 0 ==> v == 0
  {
    if r == 0 then 0 else regs[r]
  }

  /** The register file after writing v to register r. */
  function WriteReg(regs: seq<u64>, r: nat, v: u64): (regs': seq<u64>)
    requires |regs| == 32 && r < 32
    ensures |regs'| == 32
    ensures regs'[0] == regs[0]
    ensures forall q :: 0 <= q < 32 && q != r ==> regs'[q] == regs[q]
  {
    if r == 0 then regs else regs[r := v]
  }

  /** Reading after a write sees the written value, except in x0, which
      still reads as zero; every other register reads as before. */
  lemma ReadAfterWrite(regs: seq<u64>, r: nat, v: u64, q: nat)
    requires |regs| == 32 && r < 32 && q < 32
    ensures ReadReg(WriteReg(regs, r, v), q) == if q == r && r != 0 then v else ReadReg(regs, q)
  {
  }

  // ------------------------------------------------------------ memory

  /** The little-endian 32-bit word at addr. */
  function LoadWord(memory: seq<u8>, addr: nat): (w: u32)
    requires addr + 3 < |memory|
  {
    memory[addr] as int + 0x100 * (memory[addr + 1] as int)
      + 0x1_0000 * (memory[addr + 2] as int) + 0x100_0000 * (memory[addr + 3] as int)
  }

  /** Byte i of the loaded word is the byte at addr + i: the load loses
      nothing and puts the lowest address in the least significant byte. */
  lemma LoadWordBytes(memory: seq<u8>, addr: nat)
    requires addr + 3 < |memory|
    ensures var w := LoadWord(memory, addr);
            && w % 0x100 == memory[addr]
            && (w / 0x100) % 0x100 == memory[addr + 1]
            && (w / 0x1_0000) % 0x100 == memory[addr + 2]
            && w / 0x100_0000 == memory[addr + 3]
  {
    var b0: nat, b1: nat, b2: nat, b3: nat := memory[addr], memory[addr + 1], memory[addr + 2], memory[addr + 3];
    var w := LoadWord(memory, addr);
    FieldOf(w, 1, 0x100, 0, b0, b1 + 0x100 * b2 + 0x1_0000 * b3);
    FieldOf(w, 0x100, 0x100, b0, b1, b2 + 0x100 * b3);
    FieldOf(w, 0x1_0000, 0x100, b0 + 0x100 * b1, b2, b3);
    DivUnique(w, 0x100_0000, b3, b0 + 0x100 * b1 + 0x1_0000 * b2);
  }

  // ------------------------------------------------------------ execution

  /** One instruction word applied to a state whose pc has already been
      advanced. Only ADDI (OP-IMM, funct3 000) and ADD (OP, funct3 000, funct7
      not examined) change anything; every other opcode or funct3 only
      reports itself. */
  function Execute(s: State, w: u32): (s': State)
    requires s.Valid()
    ensures s'.Valid() && s'.pc == s.pc && s'.memory == s.memory
    ensures s'.regs[0] == s.regs[0]
  {
    match Opcode(w)
    case 0x13 =>
      var x := ItypeFrom(w);
      if x.funct3 == 0 then
        s.(regs := WriteReg(s.regs, x.rd, WrappingAdd(ReadReg(s.regs, x.rs1), SignExtend64(x.imm))))
      else s
    case 0x33 =>
      var x := RtypeFrom(w);
      if x.funct3 == 0 then
        s.(regs := WriteReg(s.regs, x.rd, WrappingAdd(ReadReg(s.regs, x.rs1), ReadReg(s.regs, x.rs2))))
      else s
    case _ => s
  }

  /** ADDI writes rs1 plus the signed immediate, modulo 2^64, to rd. */
  lemma ExecuteAddi(s: State, w: u32)
    requires s.Valid() && Opcode(w) == 0x13 && ItypeFrom(w).funct3 == 0
    ensures var x := ItypeFrom(w);
            Execute(s, w) == s.(regs := WriteReg(s.regs, x.rd, (ReadReg(s.regs, x.rs1) + x.imm) % TWO_64))
  {
    var x := ItypeFrom(w);
    var a := ReadReg(s.regs, x.rs1);
    if x.imm < 0 {
      DivUnique(a + x.imm, TWO_64, if a + x.imm < 0 then -1 else 0, WrappingAdd(a, SignExtend64(x.imm)));
    }
  }

  /** ADD writes rs1 plus rs2, modulo 2^64, to rd, whatever funct7 holds:
      overflow wraps and never faults. */
  lemma ExecuteAdd(s: State, w: u32)
    requires s.Valid() && Opcode(w) == 0x33 && RtypeFrom(w).funct3 == 0
    ensures var x := RtypeFrom(w);
            Execute(s, w) == s.(regs := WriteReg(s.regs, x.rd, (ReadReg(s.regs, x.rs1) + ReadReg(s.regs, x.rs2)) % TWO_64))
  {
  }

  /** Every other word leaves registers, pc and memory as they were. */
  lemma ExecuteOtherwiseNoEffect(s: State, w: u32)
    requires s.Valid()
    requires !(Opcode(w) == 0x13 && ItypeFrom(w).funct3 == 0)
    requires !(Opcode(w) == 0x33 && RtypeFrom(w).funct3 == 0)
    ensures Execute(s, w) == s
  {
  }

  /** `add` of 0xFFFF_FFFF_FFFF_FFFF and 1 gives 0. */
  lemma AddWrapsToZero(s: State)
    requires s.Valid() && s.regs[10] == TWO_64 - 1 && s.regs[11] == 1
    ensures ReadReg(Execute(s, 0x00b5_0533).regs, 10) == 0
  {
    assert RtypeFrom(0x00b5_0533) == Rtype(rd := 10, funct3 := 0, rs1 := 10, rs2 := 11, funct7 := 0);
  }

  // ------------------------------------------------------------ the run loop

  /** One turn of the loop: fetch the word at pc, advance pc by 4, execute. */
  function Step(s: State): (s': State)
    requires s.Valid() && s.pc + 3 < |s.memory|
    ensures s'.Valid() && s'.pc == s.pc + 4 && s'.memory == s.memory
    ensures s'.regs[0] == s.regs[0]
  {
    Execute(s.(pc := s.pc + 4), LoadWord(s.memory, s.pc))
  }

  /** Step until pc reaches the end of memory. */
  function RunFrom(s: State): (r: (State, Outcome))
    requires s.Valid()
    ensures r.0.Valid()
    ensures r.0.memory == s.memory && r.0.regs[0] == s.regs[0]
    decreases |s.memory| - s.pc
  {
    if s.pc >= |s.memory| then (s, Halted)
    else if s.pc + 3 >= |s.memory| then (s, FetchOutOfBounds(s.pc))
    else RunFrom(Step(s))
  }

  /** The number of loop turns a run takes from s. */
  function Turns(s: State): nat
    requires s.Valid()
    decreases |s.memory| - s.pc
  {
    if s.pc + 3 < |s.memory| then 1 + Turns(Step(s)) else 0
  }

  /** pc only moves forward, by 4 on every turn of the loop. */
  lemma {:induction false} RunFromAdvancesPc(s: State)
    requires s.Valid()
    ensures RunFrom(s).0.pc == s.pc + 4 * Turns(s)
    decreases |s.memory| - s.pc
  {
    if s.pc + 3 < |s.memory| {
      RunFromAdvancesPc(Step(s));
    }
  }

  /** A run halts exactly when pc has reached the end of memory, and faults
      only at a pc whose word would straddle the end. */
  lemma {:induction false} RunFromOutcome(s: State)
    requires s.Valid()
    ensures RunFrom(s).1 == Halted <==> RunFrom(s).0.pc >= |s.memory|
    ensures RunFrom(s).1.FetchOutOfBounds? ==>
              RunFrom(s).1.pc == RunFrom(s).0.pc < |s.memory| <= RunFrom(s).0.pc + 3
    decreases |s.memory| - s.pc
  {
    if s.pc + 3 < |s.memory| {
      RunFromOutcome(Step(s));
    }
  }

  /** A memory whose length is a multiple of 4, run from an aligned pc inside
      it, always runs to the end and halts with pc equal to the length. */
  lemma {:induction false} RunFromAlignedHalts(s: State)
    requires s.Valid() && s.pc % 4 == 0 && |s.memory| % 4 == 0 && s.pc <= |s.memory|
    ensures RunFrom(s).1 == Halted && RunFrom(s).0.pc == |s.memory|
    decreases |s.memory| - s.pc
  {
    if s.pc < |s.memory| {
      var a, b := s.pc / 4, |s.memory| / 4;
      assert s.pc == 4 * a && |s.memory| == 4 * b;
      var t := Step(s);
      DivUnique(t.pc, 4, a + 1, 0);
      RunFromAlignedHalts(t);
    }
  }

  /** The state of a freshly built emulator. */
  function Initial(memory: seq<u8>): (s: State)
    ensures s.Valid() && s.pc == 0 && s.memory == memory
    ensures forall r :: 0 <= r < 32 ==> ReadReg(s.regs, r) == 0
  {
    State(seq(32, _ => 0), 0, memory)
  }

  /** `addi a0,x0,6; addi a1,x0,4; add a0,a0,a1`, little-endian. */
  const ADDI_ADD_PROGRAM: seq<u8> :=
    [0x13, 0x05, 0x60, 0x00, 0x93, 0x05, 0x40, 0x00, 0x33, 0x05, 0xb5, 0x00]

  /** The three words of the program. */
  lemma AddiAddWords()
    ensures LoadWord(ADDI_ADD_PROGRAM, 0) == 0x0060_0513
    ensures LoadWord(ADDI_ADD_PROGRAM, 4) == 0x0040_0593
    ensures LoadWord(ADDI_ADD_PROGRAM, 8) == 0x00b5_0533
  {
  }

  /** The fields of the program's three words. */
  lemma AddiAddFields()
    ensures ItypeFrom(0x0060_0513) == Itype(rd := 10, funct3 := 0, rs1 := 0, imm := 6)
    ensures ItypeFrom(0x0040_0593) == Itype(rd := 11, funct3 := 0, rs1 := 0, imm := 4)
    ensures RtypeFrom(0x00b5_0533) == Rtype(rd := 10, funct3 := 0, rs1 := 10, rs2 := 11, funct7 := 0)
  {
  }

  /** The program leaves 10 in a0 and halts at the end of memory. */
  lemma AddiAddProgram()
    ensures var (t, outcome) := RunFrom(Initial(ADDI_ADD_PROGRAM));
            outcome == Halted && ReadReg(t.regs, 10) == 10
  {
    var s0 := Initial(ADDI_ADD_PROGRAM);
    AddiAddWords();
    AddiAddFields();
    var s1 := Step(s0);
    ExecuteAddi(s0.(pc := 4), 0x0060_0513);
    ReadAfterWrite(s0.regs, 10, 6, 10);
    var s2 := Step(s1);
    ExecuteAddi(s1.(pc := 8), 0x0040_0593);
    ReadAfterWrite(s1.regs, 11, 4, 10);
    ReadAfterWrite(s1.regs, 11, 4, 11);
    var s3 := Step(s2);
    ExecuteAdd(s2.(pc := 12), 0x00b5_0533);
    ReadAfterWrite(s2.regs, 10, 10, 10);
    assert RunFrom(s2) == RunFrom(s3) == (s3, Halted);
  }

  // ------------------------------------------------------------ the emulator

  class Emulator {
    var regs: array<u64>
    var pc: u64
    var memory: seq<u8>

    ghost predicate Valid()
      reads this, regs
    {
      regs.Length == 32 && regs[0] == 0 && |memory| <= MAX_MEMORY
    }

    /** The state the emulator is in, as a value. */
    ghost function Abs(): (s: State)
      reads this, regs
      requires Valid()
      ensures s.Valid()
    {
      State(regs[..], pc, memory)
    }

    constructor (memory: seq<u8>)
      requires |memory| <= MAX_MEMORY
      ensures Valid() && fresh(regs)
      ensures Abs() == Initial(memory)
    {
      regs := new u64[32](_ => 0);
      pc := 0;
      this.memory := memory;
    }

    method GetReg(reg: nat) returns (v: u64)
      requires Valid() && reg < 32
      ensures v == ReadReg(regs[..], reg)
      ensures reg == 0 ==> v == 0
      ensures reg != 0 ==> v == regs[reg]
    {
      if reg == 0 {
        v := 0;
      } else {
        v := regs[reg];
      }
    }

    method SetReg(reg: nat, val: u64)
      requires Valid() && reg < 32
      modifies regs
      ensures Valid()
      ensures regs[..] == WriteReg(old(regs[..]), reg, val)
    {
      if reg != 0 {
        regs[reg] := val;
      }
    }

    /** The bytes at pc, pc + 1, pc + 2 and pc + 3 ORed together at shifts of
        0, 8, 16 and 24; `None` where the source indexes past the end. */
    method FetchInstruction() returns (r: Option<u32>)
      requires Valid()
      ensures r == if pc + 3 < |memory| then Some(LoadWord(memory, pc)) else None
    {
      if pc + 3 >= |memory| {
        return None;
      }
      var b0: nat, b1: nat, b2: nat, b3: nat := memory[pc], memory[pc + 1], memory[pc + 2], memory[pc + 3];
      Pow2Bytes();
      OrDisjoint(b0, b1, 8);
      var w := BitOr(b0, b1 * 0x100);
      OrDisjoint(w, b2, 16);
      w := BitOr(w, b2 * 0x1_0000);
      OrDisjoint(w, b3, 24);
      w := BitOr(w, b3 * 0x100_0000);
      return Some(w);
    }

    method ExecuteInstruction(inst: u32)
      requires Valid()
      modifies regs
      ensures Valid()
      ensures Abs() == Execute(old(Abs()), inst)
    {
      match Opcode(inst)
      case 0x13 =>
        // OP-IMM
        var x := ItypeFrom(inst);
        if x.funct3 == 0 {
          // ADDI
          var a := GetReg(x.rs1);
          SetReg(x.rd, WrappingAdd(a, SignExtend64(x.imm)));
        }
      case 0x33 =>
        // OP
        var x := RtypeFrom(inst);
        if x.funct3 == 0 {
          // ADD
          var a := GetReg(x.rs1);
          var b := GetReg(x.rs2);
          SetReg(x.rd, WrappingAdd(a, b));
        }
      case _ =>
        // LOAD, LOAD-FP, MISC-MEM, AUIPC, OP-IMM-32, STORE, STORE-FP, AMO,
        // LUI, OP-32, MADD, MSUB, NMSUB, NMADD, OP-FP, BRANCH, JALR, JAL,
        // SYSTEM and anything else: reported, not executed
    }

    method Run() returns (outcome: Outcome)
      requires Valid()
      modifies this, regs
      ensures Valid() && memory == old(memory)
      ensures (Abs(), outcome) == RunFrom(old(Abs()))
    {
      while true
        invariant Valid() && memory == old(memory) && regs == old(regs)
        invariant RunFrom(Abs()) == RunFrom(old(Abs()))
        decreases |memory| - pc
      {
        if pc >= |memory| {
          return Halted;
        }
        var fetched := FetchInstruction();
        if fetched.None? {
          return FetchOutOfBounds(pc);
        }
        ghost var before := Abs();
        pc := pc + 4;
        ExecuteInstruction(fetched.value);
        assert Abs() == Step(before);
      }
    }
  }

  /** `test_addi_add` stated against the class. */
  method AddiAddTest()
  {
    var emu := new Emulator(ADDI_ADD_PROGRAM);
    var outcome := emu.Run();
    AddiAddProgram();
    var a0 := emu.GetReg(10);
    assert a0 == 10 && outcome == Halted;
  }
}
