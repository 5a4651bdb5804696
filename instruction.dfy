/** The decoded instruction: a closed tagged union with one variant per
    supported RV32I mnemonic, each carrying the record of its instruction
    format. Equality is structural, as for every Dafny datatype. */
module Instructions {
  import opened Types

  datatype Instruction =
    // LOAD
    | Lb(i: Itype) | Lh(i: Itype) | Lw(i: Itype) | Lbu(i: Itype) | Lhu(i: Itype)
    // OP-IMM
    | Addi(i: Itype) | Slti(i: Itype) | Sltiu(i: Itype) | Xori(i: Itype) | Ori(i: Itype)
    | Andi(i: Itype) | Slli(i: Itype) | Srli(i: Itype) | Srai(i: Itype)
    // AUIPC
    | Auipc(u: Utype)
    // STORE
    | Sb(s: Stype) | Sh(s: Stype) | Sw(s: Stype)
    // OP
    | Add(r: Rtype) | Sub(r: Rtype) | Sll(r: Rtype) | Slt(r: Rtype) | Sltu(r: Rtype)
    | Xor(r: Rtype) | Srl(r: Rtype) | Sra(r: Rtype) | Or(r: Rtype) | And(r: Rtype)
    // LUI
    | Lui(u: Utype)
    // BRANCH
    | Beq(b: Btype) | Bne(b: Btype) | Blt(b: Btype) | Bge(b: Btype) | Bltu(b: Btype) | Bgeu(b: Btype)
    // JALR
    | Jalr(i: Itype)
    // JAL
    | Jal(j: Jtype)

  /** The format record an instruction carries, whatever its mnemonic. */
  datatype Payload = R(r: Rtype) | I(i: Itype) | S(s: Stype) | U(u: Utype) | B(b: Btype) | J(j: Jtype)
  {
    /** Every field of the record fits its width. */
    predicate Valid()
    {
      match this
      case R(x) => x.Valid()
      case I(x) => x.Valid()
      case S(x) => x.Valid()
      case U(x) => x.Valid()
      case B(x) => x.Valid()
      case J(x) => x.Valid()
    }
  }

  function PayloadOf(inst: Instruction): (p: Payload)
  {
    match inst
    case Lb(x) => I(x)    case Lh(x) => I(x)    case Lw(x) => I(x)
    case Lbu(x) => I(x)   case Lhu(x) => I(x)
    case Addi(x) => I(x)  case Slti(x) => I(x)  case Sltiu(x) => I(x)
    case Xori(x) => I(x)  case Ori(x) => I(x)   case Andi(x) => I(x)
    case Slli(x) => I(x)  case Srli(x) => I(x)  case Srai(x) => I(x)
    case Auipc(x) => U(x)
    case Sb(x) => S(x)    case Sh(x) => S(x)    case Sw(x) => S(x)
    case Add(x) => R(x)   case Sub(x) => R(x)   case Sll(x) => R(x)
    case Slt(x) => R(x)   case Sltu(x) => R(x)  case Xor(x) => R(x)
    case Srl(x) => R(x)   case Sra(x) => R(x)   case Or(x) => R(x)
    case And(x) => R(x)
    case Lui(x) => U(x)
    case Beq(x) => B(x)   case Bne(x) => B(x)   case Blt(x) => B(x)
    case Bge(x) => B(x)   case Bltu(x) => B(x)  case Bgeu(x) => B(x)
    case Jalr(x) => I(x)
    case Jal(x) => J(x)
  }

  /** SRLI and SRAI carry the same payload shape and differ only in the tag:
      equal payloads never make them equal, and each is equal to another of
      its own kind exactly when the payloads are. */
  lemma SrliSraiDifferOnlyInTag(x: Itype, y: Itype)
    ensures PayloadOf(Srli(x)) == PayloadOf(Srai(x))
    ensures Srli(x) != Srai(y)
    ensures Srli(x) == Srli(y) <==> x == y
    ensures Srai(x) == Srai(y) <==> x == y
  {
  }
}
