/** The RV32I base instruction formats (RISC-V Unprivileged ISA 20191213,
    sections 2.2 and 2.3) and their extraction from a 32-bit instruction word.
    Each `...From` function performs the shifts and masks of the corresponding
    `From<u32>` implementation; each `Encode...` function is the ISA's encoding
    of the same fields, used as the reference that the extraction inverts. */
module Types {
  import opened Bits

  datatype Rtype = Rtype(rd: nat, funct3: nat, rs1: nat, rs2: nat, funct7: nat)
  {
    predicate Valid() { rd < 32 && funct3 < 8 && rs1 < 32 && rs2 < 32 && funct7 < 128 }
  }

  datatype Itype = Itype(rd: nat, funct3: nat, rs1: nat, imm: i32)
  {
    predicate Valid() { rd < 32 && funct3 < 8 && rs1 < 32 && -2048 <= imm < 2048 }
  }

  datatype Stype = Stype(imm: i32, funct3: nat, rs1: nat, rs2: nat)
  {
    predicate Valid() { -2048 <= imm < 2048 && funct3 < 8 && rs1 < 32 && rs2 < 32 }
  }

  datatype Utype = Utype(rd: nat, imm: i32)
  {
    predicate Valid() { rd < 32 && imm % 0x1000 == 0 }
  }

  /** B-type: a conditional-branch offset, always even, in [-4096, 4094]. */
  datatype Btype = Btype(imm: int, funct3: nat, rs1: nat, rs2: nat)
  {
    predicate Valid() { -4096 <= imm < 4096 && imm % 2 == 0 && funct3 < 8 && rs1 < 32 && rs2 < 32 }
  }

  /** J-type: a jump offset, always even, in [-2^20, 2^20 - 2]. */
  datatype Jtype = Jtype(rd: nat, imm: int)
  {
    predicate Valid() { rd < 32 && -0x10_0000 <= imm < 0x10_0000 && imm % 2 == 0 }
  }

  /** The opcode field, bits 6:0. */
  function Opcode(w: u32): (r: nat)
    ensures r < 0x80
  {
    w % 0x80
  }

  // ---------------------------------------------------------------- R-type

  function RtypeFrom(w: u32): (r: Rtype)
    ensures r.Valid()
  {
    Rtype(rd := (w / 0x80) % 0x20,
          funct3 := (w / 0x1000) % 0x8,
          rs1 := (w / 0x8000) % 0x20,
          rs2 := (w / 0x10_0000) % 0x20,
          funct7 := (w / 0x200_0000) % 0x80)
  }

  function EncodeR(r: Rtype, opcode: nat): (w: nat)
  {
    opcode + r.rd * 0x80 + r.funct3 * 0x1000 + r.rs1 * 0x8000
      + r.rs2 * 0x10_0000 + r.funct7 * 0x200_0000
  }

  /** A word is the sum of its R-type chunks; every other format's fields
      are unions or pieces of these chunks. */
  lemma WordChunks(w: u32)
    ensures w / 0x200_0000 < 0x80
    ensures w == Opcode(w) + 0x80 * ((w / 0x80) % 0x20) + 0x1000 * ((w / 0x1000) % 0x8)
                 + 0x8000 * ((w / 0x8000) % 0x20) + 0x10_0000 * ((w / 0x10_0000) % 0x20)
                 + 0x200_0000 * (w / 0x200_0000)
  {
    DivDiv(w, 0x80, 0x20);
    DivDiv(w, 0x1000, 0x8);
    DivDiv(w, 0x8000, 0x20);
    DivDiv(w, 0x10_0000, 0x20);
    var t7, t12, t15, t20, t25 := w / 0x80, w / 0x1000, w / 0x8000, w / 0x10_0000, w / 0x200_0000;
    assert w == w % 0x80 + 0x80 * t7;
    assert t7 == t7 % 0x20 + 0x20 * t12;
    assert t12 == t12 % 0x8 + 0x8 * t15;
    assert t15 == t15 % 0x20 + 0x20 * t20;
    assert t20 == t20 % 0x20 + 0x20 * t25;
  }

  /** Every bit of the word is kept: the fields and the opcode rebuild it. */
  lemma RtypeFromLosesNothing(w: u32)
    ensures EncodeR(RtypeFrom(w), Opcode(w)) == w
  {
    WordChunks(w);
    var t25 := w / 0x200_0000;
    assert t25 % 0x80 == t25;
  }

  /** Extraction recovers every field that was encoded. */
  lemma RtypeFromEncode(r: Rtype, opcode: nat)
    requires r.Valid() && opcode < 0x80
    ensures EncodeR(r, opcode) < TWO_32
    ensures Opcode(EncodeR(r, opcode)) == opcode
    ensures RtypeFrom(EncodeR(r, opcode)) == r
  {
    ChunkFields(EncodeR(r, opcode), opcode, r.rd, r.funct3, r.rs1, r.rs2, r.funct7);
  }

  /** The six R-type chunks of a word assembled from them. */
  lemma ChunkFields(w: int, opcode: nat, rd: nat, funct3: nat, rs1: nat, rs2: nat, funct7: nat)
    requires opcode < 0x80 && rd < 0x20 && funct3 < 8 && rs1 < 0x20 && rs2 < 0x20 && funct7 < 0x80
    requires w == opcode + rd * 0x80 + funct3 * 0x1000 + rs1 * 0x8000 + rs2 * 0x10_0000 + funct7 * 0x200_0000
    ensures 0 <= w < TWO_32
    ensures w % 0x80 == opcode
    ensures (w / 0x80) % 0x20 == rd && (w / 0x1000) % 8 == funct3 && (w / 0x8000) % 0x20 == rs1
    ensures (w / 0x10_0000) % 0x20 == rs2 && (w / 0x200_0000) % 0x80 == funct7
  {
    assert w % 0x80 == opcode by {
      DivUnique(w, 0x80, rd + 0x20 * funct3 + 0x100 * rs1 + 0x2000 * rs2 + 0x4_0000 * funct7, opcode);
    }
    assert (w / 0x80) % 0x20 == rd by {
      FieldOf(w, 0x80, 0x20, opcode, rd, funct3 + 0x8 * rs1 + 0x100 * rs2 + 0x2000 * funct7);
    }
    assert (w / 0x1000) % 8 == funct3 by {
      FieldOf(w, 0x1000, 0x8, opcode + 0x80 * rd, funct3, rs1 + 0x20 * rs2 + 0x400 * funct7);
    }
    assert (w / 0x8000) % 0x20 == rs1 by {
      FieldOf(w, 0x8000, 0x20, opcode + 0x80 * rd + 0x1000 * funct3, rs1, rs2 + 0x20 * funct7);
    }
    assert (w / 0x10_0000) % 0x20 == rs2 by {
      FieldOf(w, 0x10_0000, 0x20, opcode + 0x80 * rd + 0x1000 * funct3 + 0x8000 * rs1, rs2, funct7);
    }
    assert (w / 0x200_0000) % 0x80 == funct7 by {
      FieldOf(w, 0x200_0000, 0x80, opcode + 0x80 * rd + 0x1000 * funct3 + 0x8000 * rs1 + 0x10_0000 * rs2, funct7, 0);
    }
  }

  // ---------------------------------------------------------------- I-type

  /** `imm` is the word read as i32, widened to i64 and shifted right
      arithmetically by 20, then narrowed back to i32. */
  function ItypeFrom(w: u32): (r: Itype)
    ensures r.Valid()
    ensures r.imm % 0x1000 == w / 0x10_0000
    ensures r.imm < 0 <==> w >= TWO_31
  {
    var imm := ToI32(w) / 0x10_0000;
    assert imm % 0x1000 == w / 0x10_0000 && -2048 <= imm < 2048 by {
      if w >= TWO_31 {
        DivUnique(w - TWO_32, 0x10_0000, w / 0x10_0000 - 0x1000, w % 0x10_0000);
      }
    }
    Itype(rd := (w / 0x80) % 0x20,
          funct3 := (w / 0x1000) % 0x8,
          rs1 := (w / 0x8000) % 0x20,
          imm := imm)
  }

  /** The ISA's I-type layout: imm[11:0] in bits 31:20. */
  function EncodeI(i: Itype, opcode: nat): (w: nat)
  {
    var p := i.imm % 0x1000;
    EncodeR(Rtype(i.rd, i.funct3, i.rs1, p % 0x20, p / 0x20), opcode)
  }

  /** Two immediates of one 4096-wide window with the same low 12 bits are equal. */
  lemma SameLow12(a: int, b: int)
    requires -2048 <= a < 2048 && -2048 <= b < 2048 && a % 0x1000 == b % 0x1000
    ensures a == b
  {
  }

  lemma ItypeFromLosesNothing(w: u32)
    ensures EncodeI(ItypeFrom(w), Opcode(w)) == w
  {
    WordChunks(w);
    DivDiv(w, 0x10_0000, 0x20);
    assert w / 0x10_0000 == (w / 0x10_0000) % 0x20 + 0x20 * (w / 0x200_0000);
  }

  lemma ItypeFromEncode(i: Itype, opcode: nat)
    requires i.Valid() && opcode < 0x80
    ensures EncodeI(i, opcode) < TWO_32
    ensures Opcode(EncodeI(i, opcode)) == opcode
    ensures ItypeFrom(EncodeI(i, opcode)) == i
  {
    var p := i.imm % 0x1000;
    var w := EncodeI(i, opcode);
    RtypeFromEncode(Rtype(i.rd, i.funct3, i.rs1, p % 0x20, p / 0x20), opcode);
    DivDiv(w, 0x10_0000, 0x20);
    assert w / 0x10_0000 == p by {
      assert w / 0x10_0000 == (w / 0x10_0000) % 0x20 + 0x20 * (w / 0x200_0000);
    }
    SameLow12(ItypeFrom(w).imm, i.imm);
  }

  /** `lw a1,-2047(a0)`: base a0, destination a1, width word, offset -2047. */
  lemma ItypeExample()
    ensures ItypeFrom(0x8015_2583) == Itype(rd := 11, funct3 := 0x2, rs1 := 10, imm := -2047)
  {
    assert ToI32(0x8015_2583) == -0x7fea_da7d;
    DivUnique(-0x7fea_da7d, 0x10_0000, -2047, 0x5_2583);
  }

  // ---------------------------------------------------------------- S-type

  /** `imm` ORs bits 11:7 (as imm[4:0]) with bits 31:25 kept in place, read
      as i32 and shifted right arithmetically by 20 (as imm[11:5], sign
      extended). */
  function StypeFrom(w: u32): (r: Stype)
    ensures r.Valid()
    ensures r.imm % 0x20 == (w / 0x80) % 0x20
    ensures (r.imm % 0x1000) / 0x20 == w / 0x200_0000
    ensures r.imm < 0 <==> w >= TWO_31
  {
    var lo := (w / 0x80) % 0x20;
    var hi := ToI32((w / 0x200_0000) * 0x200_0000) / 0x10_0000;
    SImmParts(w);
    Stype(imm := ToI32(BitOr(lo, ToU32(hi))),
          funct3 := (w / 0x1000) % 0x8,
          rs1 := (w / 0x8000) % 0x20,
          rs2 := (w / 0x10_0000) % 0x20)
  }

  /** The two parts of the S-type immediate occupy disjoint bits, so their OR
      is their sum: bits 11:7 plus 32 times the signed value of bits 31:25. */
  lemma SImmParts(w: u32)
    ensures var lo := (w / 0x80) % 0x20;
            var c := w / 0x200_0000;
            var hi := ToI32(c * 0x200_0000) / 0x10_0000;
            && BitOr(lo, ToU32(hi)) <= lo + ToU32(hi) < TWO_32
            && var imm := ToI32(BitOr(lo, ToU32(hi)));
            && -2048 <= imm < 2048
            && imm % 0x20 == lo
            && (imm % 0x1000) / 0x20 == c
            && (imm < 0 <==> w >= TWO_31)
  {
    var lo := (w / 0x80) % 0x20;
    var c := w / 0x200_0000;
    assert c < 0x80;
    assert c >= 0x40 <==> w >= TWO_31;
    var hs := if c < 0x40 then c else c - 0x80;
    var hi := ToI32(c * 0x200_0000) / 0x10_0000;
    assert hi == hs * 0x20 by {
      if c >= 0x40 {
        DivUnique(c * 0x200_0000 - TWO_32, 0x10_0000, hs * 0x20, 0);
      }
    }
    var m := if c < 0x40 then c else c + 0x800_0000 - 0x80;
    assert ToU32(hi) == m * Pow2(5) by {
      assert Pow2(5) == 0x20;
    }
    OrDisjoint(lo, m, 5);
    assert BitOr(lo, ToU32(hi)) == lo + m * 0x20;
    var imm := lo + hs * 0x20;
    assert ToI32(lo + m * 0x20) == imm;
    SImmFields(lo, hs, c);
  }

  lemma SImmFields(lo: int, hs: int, c: int)
    requires 0 <= lo < 0x20 && -0x40 <= hs < 0x40
    requires c == (if hs >= 0 then hs else hs + 0x80)
    ensures var imm := lo + hs * 0x20;
            && -2048 <= imm < 2048
            && imm % 0x20 == lo
            && (imm % 0x1000) / 0x20 == c
            && (imm < 0 <==> hs < 0)
  {
    var imm := lo + hs * 0x20;
    DivUnique(imm, 0x20, hs, lo);
    var p := lo + c * 0x20;
    DivUnique(imm, 0x1000, if hs >= 0 then 0 else -1, p);
    DivUnique(p, 0x20, c, lo);
  }

  /** The ISA's S-type layout: imm[4:0] in bits 11:7, imm[11:5] in bits 31:25. */
  function EncodeS(s: Stype, opcode: nat): (w: nat)
  {
    var p := s.imm % 0x1000;
    EncodeR(Rtype(p % 0x20, s.funct3, s.rs1, s.rs2, p / 0x20), opcode)
  }

  lemma StypeFromLosesNothing(w: u32)
    ensures EncodeS(StypeFrom(w), Opcode(w)) == w
  {
    WordChunks(w);
    ModMod(StypeFrom(w).imm, 0x20, 0x80);
  }

  lemma StypeFromEncode(s: Stype, opcode: nat)
    requires s.Valid() && opcode < 0x80
    ensures EncodeS(s, opcode) < TWO_32
    ensures Opcode(EncodeS(s, opcode)) == opcode
    ensures StypeFrom(EncodeS(s, opcode)) == s
  {
    var p := s.imm % 0x1000;
    var w := EncodeS(s, opcode);
    RtypeFromEncode(Rtype(p % 0x20, s.funct3, s.rs1, s.rs2, p / 0x20), opcode);
    var imm' := StypeFrom(w).imm;
    assert imm' % 0x20 == p % 0x20 && (imm' % 0x1000) / 0x20 == p / 0x20;
    SameSImm(imm', s.imm);
  }

  /** An S immediate is determined by its low five bits and bits 11:5. */
  lemma SameSImm(a: int, b: int)
    requires -2048 <= a < 2048 && -2048 <= b < 2048
    requires a % 0x20 == (b % 0x1000) % 0x20 && (a % 0x1000) / 0x20 == (b % 0x1000) / 0x20
    ensures a == b
  {
    var pa, pb := a % 0x1000, b % 0x1000;
    ModMod(a, 0x20, 0x80);
    assert pa == 0x20 * (pa / 0x20) + pa % 0x20;
    assert pb == 0x20 * (pb / 0x20) + pb % 0x20;
    SameLow12(a, b);
  }

  /** `sw a1,-2047(a0)`: base a0, source a1, width word, offset -2047. */
  lemma StypeExampleNegative()
    ensures StypeFrom(0x80b5_20a3) == Stype(imm := -2047, funct3 := 0x2, rs1 := 10, rs2 := 11)
  {
    StypeFixedPoint(0x80b5_20a3, -2047);
  }

  /** `sw a1,2047(a0)`: base a0, source a1, width word, offset 2047. */
  lemma StypeExamplePositive()
    ensures StypeFrom(0x7eb5_2fa3) == Stype(imm := 2047, funct3 := 0x2, rs1 := 10, rs2 := 11)
  {
    var w: u32 := 0x7eb5_2fa3;
    assert (w / 0x80) % 0x20 == 0x1f && w / 0x200_0000 == 0x3f;
    StypeFixedPoint(w, 2047);
  }

  /** The S immediate of w is the one value whose two fields match w's. */
  lemma StypeFixedPoint(w: u32, imm: int)
    requires -2048 <= imm < 2048
    requires (imm % 0x1000) % 0x20 == (w / 0x80) % 0x20 && (imm % 0x1000) / 0x20 == w / 0x200_0000
    ensures StypeFrom(w).imm == imm
  {
    SameSImm(StypeFrom(w).imm, imm);
  }

  // ---------------------------------------------------------------- U-type

  /** `imm` is the word with its low 12 bits cleared, read as i32. */
  function UtypeFrom(w: u32): (r: Utype)
    ensures r.Valid()
    ensures r.imm % TWO_32 == w - w % 0x1000
  {
    var imm := ToI32((w / 0x1000) * 0x1000);
    Utype(rd := (w / 0x80) % 0x20, imm := imm)
  }

  /** The ISA's U-type layout: imm[31:12] in bits 31:12. */
  function EncodeU(u: Utype, opcode: nat): (w: nat)
  {
    opcode + u.rd * 0x80 + u.imm % TWO_32
  }

  lemma UtypeFromLosesNothing(w: u32)
    ensures EncodeU(UtypeFrom(w), Opcode(w)) == w
  {
    DivDiv(w, 0x80, 0x20);
    assert w % 0x1000 == w % 0x80 + 0x80 * ((w / 0x80) % 0x20) by {
      var t7 := w / 0x80;
      assert w == w % 0x80 + 0x80 * t7;
      assert t7 == t7 % 0x20 + 0x20 * (w / 0x1000);
      DivUnique(w, 0x1000, w / 0x1000, w % 0x80 + 0x80 * (t7 % 0x20));
    }
  }

  lemma UtypeFromEncode(u: Utype, opcode: nat)
    requires u.Valid() && opcode < 0x80
    ensures EncodeU(u, opcode) < TWO_32
    ensures Opcode(EncodeU(u, opcode)) == opcode
    ensures UtypeFrom(EncodeU(u, opcode)) == u
  {
    var w := EncodeU(u, opcode);
    var q := (u.imm % TWO_32) / 0x1000;
    assert u.imm % TWO_32 == q * 0x1000;
    FieldOf(w, 1, 0x80, 0, opcode, u.rd + 0x20 * q);
    FieldOf(w, 0x80, 0x20, opcode, u.rd, q);
    DivUnique(w, 0x1000, q, opcode + 0x80 * u.rd);
  }

  /** Bit 31, the sign bit, is bit 6 of funct7. */
  lemma SignIsFunct7Bit6(w: u32)
    ensures RtypeFrom(w).funct7 >= 0x40 <==> w >= TWO_31
  {
    assert w / 0x200_0000 < 0x80;
  }

  // ---------------------------------------------------------------- B-type

  /** B-type immediates follow figure 2.4 of the ISA: imm[12] in bit 31,
      imm[10:5] in bits 30:25, imm[4:1] in bits 11:8, imm[11] in bit 7 and an
      implicit zero in imm[0]. Those bits are the funct7 and rd chunks of the
      R-type layout, so the fields are taken from `RtypeFrom`. */
  function BtypeFrom(w: u32): (r: Btype)
    ensures r.Valid()
    ensures r.imm < 0 <==> w >= TWO_31
  {
    var c := RtypeFrom(w);
    SignIsFunct7Bit6(w);
    Btype(imm := BImm(c.rd, c.funct7), funct3 := c.funct3, rs1 := c.rs1, rs2 := c.rs2)
  }

  function EncodeB(b: Btype, opcode: nat): (w: nat)
  {
    var p := b.imm % 0x2000;
    EncodeR(Rtype((p / 0x800) % 2 + 2 * ((p / 2) % 0x10), b.funct3, b.rs1, b.rs2,
                  (p / 0x20) % 0x40 + 0x40 * (p / 0x1000)), opcode)
  }

  /** The scattered pieces of a 13-bit B immediate pattern rebuild it. */
  lemma BImmDigits(p: nat)
    requires p < 0x2000
    ensures p / 0x1000 < 2
    ensures p == 0x1000 * (p / 0x1000) + 0x800 * ((p / 0x800) % 2)
                 + 0x20 * ((p / 0x20) % 0x40) + 2 * ((p / 2) % 0x10) + p % 2
  {
    DivDiv(p, 2, 0x10);
    DivDiv(p, 0x20, 0x40);
    DivDiv(p, 0x800, 2);
    assert p == p % 2 + 2 * (p / 2);
    assert p / 2 == (p / 2) % 0x10 + 0x10 * (p / 0x20);
    assert p / 0x20 == (p / 0x20) % 0x40 + 0x40 * (p / 0x800);
    assert p / 0x800 == (p / 0x800) % 2 + 2 * (p / 0x1000);
  }

  /** The B immediate assembled from an rd chunk and a funct7 chunk. */
  function BImm(rd: nat, funct7: nat): (imm: int)
    requires rd < 0x20 && funct7 < 0x80
    ensures -0x1000 <= imm < 0x1000 && imm % 2 == 0
    ensures imm < 0 <==> funct7 >= 0x40
  {
    var sign, hi, a, lo := funct7 / 0x40, funct7 % 0x40, rd % 2, rd / 2;
    assert sign < 2 && lo < 0x10 && (sign == 1 <==> funct7 >= 0x40);
    var half := -sign * 0x800 + a * 0x400 + hi * 0x10 + lo;
    DivUnique(2 * half, 2, half, 0);
    2 * half
  }

  /** The B immediate of chunks given by their pieces: the sign, imm[11],
      imm[10:5] and imm[4:1]. */
  lemma BImmOfPieces(sign: nat, a: nat, hi: nat, lo: nat)
    requires sign < 2 && a < 2 && hi < 0x40 && lo < 0x10
    ensures BImm(a + 2 * lo, hi + 0x40 * sign) == 0x800 * a + 0x20 * hi + 2 * lo - sign * 0x1000
  {
    DivUnique(a + 2 * lo, 2, lo, a);
    DivUnique(hi + 0x40 * sign, 0x40, sign, hi);
  }

  /** Scattering a B immediate's pattern gives back the chunks it came from. */
  lemma BImmScatter(rd: nat, funct7: nat)
    requires rd < 0x20 && funct7 < 0x80
    ensures var p := BImm(rd, funct7) % 0x2000;
            && (p / 0x800) % 2 + 2 * ((p / 2) % 0x10) == rd
            && (p / 0x20) % 0x40 + 0x40 * (p / 0x1000) == funct7
  {
    var s, a, hi, lo := funct7 / 0x40, rd % 2, funct7 % 0x40, rd / 2;
    assert rd == a + 2 * lo && funct7 == hi + 0x40 * s && s < 2 && lo < 0x10;
    BImmOfPieces(s, a, hi, lo);
    BPatternFields(s, a, hi, lo);
  }

  /** The fields of the 13-bit pattern of a B immediate given by its pieces. */
  lemma BPatternFields(s: nat, a: nat, hi: nat, lo: nat)
    requires s < 2 && a < 2 && hi < 0x40 && lo < 0x10
    ensures var rest := 0x800 * a + 0x20 * hi + 2 * lo;
            var p := (rest - s * 0x1000) % 0x2000;
            && (p / 0x800) % 2 == a && (p / 2) % 0x10 == lo
            && (p / 0x20) % 0x40 == hi && p / 0x1000 == s
  {
    var rest := 0x800 * a + 0x20 * hi + 2 * lo;
    DivUnique(rest - s * 0x1000, 0x2000, -(s as int), 0x1000 * s + rest);
    var p := 0x1000 * s + rest;
    FieldOf(p, 0x800, 2, 0x20 * hi + 2 * lo, a, s);
    FieldOf(p, 2, 0x10, 0, lo, hi + 0x40 * a + 0x80 * s);
    FieldOf(p, 0x20, 0x40, 2 * lo, hi, a + 2 * s);
    DivUnique(p, 0x1000, s, rest);
  }

  /** Gathering the scattered chunks of a valid B immediate gives it back. */
  lemma BImmGather(imm: int)
    requires -0x1000 <= imm < 0x1000 && imm % 2 == 0
    ensures var p := imm % 0x2000;
            var rd := (p / 0x800) % 2 + 2 * ((p / 2) % 0x10);
            var funct7 := (p / 0x20) % 0x40 + 0x40 * (p / 0x1000);
            && rd < 0x20 && funct7 < 0x80 && BImm(rd, funct7) == imm
  {
    var p := imm % 0x2000;
    BImmDigits(p);
    ModMod(imm, 2, 0x1000);
    var s, a, hi, lo := p / 0x1000, (p / 0x800) % 2, (p / 0x20) % 0x40, (p / 2) % 0x10;
    BImmOfPieces(s, a, hi, lo);
    Window13(imm, s);
  }

  /** A 13-bit window: the pattern minus 2^13 when its top bit is set. */
  lemma Window13(imm: int, s: nat)
    requires -0x1000 <= imm < 0x1000 && s == (imm % 0x2000) / 0x1000
    ensures imm == imm % 0x2000 - 0x2000 * s
  {
    if imm < 0 {
      DivUnique(imm, 0x2000, -1, imm + 0x2000);
    } else {
      DivUnique(imm, 0x2000, 0, imm);
    }
  }

  lemma BtypeFromLosesNothing(w: u32)
    ensures EncodeB(BtypeFrom(w), Opcode(w)) == w
  {
    var c := RtypeFrom(w);
    RtypeFromLosesNothing(w);
    BImmScatter(c.rd, c.funct7);
  }

  lemma BtypeFromEncode(b: Btype, opcode: nat)
    requires b.Valid() && opcode < 0x80
    ensures EncodeB(b, opcode) < TWO_32
    ensures Opcode(EncodeB(b, opcode)) == opcode
    ensures BtypeFrom(EncodeB(b, opcode)) == b
  {
    var p := b.imm % 0x2000;
    var rd := (p / 0x800) % 2 + 2 * ((p / 2) % 0x10);
    var f7 := (p / 0x20) % 0x40 + 0x40 * (p / 0x1000);
    BImmGather(b.imm);
    RtypeFromEncode(Rtype(rd, b.funct3, b.rs1, b.rs2, f7), opcode);
  }

  // ---------------------------------------------------------------- J-type

  /** J-type immediates follow figure 2.4 of the ISA: imm[20] in bit 31,
      imm[10:1] in bits 30:21, imm[11] in bit 20, imm[19:12] in bits 19:12 and
      an implicit zero in imm[0]; the fields are again taken from the R-type
      chunks. */
  function JtypeFrom(w: u32): (r: Jtype)
    ensures r.Valid()
    ensures r.imm < 0 <==> w >= TWO_31
  {
    var c := RtypeFrom(w);
    SignIsFunct7Bit6(w);
    Jtype(rd := c.rd, imm := JImm(c.funct3, c.rs1, c.rs2, c.funct7))
  }

  function EncodeJ(j: Jtype, opcode: nat): (w: nat)
  {
    var p := j.imm % 0x20_0000;
    EncodeR(Rtype(j.rd, (p / 0x1000) % 8, (p / 0x8000) % 0x20,
                  (p / 0x800) % 2 + 2 * ((p / 2) % 0x10),
                  (p / 0x20) % 0x40 + 0x40 * (p / 0x10_0000)), opcode)
  }

  /** The scattered pieces of a 21-bit J immediate pattern rebuild it. */
  lemma JImmDigits(p: nat)
    requires p < 0x20_0000
    ensures p / 0x10_0000 < 2
    ensures p == 0x10_0000 * (p / 0x10_0000) + 0x8000 * ((p / 0x8000) % 0x20)
                 + 0x1000 * ((p / 0x1000) % 8) + 0x800 * ((p / 0x800) % 2)
                 + 0x20 * ((p / 0x20) % 0x40) + 2 * ((p / 2) % 0x10) + p % 2
  {
    DivDiv(p, 2, 0x10);
    DivDiv(p, 0x20, 0x40);
    DivDiv(p, 0x800, 2);
    DivDiv(p, 0x1000, 8);
    DivDiv(p, 0x8000, 0x20);
    assert p == p % 2 + 2 * (p / 2);
    assert p / 2 == (p / 2) % 0x10 + 0x10 * (p / 0x20);
    assert p / 0x20 == (p / 0x20) % 0x40 + 0x40 * (p / 0x800);
    assert p / 0x800 == (p / 0x800) % 2 + 2 * (p / 0x1000);
    assert p / 0x1000 == (p / 0x1000) % 8 + 8 * (p / 0x8000);
    assert p / 0x8000 == (p / 0x8000) % 0x20 + 0x20 * (p / 0x10_0000);
  }

  /** The J immediate assembled from the funct3, rs1, rs2 and funct7 chunks. */
  function JImm(funct3: nat, rs1: nat, rs2: nat, funct7: nat): (imm: int)
    requires funct3 < 8 && rs1 < 0x20 && rs2 < 0x20 && funct7 < 0x80
    ensures -0x10_0000 <= imm < 0x10_0000 && imm % 2 == 0
    ensures imm < 0 <==> funct7 >= 0x40
  {
    var sign, hi, a, lo := funct7 / 0x40, funct7 % 0x40, rs2 % 2, rs2 / 2;
    assert sign < 2 && lo < 0x10 && (sign == 1 <==> funct7 >= 0x40);
    var half := -sign * 0x8_0000 + (funct3 + 8 * rs1) * 0x800 + a * 0x400 + hi * 0x10 + lo;
    DivUnique(2 * half, 2, half, 0);
    2 * half
  }

  /** The J immediate of chunks given by their pieces: the sign, imm[19:12]
      (funct3 and rs1), imm[11], imm[10:5] and imm[4:1]. */
  lemma JImmOfPieces(funct3: nat, rs1: nat, sign: nat, a: nat, hi: nat, lo: nat)
    requires funct3 < 8 && rs1 < 0x20 && sign < 2 && a < 2 && hi < 0x40 && lo < 0x10
    ensures JImm(funct3, rs1, a + 2 * lo, hi + 0x40 * sign)
            == 0x8000 * rs1 + 0x1000 * funct3 + 0x800 * a + 0x20 * hi + 2 * lo - sign * 0x10_0000
  {
    DivUnique(a + 2 * lo, 2, lo, a);
    DivUnique(hi + 0x40 * sign, 0x40, sign, hi);
  }

  /** Scattering a J immediate's pattern gives back the chunks it came from. */
  lemma JImmScatter(funct3: nat, rs1: nat, rs2: nat, funct7: nat)
    requires funct3 < 8 && rs1 < 0x20 && rs2 < 0x20 && funct7 < 0x80
    ensures var p := JImm(funct3, rs1, rs2, funct7) % 0x20_0000;
            && (p / 0x1000) % 8 == funct3
            && (p / 0x8000) % 0x20 == rs1
            && (p / 0x800) % 2 + 2 * ((p / 2) % 0x10) == rs2
            && (p / 0x20) % 0x40 + 0x40 * (p / 0x10_0000) == funct7
  {
    var s, a, hi, lo := funct7 / 0x40, rs2 % 2, funct7 % 0x40, rs2 / 2;
    assert rs2 == a + 2 * lo && funct7 == hi + 0x40 * s && s < 2 && lo < 0x10;
    JImmOfPieces(funct3, rs1, s, a, hi, lo);
    JPatternFields(funct3, rs1, s, a, hi, lo);
  }

  /** The fields of the 21-bit pattern of a J immediate given by its pieces. */
  lemma JPatternFields(funct3: nat, rs1: nat, s: nat, a: nat, hi: nat, lo: nat)
    requires funct3 < 8 && rs1 < 0x20 && s < 2 && a < 2 && hi < 0x40 && lo < 0x10
    ensures var rest := 0x8000 * rs1 + 0x1000 * funct3 + 0x800 * a + 0x20 * hi + 2 * lo;
            var p := (rest - s * 0x10_0000) % 0x20_0000;
            && (p / 0x1000) % 8 == funct3
            && (p / 0x8000) % 0x20 == rs1
            && (p / 0x800) % 2 == a && (p / 2) % 0x10 == lo
            && (p / 0x20) % 0x40 == hi && p / 0x10_0000 == s
  {
    var rest := 0x8000 * rs1 + 0x1000 * funct3 + 0x800 * a + 0x20 * hi + 2 * lo;
    DivUnique(rest - s * 0x10_0000, 0x20_0000, -(s as int), 0x10_0000 * s + rest);
    var p := 0x10_0000 * s + rest;
    FieldOf(p, 2, 0x10, 0, lo, hi + 0x40 * a + 0x80 * funct3 + 0x400 * rs1 + 0x8000 * s);
    FieldOf(p, 0x20, 0x40, 2 * lo, hi, a + 2 * funct3 + 0x10 * rs1 + 0x200 * s);
    FieldOf(p, 0x800, 2, 0x20 * hi + 2 * lo, a, funct3 + 8 * rs1 + 0x100 * s);
    FieldOf(p, 0x1000, 8, 0x800 * a + 0x20 * hi + 2 * lo, funct3, rs1 + 0x20 * s);
    FieldOf(p, 0x8000, 0x20, 0x1000 * funct3 + 0x800 * a + 0x20 * hi + 2 * lo, rs1, s);
    DivUnique(p, 0x10_0000, s, rest);
  }

  /** Gathering the scattered chunks of a valid J immediate gives it back. */
  lemma JImmGather(imm: int)
    requires -0x10_0000 <= imm < 0x10_0000 && imm % 2 == 0
    ensures var p := imm % 0x20_0000;
            var funct3 := (p / 0x1000) % 8;
            var rs1 := (p / 0x8000) % 0x20;
            var rs2 := (p / 0x800) % 2 + 2 * ((p / 2) % 0x10);
            var funct7 := (p / 0x20) % 0x40 + 0x40 * (p / 0x10_0000);
            && rs2 < 0x20 && funct7 < 0x80 && JImm(funct3, rs1, rs2, funct7) == imm
  {
    var p := imm % 0x20_0000;
    JImmDigits(p);
    ModMod(imm, 2, 0x10_0000);
    var funct3, rs1 := (p / 0x1000) % 8, (p / 0x8000) % 0x20;
    var s, a, hi, lo := p / 0x10_0000, (p / 0x800) % 2, (p / 0x20) % 0x40, (p / 2) % 0x10;
    JImmOfPieces(funct3, rs1, s, a, hi, lo);
    Window21(imm, s);
  }

  /** A 21-bit window: the pattern minus 2^21 when its top bit is set. */
  lemma Window21(imm: int, s: nat)
    requires -0x10_0000 <= imm < 0x10_0000 && s == (imm % 0x20_0000) / 0x10_0000
    ensures imm == imm % 0x20_0000 - 0x20_0000 * s
  {
    if imm < 0 {
      DivUnique(imm, 0x20_0000, -1, imm + 0x20_0000);
    } else {
      DivUnique(imm, 0x20_0000, 0, imm);
    }
  }

  lemma JtypeFromLosesNothing(w: u32)
    ensures EncodeJ(JtypeFrom(w), Opcode(w)) == w
  {
    var c := RtypeFrom(w);
    RtypeFromLosesNothing(w);
    JImmScatter(c.funct3, c.rs1, c.rs2, c.funct7);
  }

  lemma JtypeFromEncode(j: Jtype, opcode: nat)
    requires j.Valid() && opcode < 0x80
    ensures EncodeJ(j, opcode) < TWO_32
    ensures Opcode(EncodeJ(j, opcode)) == opcode
    ensures JtypeFrom(EncodeJ(j, opcode)) == j
  {
    var p := j.imm % 0x20_0000;
    var rs2 := (p / 0x800) % 2 + 2 * ((p / 2) % 0x10);
    var f7 := (p / 0x20) % 0x40 + 0x40 * (p / 0x10_0000);
    JImmGather(j.imm);
    RtypeFromEncode(Rtype(j.rd, (p / 0x1000) % 8, (p / 0x8000) % 0x20, rs2, f7), opcode);
  }
}
