/**
 * The part of the RISC-V base encoding that the boot stub uses: the U-type
 * AUIPC, the I-type ADDI, LW, LD and JALR, and CSRRS from the Zicsr
 * extension (section 2.2 of the RISC-V Unprivileged ISA gives the formats;
 * 2.4, 2.5, 2.6, 5.3 and the Zicsr chapter give the instructions).
 * Register numbers, immediates and CSR numbers are kept as raw field values.
 */
module RiscV {
  import opened Wrappers

  // ABI register numbers
  const X0: bv32 := 0
  const T0: bv32 := 5
  const A0: bv32 := 10
  const A1: bv32 := 11
  const A2: bv32 := 12

  /** Machine hart id register (section 3.1.5 of the RISC-V Privileged Architecture). */
  const CSR_MHARTID: bv32 := 0xF14

  // Major opcodes
  const OPCODE_LOAD: bv32 := 0x03
  const OPCODE_OP_IMM: bv32 := 0x13
  const OPCODE_AUIPC: bv32 := 0x17
  const OPCODE_JALR: bv32 := 0x67
  const OPCODE_SYSTEM: bv32 := 0x73

  // funct3 values
  const FUNCT3_ADDI: bv32 := 0
  const FUNCT3_LW: bv32 := 2
  const FUNCT3_LD: bv32 := 3
  const FUNCT3_JALR: bv32 := 0
  const FUNCT3_CSRRS: bv32 := 2

  datatype LoadWidth = Word | Double

  datatype Instr =
    | Auipc(rd: bv32, imm20: bv32)
    | Addi(rd: bv32, rs1: bv32, imm12: bv32)
    | Csrrs(rd: bv32, csr: bv32, rs1: bv32)
    | Load(width: LoadWidth, rd: bv32, rs1: bv32, imm12: bv32)
    | Jalr(rd: bv32, rs1: bv32, imm12: bv32)

  /** Every field fits its slot: 5-bit registers, 12-bit I immediates and CSR numbers, 20-bit U immediates. */
  predicate WellFormed(i: Instr)
  {
    match i
    case Auipc(rd, imm20) => rd < 32 && imm20 < 0x10_0000
    case Addi(rd, rs1, imm12) => rd < 32 && rs1 < 32 && imm12 < 0x1000
    case Csrrs(rd, csr, rs1) => rd < 32 && csr < 0x1000 && rs1 < 32
    case Load(_, rd, rs1, imm12) => rd < 32 && rs1 < 32 && imm12 < 0x1000
    case Jalr(rd, rs1, imm12) => rd < 32 && rs1 < 32 && imm12 < 0x1000
  }

  // Field extraction
  function Opcode(w: bv32): bv32 { w & 0x7f }
  function Rd(w: bv32): bv32 { (w >> 7) & 0x1f }
  function Funct3(w: bv32): bv32 { (w >> 12) & 0x7 }
  function Rs1(w: bv32): bv32 { (w >> 15) & 0x1f }
  function ImmI(w: bv32): bv32 { w >> 20 }
  function ImmU(w: bv32): bv32 { w >> 12 }

  function IType(opcode: bv32, funct3: bv32, rd: bv32, rs1: bv32, imm12: bv32): bv32
  {
    opcode | (rd << 7) | (funct3 << 12) | (rs1 << 15) | (imm12 << 20)
  }

  function UType(opcode: bv32, rd: bv32, imm20: bv32): bv32
  {
    opcode | (rd << 7) | (imm20 << 12)
  }

  function Encode(i: Instr): bv32
  {
    match i
    case Auipc(rd, imm20) => UType(OPCODE_AUIPC, rd, imm20)
    case Addi(rd, rs1, imm12) => IType(OPCODE_OP_IMM, FUNCT3_ADDI, rd, rs1, imm12)
    case Csrrs(rd, csr, rs1) => IType(OPCODE_SYSTEM, FUNCT3_CSRRS, rd, rs1, csr)
    case Load(width, rd, rs1, imm12) =>
      IType(OPCODE_LOAD, if width == Word then FUNCT3_LW else FUNCT3_LD, rd, rs1, imm12)
    case Jalr(rd, rs1, imm12) => IType(OPCODE_JALR, FUNCT3_JALR, rd, rs1, imm12)
  }

  /** Decodes the instructions above; every other encoding gives None. */
  function Decode(w: bv32): Option<Instr>
  {
    var op, f3 := Opcode(w), Funct3(w);
    if op == OPCODE_AUIPC then Some(Auipc(Rd(w), ImmU(w)))
    else if op == OPCODE_OP_IMM && f3 == FUNCT3_ADDI then Some(Addi(Rd(w), Rs1(w), ImmI(w)))
    else if op == OPCODE_SYSTEM && f3 == FUNCT3_CSRRS then Some(Csrrs(Rd(w), ImmI(w), Rs1(w)))
    else if op == OPCODE_LOAD && f3 == FUNCT3_LW then Some(Load(Word, Rd(w), Rs1(w), ImmI(w)))
    else if op == OPCODE_LOAD && f3 == FUNCT3_LD then Some(Load(Double, Rd(w), Rs1(w), ImmI(w)))
    else if op == OPCODE_JALR && f3 == FUNCT3_JALR then Some(Jalr(Rd(w), Rs1(w), ImmI(w)))
    else None
  }

  lemma ITypeFields(opcode: bv32, funct3: bv32, rd: bv32, rs1: bv32, imm12: bv32)
    requires opcode < 0x80 && funct3 < 8 && rd < 32 && rs1 < 32 && imm12 < 0x1000
    ensures var w := IType(opcode, funct3, rd, rs1, imm12);
      Opcode(w) == opcode && Funct3(w) == funct3 && Rd(w) == rd && Rs1(w) == rs1 && ImmI(w) == imm12
  {
  }

  lemma UTypeFields(opcode: bv32, rd: bv32, imm20: bv32)
    requires opcode < 0x80 && rd < 32 && imm20 < 0x10_0000
    ensures var w := UType(opcode, rd, imm20);
      Opcode(w) == opcode && Rd(w) == rd && ImmU(w) == imm20
  {
  }

  /** Decoding an encoded instruction gives the instruction back. */
  lemma DecodeEncode(i: Instr)
    requires WellFormed(i)
    ensures Decode(Encode(i)) == Some(i)
  {
    match i
    case Auipc(rd, imm20) => UTypeFields(OPCODE_AUIPC, rd, imm20);
    case Addi(rd, rs1, imm12) => ITypeFields(OPCODE_OP_IMM, FUNCT3_ADDI, rd, rs1, imm12);
    case Csrrs(rd, csr, rs1) => ITypeFields(OPCODE_SYSTEM, FUNCT3_CSRRS, rd, rs1, csr);
    case Load(width, rd, rs1, imm12) =>
      ITypeFields(OPCODE_LOAD, if width == Word then FUNCT3_LW else FUNCT3_LD, rd, rs1, imm12);
    case Jalr(rd, rs1, imm12) => ITypeFields(OPCODE_JALR, FUNCT3_JALR, rd, rs1, imm12);
  }

  lemma ITypeJoin(w: bv32)
    ensures IType(Opcode(w), Funct3(w), Rd(w), Rs1(w), ImmI(w)) == w
  {
  }

  lemma UTypeJoin(w: bv32)
    ensures UType(Opcode(w), Rd(w), ImmU(w)) == w
  {
  }

  /** Every word Decode accepts is the encoding of what it decodes to: no bits are ignored. */
  lemma EncodeDecode(w: bv32)
    requires Decode(w).Some?
    ensures WellFormed(Decode(w).value) && Encode(Decode(w).value) == w
  {
    if Opcode(w) == OPCODE_AUIPC {
      UTypeJoin(w);
    } else {
      ITypeJoin(w);
    }
  }
}
