/**
 * The shared part of the RISC-V decoder: the ISA-width gate, the closed set of
 * decoding errors and the operation shapes every word-width decoder provides.
 */
module Decode {
  import opened Wrappers
  import opened Bits

  /** The active ISA width, supplied by the caller of every decode. */
  datatype Isa = Rv32 | Rv64

  /** Why a decode failed; no partial instruction accompanies an error. */
  datatype DecodingError =
    | Not16BitInst   // 32-bit instructions were expected, but the word is a compressed one
    | Not32BitInst   // compressed instructions were expected, but the word is 32 bits long
    | IllegalFunct3  // the funct3 field has an unexpected value
    | IllegalFunct5  // the funct5 field has an unexpected value
    | IllegalFunct6  // the funct6 field has an unexpected value
    | IllegalFunct7  // the funct7 field has an unexpected value
    | IllegalOpcode  // the opcode field cannot be decoded
    | OnlyRv64Inst   // the instruction exists only on RV64 but is decoded under RV32

  /**
   * `only_rv64`: the gate for opcodes that exist only on RV64.  The opcode type
   * is a parameter, since the gate never looks at the opcode.
   */
  function OnlyRv64<Opcode>(opcode: Opcode, isa: Isa): (r: Result<Opcode, DecodingError>)
    ensures r.Err? <==> isa == Rv32
    ensures r.Err? ==> r.error == OnlyRv64Inst
    ensures r.Ok? ==> r.value == opcode
  {
    match isa
    case Rv32 => Err(OnlyRv64Inst)
    case Rv64 => Ok(opcode)
  }

  /** The gate's verdict depends on the ISA alone, never on the opcode. */
  lemma OnlyRv64VerdictIgnoresOpcode<Opcode>(a: Opcode, b: Opcode, isa: Isa)
    ensures OnlyRv64(a, isa).Ok? == OnlyRv64(b, isa).Ok?
  {
  }

  /** Passing an accepted opcode through the gate a second time changes nothing. */
  lemma OnlyRv64Idempotent<Opcode>(opcode: Opcode, isa: Isa)
    ensures OnlyRv64(opcode, isa).Ok? ==> OnlyRv64(OnlyRv64(opcode, isa).value, isa) == OnlyRv64(opcode, isa)
  {
  }

  /**
   * The operations of the `Decode` trait, one per field of a word-width
   * decoder: `decode`, `parse_opcode`, `parse_rd`, `parse_rs1`, `parse_rs2`
   * and `parse_imm`.  Only their shapes are given: registers are `usize`
   * indices, the immediate an `i32`, and every operation returns a
   * `DecodingError` on failure.  `Word` only appears as an argument, so it
   * is marked contravariant (`-`); `Opcode` appears both as a result and as
   * an argument, so it is marked non-variant (`!`).
   */
  datatype DecodeOps<-Word, !Opcode, Instruction> = DecodeOps(
    decode: (Word, Isa) -> Result<Instruction, DecodingError>,
    parseOpcode: (Word, Isa) -> Result<Opcode, DecodingError>,
    parseRd: (Word, Opcode) -> Result<Option<nat>, DecodingError>,
    parseRs1: (Word, Opcode) -> Result<Option<nat>, DecodingError>,
    parseRs2: (Word, Opcode) -> Result<Option<nat>, DecodingError>,
    parseImm: (Word, Opcode, Isa) -> Result<Option<int32>, DecodingError>)
}
