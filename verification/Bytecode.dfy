/** The BEST/2 instruction format (decode.rs, opcode.rs): operands, modes, registers. */
module Bytecode {
  import opened Wrappers
  import opened Words

  datatype RegBank = B | I | L | S | F

  datatype RegId = RegId(bank: RegBank, idx: byte)

  /** An index, length or increment sub-operand. */
  datatype IndexArg = ImmIndex(v: nat) | RegIndex(reg: RegId)

  datatype Operand =
    | NoOperand
    | Imm(v: u32)
    | Str(bytes: seq<byte>)
    | Reg(reg: RegId)
    | Indexed(base: RegId, index: IndexArg, len: Option<IndexArg>)

  datatype Op = Op(byte: byte, modeByte: byte, arg0: Operand, arg1: Operand, len: nat, offset: nat)

  datatype DecodeError =
    | UnknownOpcode(b: byte)
    | Unimplemented(b: byte)
    | BadRegister(b: byte)
    | Truncated

  datatype AddrMode =
    | ModeNone | RegS | RegAb | RegI | RegL | Imm8 | Imm16 | Imm32 | ImmStr
    | IdxImm | IdxReg | IdxRegImm | IdxImmLenImm | IdxImmLenReg | IdxRegLenImm | IdxRegLenReg

  const EOJ: byte := 0x1D

  function FromNibble(nibble: byte): AddrMode
    requires nibble < 16
  {
    [ModeNone, RegS, RegAb, RegI, RegL, Imm8, Imm16, Imm32, ImmStr,
     IdxImm, IdxReg, IdxRegImm, IdxImmLenImm, IdxImmLenReg, IdxRegLenImm, IdxRegLenReg][nibble]
  }

  function Mode0(op: Op): AddrMode {
    FromNibble(op.modeByte / 16)
  }

  function Mode1(op: Op): AddrMode {
    FromNibble(op.modeByte % 16)
  }

  /** The thirteen extended-communication opcodes EDIABAS itself leaves unhandled. */
  predicate IsUnimplemented(b: byte) {
    b in {0x70, 0x78, 0x84, 0x85, 0x86, 0x8D, 0xA0, 0xAF, 0xB0, 0xB1, 0xB2, 0xB3, 0xB4}
  }

  /** An opcode byte the decoder accepts. */
  predicate IsOpcode(b: byte) {
    b <= 0xB7 && !IsUnimplemented(b)
  }

  // ---- the register table ----

  function Register(selector: byte): Result<RegId, DecodeError> {
    if selector <= 0x0F then Ok(RegId(B, selector))
    else if selector <= 0x17 then Ok(RegId(I, selector - 0x10))
    else if selector <= 0x1B then Ok(RegId(L, selector - 0x18))
    else if selector <= 0x23 then Ok(RegId(S, selector - 0x1C))
    else if selector <= 0x2B then Ok(RegId(F, selector - 0x24))
    else if selector <= 0x33 then Ok(RegId(S, selector - 0x2C + 8))
    else if 0x80 <= selector <= 0x8F then Ok(RegId(B, selector - 0x80 + 16))
    else if 0x90 <= selector <= 0x97 then Ok(RegId(I, selector - 0x90 + 8))
    else if 0x98 <= selector <= 0x9B then Ok(RegId(L, selector - 0x98 + 4))
    else Err(BadRegister(selector))
  }

  /** The number of registers in a bank. */
  function BankSize(bank: RegBank): nat {
    match bank
    case B => 32
    case I => 16
    case L => 8
    case S => 16
    case F => 8
  }

  predicate Exists(reg: RegId) {
    reg.idx < BankSize(reg.bank)
  }

  /** The selector byte an assembler writes for `reg` (0 for a register that does not exist). */
  function Selector(reg: RegId): byte {
    if !Exists(reg) then 0 else
    match reg.bank
    case B => if reg.idx < 16 then reg.idx else reg.idx - 16 + 0x80
    case I => if reg.idx < 8 then reg.idx + 0x10 else reg.idx - 8 + 0x90
    case L => if reg.idx < 4 then reg.idx + 0x18 else reg.idx - 4 + 0x98
    case S => if reg.idx < 8 then reg.idx + 0x1C else reg.idx - 8 + 0x2C
    case F => reg.idx + 0x24
  }

  /**
   The selector table is a bijection between its valid selector bytes and the registers
   B0..31, I0..15, L0..7, S0..15 and F0..7. (So float registers are decodable, although
   decode.rs:32-33 says they never are.)
  */
  lemma RegisterTableIsBijective(selector: byte, reg: RegId)
    ensures Register(selector) == Ok(reg) <==> Exists(reg) && selector == Selector(reg)
    ensures Register(selector).Err? ==> Register(selector) == Err(BadRegister(selector))
  {
  }
}
