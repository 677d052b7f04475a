/**
 The instruction format byte by byte: what each mode nibble, register selector and opcode
 means, stated over the code itself.
*/
module FormatLaws {
  import opened Wrappers
  import opened Words
  import opened Bytecode
  import opened Decode

  /** `code` holds `n` bytes at `pos`. */
  predicate Holds(code: seq<byte>, pos: nat, n: nat) {
    pos + n <= |code|
  }

  /** The byte at `pos` selects `reg`. */
  predicate Selects(code: seq<byte>, pos: nat, reg: RegId) {
    && pos < |code|
    && var selector := code[pos];
       match reg.bank
       case B => (reg.idx < 16 && selector == reg.idx) || (16 <= reg.idx < 32 && selector == 0x70 + reg.idx)
       case I => (reg.idx < 8 && selector == 0x10 + reg.idx) || (8 <= reg.idx < 16 && selector == 0x88 + reg.idx)
       case L => (reg.idx < 4 && selector == 0x18 + reg.idx) || (4 <= reg.idx < 8 && selector == 0x94 + reg.idx)
       case S => (reg.idx < 8 && selector == 0x1C + reg.idx) || (8 <= reg.idx < 16 && selector == 0x24 + reg.idx)
       case F => reg.idx < 8 && selector == 0x24 + reg.idx
  }

  /** The number in the `n` little-endian bytes at `pos`. */
  predicate Counts(code: seq<byte>, pos: nat, n: nat, v: int) {
    && Holds(code, pos, n)
    && v == (if n > 0 then code[pos] else 0) as int
            + 0x100 * (if n > 1 then code[pos + 1] else 0) as int
            + 0x1_0000 * (if n > 2 then code[pos + 2] else 0) as int
            + 0x100_0000 * (if n > 3 then code[pos + 3] else 0) as int
  }

  /** A register sub-operand takes one byte, an immediate one two. */
  predicate SpellsRegister(code: seq<byte>, pos: nat, arg: IndexArg) {
    arg.RegIndex? && Selects(code, pos, arg.reg)
  }

  predicate SpellsNumber(code: seq<byte>, pos: nat, arg: IndexArg) {
    arg.ImmIndex? && Counts(code, pos, 2, arg.v)
  }

  /** The bytes from `pos` to `end` spell `operand` in the addressing mode numbered `nibble`. */
  predicate Spells(code: seq<byte>, pos: nat, nibble: nat, operand: Operand, end: nat) {
    match operand
    case NoOperand => nibble == 0 && end == pos
    case Reg(reg) => 1 <= nibble <= 4 && Selects(code, pos, reg) && end == pos + 1
    case Imm(v) =>
      || (nibble == 5 && Counts(code, pos, 1, v) && end == pos + 1)
      || (nibble == 6 && Counts(code, pos, 2, v) && end == pos + 2)
      || (nibble == 7 && Counts(code, pos, 4, v) && end == pos + 4)
    case Str(bytes) =>
      && nibble == 8 && Counts(code, pos, 2, |bytes|)
      && end == pos + 2 + |bytes| && end <= |code| && code[pos + 2..end] == bytes
    case Indexed(base, index, None) =>
      && Selects(code, pos, base)
      && (|| (nibble == 9 && SpellsNumber(code, pos + 1, index) && end == pos + 3)
          || (nibble == 10 && SpellsRegister(code, pos + 1, index) && end == pos + 2))
    case Indexed(base, index, Some(len)) =>
      && Selects(code, pos, base)
      && (|| (nibble == 11 && end == pos + 4
              && SpellsRegister(code, pos + 1, index) && SpellsNumber(code, pos + 2, len))
          || (nibble == 12 && end == pos + 5
              && SpellsNumber(code, pos + 1, index) && SpellsNumber(code, pos + 3, len))
          || (nibble == 13 && end == pos + 4
              && SpellsNumber(code, pos + 1, index) && SpellsRegister(code, pos + 3, len))
          || (nibble == 14 && end == pos + 4
              && SpellsRegister(code, pos + 1, index) && SpellsNumber(code, pos + 2, len))
          || (nibble == 15 && end == pos + 3
              && SpellsRegister(code, pos + 1, index) && SpellsRegister(code, pos + 2, len)))
  }

  lemma RegisterIsSelected(code: seq<byte>, pos: nat, reg: RegId, end: nat)
    ensures RegAt(code, pos) == Ok((reg, end)) <==> Selects(code, pos, reg) && end == pos + 1
    ensures RegAt(code, pos).Ok? ==> RegAt(code, pos).value.1 == pos + 1
  {
  }

  lemma IndexIsSpelled(code: seq<byte>, pos: nat, arg: IndexArg, end: nat)
    ensures IndexAt(code, pos, true) == Ok((arg, end)) <==> SpellsNumber(code, pos, arg) && end == pos + 2
    ensures IndexAt(code, pos, false) == Ok((arg, end)) <==> SpellsRegister(code, pos, arg) && end == pos + 1
  {
    hide RegAt, Selects;
    if RegAt(code, pos).Ok? {
      RegisterIsSelected(code, pos, RegAt(code, pos).value.0, pos + 1);
    }
    if arg.RegIndex? {
      RegisterIsSelected(code, pos, arg.reg, end);
    }
  }

  lemma IndexedIsSpelled(code: seq<byte>, pos: nat, nibble: byte, operand: Operand, end: nat)
    requires 9 <= nibble <= 15
    ensures IndexedAt(code, pos, FromNibble(nibble)) == Ok((operand, end)) <==> Spells(code, pos, nibble, operand, end)
  {
    hide RegAt, Selects, IndexAt, SpellsNumber, SpellsRegister;
    var mode := FromNibble(nibble);
    if operand.Indexed? {
      RegisterIsSelected(code, pos, operand.base, pos + 1);
      var mid := if IndexIsImm(mode) then pos + 3 else pos + 2;
      IndexIsSpelled(code, pos + 1, operand.index, mid);
      if operand.len.Some? {
        IndexIsSpelled(code, mid, operand.len.value, end);
      }
    }
    if IndexedAt(code, pos, mode).Ok? {
      var read := IndexedAt(code, pos, mode).value;
      RegisterIsSelected(code, pos, read.0.base, RegAt(code, pos).value.1);
      var at := IndexAt(code, pos + 1, IndexIsImm(mode)).value;
      IndexIsSpelled(code, pos + 1, at.0, at.1);
      if HasTrailer(mode) {
        var last := IndexAt(code, at.1, TrailerIsImm(mode)).value;
        IndexIsSpelled(code, at.1, last.0, last.1);
      }
    }
  }

  lemma SimpleIsSpelled(code: seq<byte>, pos: nat, nibble: byte, operand: Operand, end: nat)
    requires nibble in {0, 5, 6, 7, 8} && pos <= |code|
    ensures OperandAt(code, pos, FromNibble(nibble)) == Ok((operand, end)) <==> Spells(code, pos, nibble, operand, end)
  {
    hide RegAt, Selects, IndexedAt, SpellsNumber, SpellsRegister;
  }

  /** The decoder reads an operand exactly as its mode nibble says. */
  lemma OperandIsSpelled(code: seq<byte>, pos: nat, nibble: byte, operand: Operand, end: nat)
    requires nibble < 16 && pos <= |code|
    ensures OperandAt(code, pos, FromNibble(nibble)) == Ok((operand, end)) <==> Spells(code, pos, nibble, operand, end)
  {
    hide RegAt, Selects, IndexedAt, SpellsNumber, SpellsRegister, Counts;
    if nibble >= 9 {
      IndexedIsSpelled(code, pos, nibble, operand, end);
    } else if 1 <= nibble <= 4 {
      if RegAt(code, pos).Ok? {
        RegisterIsSelected(code, pos, RegAt(code, pos).value.0, pos + 1);
      }
      if operand.Reg? {
        RegisterIsSelected(code, pos, operand.reg, end);
      }
    } else {
      SimpleIsSpelled(code, pos, nibble, operand, end);
    }
  }

  /** The opcode bytes the decoder takes. */
  predicate Decodable(b: byte) {
    b <= 0xB7 && b !in {0x70, 0x78, 0x84, 0x85, 0x86, 0x8D, 0xA0, 0xAF, 0xB0, 0xB1, 0xB2, 0xB3, 0xB4}
  }

  /** arg0 is spelled up to `mid`, and arg1 from there to the end of the instruction. */
  predicate SplitsAt(code: seq<byte>, pos: nat, op: Op, mid: nat) {
    && Spells(code, pos + 2, op.modeByte / 16, op.arg0, mid)
    && Spells(code, mid, op.modeByte % 16, op.arg1, pos + op.len)
  }

  lemma SpelledInside(code: seq<byte>, pos: nat, nibble: nat, operand: Operand, end: nat)
    requires pos <= |code| && Spells(code, pos, nibble, operand, end)
    ensures pos <= end <= |code|
  {
  }

  /**
   The whole format of one instruction: its opcode byte, its mode byte with arg0's mode in the
   high nibble and arg1's in the low one, and the two operands as their nibbles spell them.
  */
  lemma InstructionFormat(code: seq<byte>, pos: nat, op: Op)
    ensures DecodeOne(code, pos) == Ok(op) <==>
            && pos + 1 < |code| && Decodable(code[pos])
            && op.byte == code[pos] && op.modeByte == code[pos + 1] && op.offset == pos
            && exists mid: nat :: SplitsAt(code, pos, op, mid)
  {
    hide OperandAt, Spells, FromNibble;
    if DecodeOne(code, pos) == Ok(op) {
      var m := code[pos + 1];
      var mid := OperandAt(code, pos + 2, FromNibble(m / 16)).value.1;
      OperandIsSpelled(code, pos + 2, m / 16, op.arg0, mid);
      SpelledInside(code, pos + 2, m / 16, op.arg0, mid);
      var end := OperandAt(code, mid, FromNibble(m % 16)).value.1;
      OperandIsSpelled(code, mid, m % 16, op.arg1, end);
      SpelledInside(code, mid, m % 16, op.arg1, end);
      assert SplitsAt(code, pos, op, mid);
    }
    if mid: nat :| pos + 1 < |code| && Decodable(code[pos]) && op.byte == code[pos] && op.modeByte == code[pos + 1]
                   && op.offset == pos && SplitsAt(code, pos, op, mid) {
      SpelledInside(code, pos + 2, op.modeByte / 16, op.arg0, mid);
      OperandIsSpelled(code, pos + 2, op.modeByte / 16, op.arg0, mid);
      OperandIsSpelled(code, mid, op.modeByte % 16, op.arg1, pos + op.len);
    }
  }

  lemma OperandFault(code: seq<byte>, pos: nat, mode: AddrMode)
    ensures OperandAt(code, pos, mode).Err? ==>
              OperandAt(code, pos, mode).error.Truncated? || OperandAt(code, pos, mode).error.BadRegister?
  {
  }

  /** And how it fails: on the opcode byte before anything else is read. */
  lemma BadOpcode(code: seq<byte>, pos: nat)
    requires pos < |code|
    ensures DecodeOne(code, pos) == Err(UnknownOpcode(code[pos])) <==> code[pos] > 0xB7
    ensures DecodeOne(code, pos) == Err(DecodeError.Unimplemented(code[pos])) <==>
            code[pos] <= 0xB7 && !Decodable(code[pos])
  {
    hide OperandAt;
    if DecodeOne(code, pos).Err? && Decodable(code[pos]) && pos + 1 < |code| {
      var m := code[pos + 1];
      OperandFault(code, pos + 2, FromNibble(m / 16));
      if OperandAt(code, pos + 2, FromNibble(m / 16)).Ok? {
        OperandFault(code, OperandAt(code, pos + 2, FromNibble(m / 16)).value.1, FromNibble(m % 16));
      }
    }
  }
}
