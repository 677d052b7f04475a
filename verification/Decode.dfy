/** The BEST/2 instruction decoder (decode.rs). */
module Decode {
  import opened Wrappers
  import opened Words
  import opened Bytecode

  // ---- cursor reads as functions of (code, pos) ----

  function U8(code: seq<byte>, pos: nat): Result<(byte, nat), DecodeError> {
    if pos < |code| then Ok((code[pos], pos + 1)) else Err(Truncated)
  }

  function Slice(code: seq<byte>, pos: nat, n: nat): Result<(seq<byte>, nat), DecodeError> {
    if pos + n <= |code| then Ok((code[pos..pos + n], pos + n)) else Err(Truncated)
  }

  function U16(code: seq<byte>, pos: nat): Result<(u16, nat), DecodeError> {
    var (lo, p1) :- U8(code, pos);
    var (hi, p2) :- U8(code, p1);
    Ok((lo as int + 0x100 * hi as int, p2))
  }

  function U32(code: seq<byte>, pos: nat): Result<(u32, nat), DecodeError> {
    var (b0, p1) :- U8(code, pos);
    var (b1, p2) :- U8(code, p1);
    var (b2, p3) :- U8(code, p2);
    var (b3, p4) :- U8(code, p3);
    Ok((b0 as int + 0x100 * b1 as int + 0x1_0000 * b2 as int + 0x100_0000 * b3 as int, p4))
  }

  function RegAt(code: seq<byte>, pos: nat): Result<(RegId, nat), DecodeError> {
    var (selector, p) :- U8(code, pos);
    var reg :- Register(selector);
    Ok((reg, p))
  }

  function ImmIndexAt(code: seq<byte>, pos: nat): Result<(IndexArg, nat), DecodeError> {
    var (v, p) :- U16(code, pos);
    Ok((ImmIndex(v), p))
  }

  function RegIndexAt(code: seq<byte>, pos: nat): Result<(IndexArg, nat), DecodeError> {
    var (reg, p) :- RegAt(code, pos);
    Ok((RegIndex(reg), p))
  }

  /** The index, and whether a trailing length or increment follows, of an indexed mode. */
  predicate IndexIsImm(mode: AddrMode) {
    mode.IdxImm? || mode.IdxImmLenImm? || mode.IdxImmLenReg?
  }

  predicate HasTrailer(mode: AddrMode) {
    !mode.IdxImm? && !mode.IdxReg?
  }

  predicate TrailerIsImm(mode: AddrMode) {
    mode.IdxRegImm? || mode.IdxImmLenImm? || mode.IdxRegLenImm?
  }

  predicate IsIndexed(mode: AddrMode) {
    || mode.IdxImm? || mode.IdxReg? || mode.IdxRegImm?
    || mode.IdxImmLenImm? || mode.IdxImmLenReg? || mode.IdxRegLenImm? || mode.IdxRegLenReg?
  }

  function IndexAt(code: seq<byte>, pos: nat, imm: bool): Result<(IndexArg, nat), DecodeError> {
    if imm then ImmIndexAt(code, pos) else RegIndexAt(code, pos)
  }

  function IndexedAt(code: seq<byte>, pos: nat, mode: AddrMode): Result<(Operand, nat), DecodeError> {
    var (base, p1) :- RegAt(code, pos);
    var (index, p2) :- IndexAt(code, p1, IndexIsImm(mode));
    if HasTrailer(mode) then
      var (len, p3) :- IndexAt(code, p2, TrailerIsImm(mode));
      Ok((Indexed(base, index, Some(len)), p3))
    else
      Ok((Indexed(base, index, None), p2))
  }

  function OperandAt(code: seq<byte>, pos: nat, mode: AddrMode): Result<(Operand, nat), DecodeError> {
    match mode
    case ModeNone => Ok((NoOperand, pos))
    case RegS | RegAb | RegI | RegL =>
      var (reg, p) :- RegAt(code, pos);
      Ok((Reg(reg), p))
    case Imm8 =>
      var (v, p) :- U8(code, pos);
      Ok((Imm(v), p))
    case Imm16 =>
      var (v, p) :- U16(code, pos);
      Ok((Imm(v), p))
    case Imm32 =>
      var (v, p) :- U32(code, pos);
      Ok((Imm(v), p))
    case ImmStr =>
      var (n, p) :- U16(code, pos);
      var (bytes, p') :- Slice(code, p, n);
      Ok((Str(bytes), p'))
    case _ => IndexedAt(code, pos, mode)
  }

  /** The one instruction at `pos`; the opcode is vetted before its mode byte is read. */
  function DecodeOne(code: seq<byte>, pos: nat): Result<Op, DecodeError> {
    var (byte, p0) :- U8(code, pos);
    if byte > 0xB7 then Err(UnknownOpcode(byte))
    else if IsUnimplemented(byte) then Err(Unimplemented(byte))
    else
      var (modeByte, p1) :- U8(code, p0);
      var (arg0, p2) :- OperandAt(code, p1, FromNibble(modeByte / 16));
      var (arg1, p3) :- OperandAt(code, p2, FromNibble(modeByte % 16));
      Ok(Op(byte, modeByte, arg0, arg1, if p3 >= pos then p3 - pos else 0, pos))
  }

  lemma OperandAdvances(code: seq<byte>, pos: nat, mode: AddrMode)
    requires pos <= |code|
    ensures OperandAt(code, pos, mode).Ok? ==> pos <= OperandAt(code, pos, mode).value.1 <= |code|
  {
  }

  lemma DecodeOneAdvances(code: seq<byte>, pos: nat)
    requires DecodeOne(code, pos).Ok?
    ensures var op := DecodeOne(code, pos).value; op.offset == pos && op.len >= 2 && pos + op.len <= |code|
  {
    var modeByte := code[pos + 1];
    OperandAdvances(code, pos + 2, FromNibble(modeByte / 16));
    OperandAdvances(code, OperandAt(code, pos + 2, FromNibble(modeByte / 16)).value.1, FromNibble(modeByte % 16));
  }

  /** The walk from `pos` on; `seenEoj` decides whether a bad tail is padding. */
  function DecodeFrom(code: seq<byte>, pos: nat, seenEoj: bool): Result<seq<Op>, DecodeError>
    decreases |code| - pos
  {
    if pos >= |code| then Ok([])
    else
      match DecodeOne(code, pos)
      case Ok(op) =>
        DecodeOneAdvances(code, pos);
        var rest :- DecodeFrom(code, pos + op.len, seenEoj || op.byte == EOJ);
        Ok([op] + rest)
      case Err(e) => if seenEoj then Ok([]) else Err(e)
  }

  function DecodeJob(code: seq<byte>): Result<seq<Op>, DecodeError> {
    DecodeFrom(code, 0, false)
  }

  /** `tail` with `ops` in front of what it decoded. */
  function Prepend(ops: seq<Op>, tail: Result<seq<Op>, DecodeError>): Result<seq<Op>, DecodeError> {
    match tail
    case Ok(rest) => Ok(ops + rest)
    case Err(e) => Err(e)
  }

  lemma PrependNothing(tail: Result<seq<Op>, DecodeError>)
    ensures Prepend([], tail) == tail
  {
    if tail.Ok? {
      assert [] + tail.value == tail.value;
    }
  }

  /** One turn of the walk, seen with the instructions already collected in front. */
  lemma DecodeFromSteps(code: seq<byte>, pos: nat, ops: seq<Op>, seenEoj: bool)
    ensures Prepend(ops, DecodeFrom(code, pos, seenEoj)) ==
            if pos >= |code| then Ok(ops)
            else
              match DecodeOne(code, pos)
              case Ok(op) => Prepend(ops + [op], DecodeFrom(code, pos + op.len, seenEoj || op.byte == EOJ))
              case Err(e) => if seenEoj then Ok(ops) else Err(e)
    ensures DecodeOne(code, pos).Ok? ==>
              var len := DecodeOne(code, pos).value.len; pos + len <= |code| && len > 0
  {
    hide DecodeOne;
    assert ops + [] == ops;
    if DecodeOne(code, pos).Ok? {
      DecodeOneAdvances(code, pos);
      var op := DecodeOne(code, pos).value;
      var rest := DecodeFrom(code, pos + op.len, seenEoj || op.byte == EOJ);
      assert rest.Ok? ==> ops + ([op] + rest.value) == ops + [op] + rest.value;
    }
  }

  // ---- the same decoder as the source runs it: a mutable cursor ----

  class Reader {
    const code: seq<byte>
    var pos: nat

    constructor (code: seq<byte>)
      ensures this.code == code && pos == 0
    {
      this.code := code;
      pos := 0;
    }

    method ReadU8() returns (r: Result<byte, DecodeError>)
      modifies this
      ensures match U8(code, old(pos)) case Ok((v, p)) => r == Ok(v) && pos == p case Err(e) => r == Err(e)
    {
      if pos >= |code| {
        return Err(Truncated);
      }
      pos := pos + 1;
      return Ok(code[pos - 1]);
    }

    method ReadBytes(n: nat) returns (r: Result<seq<byte>, DecodeError>)
      modifies this
      ensures match Slice(code, old(pos), n) case Ok((v, p)) => r == Ok(v) && pos == p case Err(e) => r == Err(e)
    {
      if pos + n > |code| {
        return Err(Truncated);
      }
      pos := pos + n;
      return Ok(code[pos - n..pos]);
    }

    method ReadU16() returns (r: Result<u16, DecodeError>)
      modifies this
      ensures match U16(code, old(pos)) case Ok((v, p)) => r == Ok(v) && pos == p case Err(e) => r == Err(e)
    {
      var lo :- ReadU8();
      var hi :- ReadU8();
      return Ok(lo as int + 0x100 * hi as int);
    }

    method ReadU32() returns (r: Result<u32, DecodeError>)
      modifies this
      ensures match U32(code, old(pos)) case Ok((v, p)) => r == Ok(v) && pos == p case Err(e) => r == Err(e)
    {
      var b0 :- ReadU8();
      var b1 :- ReadU8();
      var b2 :- ReadU8();
      var b3 :- ReadU8();
      return Ok(b0 as int + 0x100 * b1 as int + 0x1_0000 * b2 as int + 0x100_0000 * b3 as int);
    }

    method ReadRegister() returns (r: Result<RegId, DecodeError>)
      modifies this
      ensures match RegAt(code, old(pos)) case Ok((v, p)) => r == Ok(v) && pos == p case Err(e) => r == Err(e)
    {
      var selector :- ReadU8();
      r := Register(selector);
    }

    method ReadIndex(imm: bool) returns (r: Result<IndexArg, DecodeError>)
      modifies this
      ensures match IndexAt(code, old(pos), imm) case Ok((v, p)) => r == Ok(v) && pos == p case Err(e) => r == Err(e)
    {
      if imm {
        var v :- ReadU16();
        return Ok(ImmIndex(v));
      }
      var reg :- ReadRegister();
      return Ok(RegIndex(reg));
    }

    method ReadIndexed(mode: AddrMode) returns (r: Result<Operand, DecodeError>)
      modifies this
      ensures match IndexedAt(code, old(pos), mode) case Ok((v, p)) => r == Ok(v) && pos == p case Err(e) => r == Err(e)
    {
      var base :- ReadRegister();
      var index :- ReadIndex(IndexIsImm(mode));
      if !HasTrailer(mode) {
        return Ok(Indexed(base, index, None));
      }
      var len :- ReadIndex(TrailerIsImm(mode));
      return Ok(Indexed(base, index, Some(len)));
    }

    method ReadOperand(mode: AddrMode) returns (r: Result<Operand, DecodeError>)
      modifies this
      ensures match OperandAt(code, old(pos), mode) case Ok((v, p)) => r == Ok(v) && pos == p case Err(e) => r == Err(e)
    {
      match mode {
        case ModeNone =>
          return Ok(NoOperand);
        case RegS | RegAb | RegI | RegL =>
          var reg :- ReadRegister();
          return Ok(Reg(reg));
        case Imm8 =>
          var v :- ReadU8();
          return Ok(Imm(v));
        case Imm16 =>
          var v :- ReadU16();
          return Ok(Imm(v));
        case Imm32 =>
          var v :- ReadU32();
          return Ok(Imm(v));
        case ImmStr =>
          var n :- ReadU16();
          var bytes :- ReadBytes(n);
          return Ok(Str(bytes));
        case _ =>
          r := ReadIndexed(mode);
      }
    }

    method ReadOp() returns (r: Result<Op, DecodeError>)
      modifies this
      ensures r == DecodeOne(code, old(pos))
      ensures r.Ok? ==> pos == old(pos) + r.value.len
    {
      var offset := pos;
      var byte :- ReadU8();
      if byte > 0xB7 {
        return Err(UnknownOpcode(byte));
      }
      if IsUnimplemented(byte) {
        return Err(Unimplemented(byte));
      }
      var modeByte :- ReadU8();
      var arg0 :- ReadOperand(FromNibble(modeByte / 16));
      var arg1 :- ReadOperand(FromNibble(modeByte % 16));
      DecodeOneAdvances(code, offset);
      return Ok(Op(byte, modeByte, arg0, arg1, pos - offset, offset));
    }
  }

  method RunDecoder(code: seq<byte>) returns (r: Result<seq<Op>, DecodeError>)
    ensures r == DecodeJob(code)
  {
    hide DecodeOne, DecodeFrom, Prepend;
    var reader := new Reader(code);
    var ops: seq<Op> := [];
    var seenEoj := false;
    PrependNothing(DecodeJob(code));
    while reader.pos < |code|
      invariant reader.code == code
      invariant DecodeJob(code) == Prepend(ops, DecodeFrom(code, reader.pos, seenEoj))
      decreases |code| - reader.pos
    {
      var at := reader.pos;
      var one := reader.ReadOp();
      match one {
        case Ok(op) =>
          DecodeFromSteps(code, at, ops, seenEoj);
          seenEoj := seenEoj || op.byte == EOJ;
          ops := ops + [op];
        case Err(e) =>
          DecodeFromSteps(code, at, ops, seenEoj);
          return if seenEoj then Ok(ops) else Err(e);
      }
    }
    DecodeFromSteps(code, reader.pos, ops, seenEoj);
    return Ok(ops);
  }
}
