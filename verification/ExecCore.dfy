/** The move, arithmetic, shift, stack, branch and trap handlers of exec.rs. */
module ExecCore {
  import opened Wrappers
  import opened Words
  import opened Bytecode
  import opened MachineState
  import opened Alu
  import opened ExecBase

  /** Copies `source` over the front of `dest`, keeping any longer tail. */
  function OverFront(dest: seq<byte>, source: seq<byte>): seq<byte> {
    if |dest| < |source| then source else source + dest[|source|..]
  }

  function MoveToBuffer(st: State, op: Op): Out<Flow> {
    var (st, source) :- ReadBytes(st, op.arg1);
    var (st, dest) :- ReadBytes(st, op.arg0);
    var (st, _) :- Store(Write(st, op.arg0, BytesValue(OverFront(dest, source))));
    Done(WithFlags(st, NO_FLAGS), Next)
  }

  function MoveToIndexed(st: State, op: Op): Out<Flow> {
    var (st, value) :- ReadSource(st, op.arg1);
    match value
    case FloatValue(_) => Failed(InvalidOperand)
    case IntValue(v) =>
      var (st, _) :- WriteIndexedDest(st, op.arg0, value, 1);
      Done(WithFlags(st, UpdateZS(NO_FLAGS, v, 1)), Next)
    case BytesValue(_) =>
      var (st, _) :- WriteIndexedDest(st, op.arg0, value, 1);
      Done(WithFlags(st, NO_FLAGS), Next)
  }

  function MoveToFloat(st: State, op: Op): Out<Flow> {
    var (st, value) :- ReadSource(st, op.arg1);
    if !value.FloatValue? then Failed(InvalidOperand)
    else
      var (st, _) :- Store(Write(st, op.arg0, value));
      Done(WithFlags(st, NO_FLAGS), Next)
  }

  function Move(st: State, op: Op): Out<Flow> {
    if op.arg0.Reg? && op.arg0.reg.bank.S? then MoveToBuffer(st, op)
    else if op.arg0.Indexed? then MoveToIndexed(st, op)
    else if op.arg0.Reg? && op.arg0.reg.bank.F? then MoveToFloat(st, op)
    else
      var (st, w) :- Pure(st, ArgWidth(op.arg0));
      var (st, v) :- ReadInt(st, op.arg1, w);
      var (st, _) :- Store(Write(st, op.arg0, IntValue(v)));
      Done(WithFlags(st, UpdateZS(NO_FLAGS, v, w)), Next)
  }

  function Swap(st: State, op: Op): Out<Flow> {
    if !op.arg0.Indexed? || op.arg0.len.None? then Failed(InvalidOperand)
    else
      match (ResolveIndex(st, op.arg0.index), ResolveIndex(st, op.arg0.len.value))
      case (Err(e), _) => Failed(Machine(e))
      case (_, Err(e)) => Failed(Machine(e))
      case (Ok(start), Ok(len)) =>
        if start + len > ARRAY_MAX_SIZE then
          var (st, _) :- SetError(st, TRAP_BIT_UNMAPPED);
          Done(st, Next)
        else
          var (st, _) :- Store(SwapBuffer(st, op.arg0.base, start, len));
          Done(st, Next)
  }

  function Clear(st: State, op: Op): Out<Flow> {
    if !op.arg0.Reg? then Failed(InvalidOperand)
    else
      var zero := match op.arg0.reg.bank
                  case S => BytesValue([])
                  case F => FloatValue(0)
                  case _ => IntValue(0);
      var (st, _) :- Store(Write(st, op.arg0, zero));
      Done(WithFlags(st, NO_FLAGS.(z := true)), Next)
  }

  function Comp(st: State, op: Op): Out<Flow> {
    var (st, w) :- Pure(st, ArithWidth(op.arg0));
    var (st, v0) :- ReadInt(st, op.arg0, w);
    var (st, v1) :- ReadInt(st, op.arg1, w);
    Done(WithFlags(st, SubFlags(st.flags, v0, v1, w)), Next)
  }

  function Subb(st: State, op: Op): Out<Flow> {
    var (st, w) :- Pure(st, ArgWidth(op.arg0));
    var (st, v0) :- ReadInt(st, op.arg0, w);
    var (st, v1) :- ReadInt(st, op.arg1, w);
    var (st, _) :- Store(Write(st, op.arg0, IntValue(Low32(Difference(v0, v1)))));
    Done(WithFlags(st, SubFlags(st.flags, v0, v1, w)), Next)
  }

  /** `adds` may store through an indexed target, whose bounds fault is a trap. */
  function StoreFirst(st: State, operand: Operand, value: Value): Out<()> {
    if operand.Indexed? then WriteIndexedDest(st, operand, value, 1) else Store(Write(st, operand, value))
  }

  function Adds(st: State, op: Op): Out<Flow> {
    var (st, w) :- Pure(st, ArithWidth(op.arg0));
    var (st, v0) :- ReadInt(st, op.arg0, w);
    var (st, v1) :- ReadInt(st, op.arg1, w);
    var sum := IntValue(Low32(v0 as int + v1 as int));
    var (st, _) :- StoreFirst(st, op.arg0, sum);
    Done(WithFlags(st, AddFlags(st.flags, v0, v1, w)), Next)
  }

  /** `mult` and `divs` leave their second result in arg1 if it names a place. */
  function StoreSecond(st: State, operand: Operand, v: u32, w: Width): Out<()> {
    match operand
    case Reg(_) => Store(Write(st, operand, IntValue(v)))
    case Indexed(_, _, _) => WriteIndexedDest(st, operand, IntValue(v), w)
    case _ => Done(st, ())
  }

  function Mult(st: State, op: Op): Out<Flow> {
    var (st, w) :- Pure(st, ArgWidth(op.arg0));
    var (st, v0) :- ReadInt(st, op.arg0, w);
    var (st, v1) :- ReadInt(st, op.arg1, w);
    var product := Product(v0, v1, w);
    var (st, _) :- Store(Write(st, op.arg0, IntValue(product)));
    var st := WithFlags(st, UpdateZS(st.flags.(v := false), product, w));
    var (st, _) :- StoreSecond(st, op.arg1, ProductHigh(product, w), w);
    Done(st, Next)
  }

  function Divs(st: State, op: Op): Out<Flow> {
    var (st, w) :- Pure(st, ArgWidth(op.arg0));
    var (st, v0) :- ReadInt(st, op.arg0, w);
    var (st, v1) :- ReadInt(st, op.arg1, w);
    if DivFaults(v0, v1) then Failed(DivideByZero)
    else
      var quotient := Low32(TruncDiv(Signed(v0, 4), Signed(v1, 4)));
      var remainder := Low32(TruncRem(Signed(v0, 4), Signed(v1, 4)));
      var (st, _) :- Store(Write(st, op.arg0, IntValue(quotient)));
      var st := WithFlags(st, UpdateZS(st.flags.(v := false), quotient, w));
      var (st, _) :- StoreSecond(st, op.arg1, remainder, w);
      Done(st, Next)
  }

  /** The result of the two-operand bitwise opcodes 0x07 to 0x09. */
  function Bitwise(b: byte, v0: u32, v1: u32): u32 {
    if b == 0x07 then BitAnd(v0, v1) else if b == 0x08 then BitOr(v0, v1) else BitXor(v0, v1)
  }

  /** Stores an arg0 result, clears Overflow and updates Zero and Sign. */
  function Settle(st: State, operand: Operand, v: u32, w: Width): Out<Flow> {
    var (st, _) :- Store(Write(st, operand, IntValue(v)));
    Done(WithFlags(st, UpdateZS(st.flags.(v := false), v, w)), Next)
  }

  function BitwiseOp(st: State, op: Op): Out<Flow> {
    var (st, w) :- Pure(st, ArgWidth(op.arg0));
    var (st, v0) :- ReadInt(st, op.arg0, w);
    var (st, v1) :- ReadInt(st, op.arg1, w);
    Settle(st, op.arg0, Bitwise(op.byte, v0, v1), w)
  }

  function Not(st: State, op: Op): Out<Flow> {
    var (st, w) :- Pure(st, ArgWidth(op.arg0));
    var (st, v0) :- ReadInt(st, op.arg0, w);
    Settle(st, op.arg0, BitNot(v0), w)
  }

  /** The shift of opcode 0x18 (asr), 0x1A (lsr), or 0x19 and 0x1B (lsl, asl). */
  function ShiftBy(b: byte, v: u32, shift: int, w: Width, carry: bool): Shifted {
    if b == 0x18 then ShiftArithmetic(v, shift, w, carry)
    else if b == 0x1A then ShiftRight(v, shift, w, carry)
    else ShiftLeft(v, shift, w, carry)
  }

  function Shift(st: State, op: Op): Out<Flow> {
    var (st, w) :- Pure(st, ArgWidth(op.arg0));
    var (st, v) :- ReadInt(st, op.arg0, w);
    var (st, count) :- ReadInt(st, op.arg1, w);
    var shifted := ShiftBy(op.byte, v, Signed(count, 4), w, st.flags.c);
    var (st, _) :- Store(Write(st, op.arg0, IntValue(shifted.value)));
    Done(WithFlags(st, UpdateZS(st.flags.(c := shifted.carry, v := false), shifted.value, w)), Next)
  }

  // ---- branches and traps ----

  /** A PC-relative branch from the already advanced counter. */
  function Branch(st: State, op: Op, taken: bool): Out<Flow> {
    if !taken then Done(st, Next)
    else if !op.arg0.Imm? then Failed(InvalidOperand)
    else Done(st.(pc := (st.pc + Signed(op.arg0.v, 4)) % TWO_64), Jumped)
  }

  predicate TrapMatches(trapBit: Option<u32>, testBit: u32) {
    match trapBit
    case None => false
    case Some(trap) =>
      if testBit > 0 then trap == testBit || (trap == 0 && testBit == 32) else trap >= 0x4000_0000
  }

  /** `jt` (0x47) and `jnt` (0x48). */
  function TrapBranch(st: State, op: Op): Out<Flow> {
    var (st, bit) :- if op.arg1.NoOperand? then Done(st, 0) else Pure(st, ReadValue(st, op.arg1));
    var detected := TrapMatches(st.trapBit, bit);
    Branch(st, op, if op.byte == 0x47 then detected else !detected)
  }

  function GetMask(st: State, op: Op): Out<Flow> {
    var (st, w) :- Pure(st, ArgWidth(op.arg0));
    var (st, _) :- Store(Write(st, op.arg0, IntValue(st.trapMask)));
    Done(WithFlags(st, UpdateZS(st.flags, st.trapMask, w)), Next)
  }

  function SetMask(st: State, op: Op): Out<Flow> {
    var (st, mask) :- Pure(st, ReadValue(st, op.arg0));
    Done(st.(trapMask := mask), Next)
  }

  // ---- the byte stack ----

  /** A pushed operand's width: its bank's, or an immediate's encoded one. */
  function ValueWidth(mode: AddrMode, operand: Operand): Result<Width, ExecError> {
    match operand
    case Imm(_) =>
      if mode.Imm8? then Ok(1) else if mode.Imm16? then Ok(2) else if mode.Imm32? then Ok(4) else Err(InvalidOperand)
    case _ => ArgWidth(operand)
  }

  function Push(st: State, op: Op): Out<Flow> {
    var (st, w) :- Pure(st, ValueWidth(Mode0(op), op.arg0));
    var (st, v) :- ReadInt(st, op.arg0, w);
    Done(st.(stack := st.stack + LeBytes(v, w)), Next)
  }

  /** The word whose bytes are the top `w` of the stack. */
  function TopWord(stack: seq<byte>, w: Width): u32
    requires |stack| >= w
  {
    WordOf(stack[|stack| - w..], w)
  }

  function Pop(st: State, op: Op): Out<Flow> {
    var (st, w) :- Pure(st, ArgWidth(op.arg0));
    if |st.stack| < w then Failed(StackUnderflow)
    else
      var v := TopWord(st.stack, w);
      Settle(st.(stack := st.stack[..|st.stack| - w]), op.arg0, v, w)
  }

  function Atsp(st: State, op: Op): Out<Flow> {
    var (st, w) :- Pure(st, ArgWidth(op.arg0));
    var (st, pos) :- Pure(st, ReadValue(st, op.arg1));
    if |st.stack| < w || pos < w || pos > |st.stack| then Failed(AtspStack)
    else
      var v := TopWord(st.stack[..|st.stack| - (pos - w)], w);
      var (st, _) :- Store(Write(st, op.arg0, IntValue(v)));
      Done(WithFlags(st, UpdateZS(st.flags, v, w)), Next)
  }

  function Xsend(st: State, op: Op): Out<Flow> {
    var (st, request) :- ReadBytes(st, op.arg1);
    Done(st, Exchange(request, op.arg0))
  }

  function WaitOp(st: State, op: Op): Out<Flow> {
    var (st, seconds) :- Pure(st, ReadValue(st, op.arg0));
    Done(st, Wait(seconds))
  }
}
