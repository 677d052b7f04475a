/** The opcode handlers of exec.rs as they run: each changes the machine in place. */
module ExecMachine {
  import opened Wrappers
  import opened Words
  import opened Bytecode
  import opened MachineState
  import opened Machine
  import opened Text
  import opened Alu
  import opened ExecBase
  import OpcodeLaws
  import ExecCore

  // ---- operand access ----

  method RecordError(m: Machine, bit: u32) returns (r: Result<(), ExecError>)
    requires m.Valid()
    modifies m.Repr()
    ensures m.Does(SetError(old(m.Model()), bit), r)
  {
    m.trapBit := Some(bit);
    if !Masked(m.trapMask, bit) {
      return Err(Trapped(bit));
    }
    return Ok(());
  }

  method FetchSource(m: Machine, operand: Operand) returns (r: Result<Value, ExecError>)
    requires m.Valid()
    modifies m.Repr()
    ensures m.Does(ExecBase.ReadSource(old(m.Model()), operand), r)
  {
    hide MachineState.Read;
    var value := m.Read(operand);
    match value {
      case Ok(v) => return Ok(v);
      case Err(IndexOutOfBounds(_, _)) =>
        var _ :- RecordError(m, TRAP_BIT_UNMAPPED);
        return Ok(BytesValue([]));
      case Err(e) => return Err(ExecError.Machine(e));
    }
  }

  /** A store whose machine error becomes the handler's. */
  method Put(m: Machine, operand: Operand, value: Value) returns (r: Result<(), ExecError>)
    requires m.Valid()
    modifies m.Repr()
    ensures m.Does(Store(Write(old(m.Model()), operand, value)), r)
  {
    hide Write;
    var stored := m.Write(operand, value);
    match stored {
      case Ok(_) => return Ok(());
      case Err(e) => return Err(ExecError.Machine(e));
    }
  }

  method PutIndexed(m: Machine, operand: Operand, value: Value, len: nat) returns (r: Result<(), ExecError>)
    requires m.Valid()
    modifies m.Repr()
    ensures m.Does(WriteIndexedDest(old(m.Model()), operand, value, len), r)
  {
    hide WriteIndexed;
    var stored := m.WriteIndexed(operand, value, len);
    match stored {
      case Ok(_) => return Ok(());
      case Err(IndexOutOfBounds(_, _)) => r := RecordError(m, TRAP_BIT_UNMAPPED);
      case Err(e) => return Err(ExecError.Machine(e));
    }
  }

  /** The store of `adds`: a bounds fault of an indexed target is a trap, not an abort. */
  method PutFirst(m: Machine, operand: Operand, value: Value) returns (r: Result<(), ExecError>)
    requires m.Valid()
    modifies m.Repr()
    ensures m.Does(ExecCore.StoreFirst(old(m.Model()), operand, value), r)
  {
    if operand.Indexed? {
      r := PutIndexed(m, operand, value, 1);
    } else {
      r := Put(m, operand, value);
    }
  }

  method PutSecond(m: Machine, operand: Operand, v: u32, w: Width) returns (r: Result<(), ExecError>)
    requires m.Valid()
    modifies m.Repr()
    ensures m.Does(ExecCore.StoreSecond(old(m.Model()), operand, v, w), r)
  {
    match operand {
      case Reg(_) => r := Put(m, operand, IntValue(v));
      case Indexed(_, _, _) => r := PutIndexed(m, operand, IntValue(v), w);
      case _ => return Ok(());
    }
  }

  method FetchInt(m: Machine, operand: Operand, n: Width) returns (r: Result<u32, ExecError>)
    requires m.Valid()
    modifies m.Repr()
    ensures m.Does(ExecBase.ReadInt(old(m.Model()), operand, n), r)
  {
    var value :- FetchSource(m, operand);
    match value {
      case IntValue(v) => return Ok(v);
      case BytesValue(b) => return Ok(WordOf(b, n));
      case FloatValue(_) => return Err(InvalidOperand);
    }
  }

  method FetchBytes(m: Machine, operand: Operand) returns (r: Result<seq<byte>, ExecError>)
    requires m.Valid()
    modifies m.Repr()
    ensures m.Does(ExecBase.ReadBytes(old(m.Model()), operand), r)
  {
    var value :- FetchSource(m, operand);
    if !value.BytesValue? {
      return Err(InvalidOperand);
    }
    return Ok(value.b);
  }

  method FetchString(m: Machine, operand: Operand) returns (r: Result<Text, ExecError>)
    requires m.Valid()
    modifies m.Repr()
    ensures m.Does(ExecBase.ReadString(old(m.Model()), operand), r)
  {
    var bytes :- FetchBytes(m, operand);
    return Ok(CString(bytes));
  }

  method PutString(m: Machine, operand: Operand, text: Text) returns (r: Result<(), ExecError>)
    requires m.Valid()
    modifies m.Repr()
    ensures m.Does(WriteString(old(m.Model()), operand, text), r)
  {
    var bytes := EncodeText(text);
    if bytes != [] && bytes[|bytes| - 1] != 0 {
      bytes := bytes + [0];
    }
    r := Put(m, operand, BytesValue(bytes));
  }

  method FetchFloat(m: Machine, operand: Operand) returns (r: Result<F64, ExecError>)
    requires m.Valid()
    ensures r == ExecBase.ReadFloat(m.Model(), operand)
  {
    hide MachineState.Read;
    var value := m.Read(operand);
    match value {
      case Ok(FloatValue(f)) => return Ok(f);
      case Ok(_) => return Err(InvalidOperand);
      case Err(e) => return Err(ExecError.Machine(e));
    }
  }

  method FetchValue(m: Machine, operand: Operand) returns (r: Result<u32, ExecError>)
    requires m.Valid()
    ensures r == ExecBase.ReadValue(m.Model(), operand)
  {
    hide MachineState.Read;
    var value := m.Read(operand);
    match value {
      case Ok(IntValue(v)) => return Ok(v);
      case Ok(_) => return Err(InvalidOperand);
      case Err(e) => return Err(ExecError.Machine(e));
    }
  }

  /** The flags of `comp` and `subb`. */
  method SubtractFlags(m: Machine, v0: u32, v1: u32, w: Width)
    requires m.Valid()
    modifies m`flags
    ensures m.flags == SubFlags(old(m.flags), v0, v1, w)
  {
    var diff := Difference(v0, v1);
    m.flags := UpdateZS(m.flags, Low32(diff), w);
    m.flags := SetOverflow(m.flags, v0, Low32(-(v1 as int)), Low32(diff), w);
    m.flags := SetCarry(m.flags, diff, w);
  }

  /** The flags of `adds`. */
  method AdditionFlags(m: Machine, v0: u32, v1: u32, w: Width)
    requires m.Valid()
    modifies m`flags
    ensures m.flags == AddFlags(old(m.flags), v0, v1, w)
  {
    var sum: nat := v0 as int + v1 as int;
    m.flags := UpdateZS(m.flags, Low32(sum), w);
    m.flags := SetOverflow(m.flags, v0, v1, Low32(sum), w);
    m.flags := SetCarry(m.flags, sum, w);
  }

  /** Each byte popped is the next lower digit of the word the popped bytes spell. */
  lemma TopValue(stack: seq<byte>, i: nat)
    requires i <= |stack|
    ensures i == 0 ==> LeValue(stack[|stack|..]) == 0
    ensures i > 0 ==>
              LeValue(stack[|stack| - i..]) == stack[|stack| - i] as int + 0x100 * LeValue(stack[|stack| - (i - 1)..])
  {
  }

  lemma TopIsWord(stack: seq<byte>, w: Width)
    requires w <= |stack|
    ensures LeValue(stack[|stack| - w..]) == ExecCore.TopWord(stack, w)
    ensures LeValue(stack[|stack| - w..]) < TWO_32
  {
    OpcodeLaws.WordIsLeValue(stack[|stack| - w..], w);
  }

  // ---- moves, arithmetic, control ----

  method OpMoveBuffer(m: Machine, op: Op) returns (r: Result<Flow, ExecError>)
    requires m.Valid()
    modifies m.Repr()
    ensures m.Does(ExecCore.MoveToBuffer(old(m.Model()), op), r)
  {
    var source :- FetchBytes(m, op.arg1);
    var dest :- FetchBytes(m, op.arg0);
    var _ :- Put(m, op.arg0, BytesValue(ExecCore.OverFront(dest, source)));
    m.flags := NO_FLAGS;
    return Ok(Next);
  }

  method OpMoveIndexed(m: Machine, op: Op) returns (r: Result<Flow, ExecError>)
    requires m.Valid()
    modifies m.Repr()
    ensures m.Does(ExecCore.MoveToIndexed(old(m.Model()), op), r)
  {
    var value :- FetchSource(m, op.arg1);
    if value.FloatValue? {
      return Err(InvalidOperand);
    }
    var _ :- PutIndexed(m, op.arg0, value, 1);
    m.flags := NO_FLAGS;
    if value.IntValue? {
      m.flags := UpdateZS(m.flags, value.v, 1);
    }
    return Ok(Next);
  }

  method OpMoveFloat(m: Machine, op: Op) returns (r: Result<Flow, ExecError>)
    requires m.Valid()
    modifies m.Repr()
    ensures m.Does(ExecCore.MoveToFloat(old(m.Model()), op), r)
  {
    var value :- FetchSource(m, op.arg1);
    if !value.FloatValue? {
      return Err(InvalidOperand);
    }
    var _ :- Put(m, op.arg0, value);
    m.flags := NO_FLAGS;
    return Ok(Next);
  }

  method OpMove(m: Machine, op: Op) returns (r: Result<Flow, ExecError>)
    requires m.Valid()
    modifies m.Repr()
    ensures m.Does(ExecCore.Move(old(m.Model()), op), r)
  {
    if op.arg0.Reg? && op.arg0.reg.bank.S? {
      r := OpMoveBuffer(m, op);
    } else if op.arg0.Indexed? {
      r := OpMoveIndexed(m, op);
    } else if op.arg0.Reg? && op.arg0.reg.bank.F? {
      r := OpMoveFloat(m, op);
    } else {
      var w :- ArgWidth(op.arg0);
      var v :- FetchInt(m, op.arg1, w);
      var _ :- Put(m, op.arg0, IntValue(v));
      m.flags := UpdateZS(NO_FLAGS, v, w);
      return Ok(Next);
    }
  }

  method OpSwap(m: Machine, op: Op) returns (r: Result<Flow, ExecError>)
    requires m.Valid()
    modifies m.Repr()
    ensures m.Does(ExecCore.Swap(old(m.Model()), op), r)
  {
    if !op.arg0.Indexed? || op.arg0.len.None? {
      return Err(InvalidOperand);
    }
    var start := m.ResolveIndex(op.arg0.index);
    if start.Err? {
      return Err(ExecError.Machine(start.error));
    }
    var len := m.ResolveIndex(op.arg0.len.value);
    if len.Err? {
      return Err(ExecError.Machine(len.error));
    }
    if start.value + len.value > ARRAY_MAX_SIZE {
      var _ :- RecordError(m, TRAP_BIT_UNMAPPED);
      return Ok(Next);
    }
    var swapped := m.SwapSlice(op.arg0.base, start.value, len.value);
    if swapped.Err? {
      return Err(ExecError.Machine(swapped.error));
    }
    return Ok(Next);
  }

  method OpClear(m: Machine, op: Op) returns (r: Result<Flow, ExecError>)
    requires m.Valid()
    modifies m.Repr()
    ensures m.Does(ExecCore.Clear(old(m.Model()), op), r)
  {
    if !op.arg0.Reg? {
      return Err(InvalidOperand);
    }
    var zero := match op.arg0.reg.bank
                case S => BytesValue([])
                case F => FloatValue(0)
                case _ => IntValue(0);
    var _ :- Put(m, op.arg0, zero);
    m.flags := Flags(true, false, false, false);
    return Ok(Next);
  }

  method OpComp(m: Machine, op: Op) returns (r: Result<Flow, ExecError>)
    requires m.Valid()
    modifies m.Repr()
    ensures m.Does(ExecCore.Comp(old(m.Model()), op), r)
  {
    var w :- ArithWidth(op.arg0);
    var v0 :- FetchInt(m, op.arg0, w);
    var v1 :- FetchInt(m, op.arg1, w);
    SubtractFlags(m, v0, v1, w);
    return Ok(Next);
  }

  method OpSubb(m: Machine, op: Op) returns (r: Result<Flow, ExecError>)
    requires m.Valid()
    modifies m.Repr()
    ensures m.Does(ExecCore.Subb(old(m.Model()), op), r)
  {
    var w :- ArgWidth(op.arg0);
    var v0 :- FetchInt(m, op.arg0, w);
    var v1 :- FetchInt(m, op.arg1, w);
    var _ :- Put(m, op.arg0, IntValue(Low32(Difference(v0, v1))));
    SubtractFlags(m, v0, v1, w);
    return Ok(Next);
  }

  method OpAdds(m: Machine, op: Op) returns (r: Result<Flow, ExecError>)
    requires m.Valid()
    modifies m.Repr()
    ensures m.Does(ExecCore.Adds(old(m.Model()), op), r)
  {
    hide AddFlags, ExecBase.ReadInt, ExecCore.StoreFirst;
    var w :- ArithWidth(op.arg0);
    var v0 :- FetchInt(m, op.arg0, w);
    var v1 :- FetchInt(m, op.arg1, w);
    var sum: nat := v0 as int + v1 as int;
    var _ :- PutFirst(m, op.arg0, IntValue(Low32(sum)));
    AdditionFlags(m, v0, v1, w);
    return Ok(Next);
  }

  method OpMult(m: Machine, op: Op) returns (r: Result<Flow, ExecError>)
    requires m.Valid()
    modifies m.Repr()
    ensures m.Does(ExecCore.Mult(old(m.Model()), op), r)
  {
    var w :- ArgWidth(op.arg0);
    var v0 :- FetchInt(m, op.arg0, w);
    var v1 :- FetchInt(m, op.arg1, w);
    var product := Low32(Signed(v0, w) * Signed(v1, w));
    var _ :- Put(m, op.arg0, IntValue(product));
    m.flags := m.flags.(v := false);
    m.flags := UpdateZS(m.flags, product, w);
    var _ :- PutSecond(m, op.arg1, ProductHigh(product, w), w);
    return Ok(Next);
  }

  method OpDivs(m: Machine, op: Op) returns (r: Result<Flow, ExecError>)
    requires m.Valid()
    modifies m.Repr()
    ensures m.Does(ExecCore.Divs(old(m.Model()), op), r)
  {
    var w :- ArgWidth(op.arg0);
    var v0 :- FetchInt(m, op.arg0, w);
    var v1 :- FetchInt(m, op.arg1, w);
    var n, d := Signed(v0, 4), Signed(v1, 4);
    if d == 0 || (n == -TWO_31 && d == -1) {
      return Err(DivideByZero);
    }
    var quotient := Low32(TruncDiv(n, d));
    var _ :- Put(m, op.arg0, IntValue(quotient));
    m.flags := m.flags.(v := false);
    m.flags := UpdateZS(m.flags, quotient, w);
    var _ :- PutSecond(m, op.arg1, Low32(TruncRem(n, d)), w);
    return Ok(Next);
  }

  method Settle(m: Machine, operand: Operand, v: u32, w: Width) returns (r: Result<Flow, ExecError>)
    requires m.Valid()
    modifies m.Repr()
    ensures m.Does(ExecCore.Settle(old(m.Model()), operand, v, w), r)
  {
    var _ :- Put(m, operand, IntValue(v));
    m.flags := m.flags.(v := false);
    m.flags := UpdateZS(m.flags, v, w);
    return Ok(Next);
  }

  method OpBitwise(m: Machine, op: Op) returns (r: Result<Flow, ExecError>)
    requires m.Valid()
    modifies m.Repr()
    ensures m.Does(ExecCore.BitwiseOp(old(m.Model()), op), r)
  {
    var w :- ArgWidth(op.arg0);
    var v0 :- FetchInt(m, op.arg0, w);
    var v1 :- FetchInt(m, op.arg1, w);
    r := Settle(m, op.arg0, ExecCore.Bitwise(op.byte, v0, v1), w);
  }

  method OpNot(m: Machine, op: Op) returns (r: Result<Flow, ExecError>)
    requires m.Valid()
    modifies m.Repr()
    ensures m.Does(ExecCore.Not(old(m.Model()), op), r)
  {
    var w :- ArgWidth(op.arg0);
    var v0 :- FetchInt(m, op.arg0, w);
    r := Settle(m, op.arg0, BitNot(v0), w);
  }

  method OpShift(m: Machine, op: Op) returns (r: Result<Flow, ExecError>)
    requires m.Valid()
    modifies m.Repr()
    ensures m.Does(ExecCore.Shift(old(m.Model()), op), r)
  {
    var w :- ArgWidth(op.arg0);
    var v :- FetchInt(m, op.arg0, w);
    var count :- FetchInt(m, op.arg1, w);
    var shifted := ExecCore.ShiftBy(op.byte, v, Signed(count, 4), w, m.flags.c);
    var _ :- Put(m, op.arg0, IntValue(shifted.value));
    m.flags := m.flags.(c := shifted.carry, v := false);
    m.flags := UpdateZS(m.flags, shifted.value, w);
    return Ok(Next);
  }

  method Branch(m: Machine, op: Op, taken: bool) returns (r: Result<Flow, ExecError>)
    requires m.Valid()
    modifies m.Repr()
    ensures m.Does(ExecCore.Branch(old(m.Model()), op, taken), r)
  {
    if !taken {
      return Ok(Next);
    }
    if !op.arg0.Imm? {
      return Err(InvalidOperand);
    }
    m.pc := (m.pc + Signed(op.arg0.v, 4)) % TWO_64;
    return Ok(Jumped);
  }

  method OpTrapBranch(m: Machine, op: Op) returns (r: Result<Flow, ExecError>)
    requires m.Valid()
    modifies m.Repr()
    ensures m.Does(ExecCore.TrapBranch(old(m.Model()), op), r)
  {
    var bit := 0;
    if !op.arg1.NoOperand? {
      bit :- FetchValue(m, op.arg1);
    }
    var detected := ExecCore.TrapMatches(m.trapBit, bit);
    r := Branch(m, op, if op.byte == 0x47 then detected else !detected);
  }

  method OpGettmr(m: Machine, op: Op) returns (r: Result<Flow, ExecError>)
    requires m.Valid()
    modifies m.Repr()
    ensures m.Does(ExecCore.GetMask(old(m.Model()), op), r)
  {
    var w :- ArgWidth(op.arg0);
    var _ :- Put(m, op.arg0, IntValue(m.trapMask));
    m.flags := UpdateZS(m.flags, m.trapMask, w);
    return Ok(Next);
  }

  method OpSettmr(m: Machine, op: Op) returns (r: Result<Flow, ExecError>)
    requires m.Valid()
    modifies m.Repr()
    ensures m.Does(ExecCore.SetMask(old(m.Model()), op), r)
  {
    m.trapMask :- FetchValue(m, op.arg0);
    return Ok(Next);
  }

  method OpPush(m: Machine, op: Op) returns (r: Result<Flow, ExecError>)
    requires m.Valid()
    modifies m.Repr()
    ensures m.Does(ExecCore.Push(old(m.Model()), op), r)
  {
    hide LeBytes;
    var w :- ExecCore.ValueWidth(Mode0(op), op.arg0);
    var v :- FetchInt(m, op.arg0, w);
    ghost var before := m.Model();
    var value: nat := v;
    for i := 0 to w as int
      invariant m.Model() == before.(stack := before.stack + LeBytes(v, i))
      invariant value == Shifted8(v, i)
    {
      LeBytesSnoc(v, i);
      m.dataStack := m.dataStack + [value % 0x100];
      value := value / 0x100;
    }
    return Ok(Next);
  }

  method OpPop(m: Machine, op: Op) returns (r: Result<Flow, ExecError>)
    requires m.Valid()
    modifies m.Repr()
    ensures m.Does(ExecCore.Pop(old(m.Model()), op), r)
  {
    hide WordOf, LeValue;
    var w :- ArgWidth(op.arg0);
    if |m.dataStack| < w {
      return Err(StackUnderflow);
    }
    ghost var before := m.Model();
    ghost var was, n := m.dataStack, |m.dataStack|;
    var value: nat := 0;
    TopValue(was, 0);
    for i := 0 to w as int
      invariant m.Model() == before.(stack := was[..n - i])
      invariant value == LeValue(was[n - i..])
    {
      var byte := m.dataStack[|m.dataStack| - 1];
      m.dataStack := m.dataStack[..|m.dataStack| - 1];
      TopValue(was, i + 1);
      value := value * 0x100 + byte as int;
    }
    TopIsWord(was, w);
    r := Settle(m, op.arg0, value, w);
  }

  /** The word under `index` top bytes, folded from its topmost byte down. */
  method PeekWord(stack: seq<byte>, index: nat, w: Width) returns (value: u32)
    requires index + w <= |stack|
    ensures value == ExecCore.TopWord(stack[..|stack| - index], w)
  {
    hide LeValue, WordOf, ExecCore.TopWord;
    var count := |stack|;
    ghost var visible := stack[..count - index];
    var sum: nat := 0;
    TopValue(visible, 0);
    for k := 0 to w as int
      invariant sum == LeValue(visible[|visible| - k..])
    {
      var byte := stack[count - 1 - (index + k)];
      assert byte == visible[|visible| - (k + 1)];
      TopValue(visible, k + 1);
      sum := sum * 0x100 + byte as int;
    }
    assert sum == LeValue(visible[|visible| - w..]);
    TopIsWord(visible, w);
    return sum;
  }

  method OpAtsp(m: Machine, op: Op) returns (r: Result<Flow, ExecError>)
    requires m.Valid()
    modifies m.Repr()
    ensures m.Does(ExecCore.Atsp(old(m.Model()), op), r)
  {
    hide WordOf;
    var w :- ArgWidth(op.arg0);
    var pos :- FetchValue(m, op.arg1);
    var count := |m.dataStack|;
    if count < w || pos < w || pos > count {
      return Err(AtspStack);
    }
    var value := PeekWord(m.dataStack, pos - w, w);
    var _ :- Put(m, op.arg0, IntValue(value));
    m.flags := UpdateZS(m.flags, value, w);
    return Ok(Next);
  }

  method OpXsend(m: Machine, op: Op) returns (r: Result<Flow, ExecError>)
    requires m.Valid()
    modifies m.Repr()
    ensures m.Does(ExecCore.Xsend(old(m.Model()), op), r)
  {
    var request :- FetchBytes(m, op.arg1);
    return Ok(Flow.Exchange(request, op.arg0));
  }

  method OpWait(m: Machine, op: Op) returns (r: Result<Flow, ExecError>)
    requires m.Valid()
    modifies m.Repr()
    ensures m.Does(ExecCore.WaitOp(old(m.Model()), op), r)
  {
    var seconds :- FetchValue(m, op.arg0);
    return Ok(Wait(seconds));
  }
}
