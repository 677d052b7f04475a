/**
 What one executed instruction does, opcode byte by opcode byte: the laws of the handlers
 carried through `step`, so that each byte is known to run the right one.
*/
module StepLaws {
  import opened Wrappers
  import opened Words
  import opened Bytecode
  import opened MachineState
  import opened MachineLaws
  import opened Alu
  import opened AluLaws
  import opened ExecBase
  import opened ExecCore
  import opened ExecData
  import opened ExecContext
  import opened Executor
  import opened ExecLaws
  import opened OpcodeLaws

  /** The machine as the handler of `op` finds it. */
  function Past(st: State, op: Op): State {
    st.(pc := op.offset + op.len)
  }

  /** `f` is `op` as its handler sees it, a register-plus-increment operand folded. */
  predicate Seen(st: State, op: Op, f: Op) {
    FoldOp(Past(st, op), op) == Ok(f)
  }

  /** A handler's outcome as the instruction's, the context unchanged. */
  function Whole(out: Out<Flow>, ctx: Ctx): Out<(Flow, Ctx)> {
    match out
    case Done(st, flow) => Done(st, (flow, ctx))
    case Failed(e) => Failed(e)
  }

  // ---- the opcode table ----

  /** The opcodes whose handlers leave the context alone and are no branch. */
  predicate KeepsContext(b: byte) {
    !IsErg(b) && !IsCursorOp(b) && !IsBranch(b) && b != ENEWSET && b != ETAG
  }

  lemma StepIs(st: State, op: Op, f: Op, env: Env, ctx: Ctx)
    requires Seen(st, op, f)
    ensures f.byte == op.byte && f.modeByte == op.modeByte && f.len == op.len && f.offset == op.offset
    ensures KeepsContext(op.byte) ==> Step(st, op, env, ctx) == Whole(EnvStep(Past(st, op), f, env, ctx.cursor), ctx)
  {
    hide Fold, EnvStep;
  }

  lemma CoreIs(st: State, f: Op, env: Env, cursor: Cursor)
    ensures var run := EnvStep(st, f, env, cursor);
            match f.byte
            case 0x00 => run == Move(st, f)
            case 0x01 => run == Clear(st, f)
            case 0x02 => run == Comp(st, f)
            case 0x03 => run == Subb(st, f)
            case 0x04 => run == Adds(st, f)
            case 0x05 => run == Mult(st, f)
            case 0x06 => run == Divs(st, f)
            case 0x07 | 0x08 | 0x09 => run == BitwiseOp(st, f)
            case 0x0A => run == Not(st, f)
            case 0x18 | 0x19 | 0x1A | 0x1B => run == Shift(st, f)
            case 0x1E => run == Push(st, f)
            case 0x1F => run == Pop(st, f)
            case 0x2A => run == Xsend(st, f)
            case 0x43 => run == GetMask(st, f)
            case 0x44 => run == SetMask(st, f)
            case 0x50 => run == Atsp(st, f)
            case 0x51 => run == Swap(st, f)
            case 0x6B => run == WaitOp(st, f)
            case _ => true
  {
    hide Move, Clear, Comp, Subb, Adds, Mult, Divs, BitwiseOp, Not, Shift, Push, Pop, Xsend, GetMask, SetMask;
    hide Atsp, Swap, WaitOp, DataStep;
  }

  lemma DataIs(st: State, f: Op, env: Env, cursor: Cursor)
    ensures var run := EnvStep(st, f, env, cursor);
            match f.byte
            case 0x20 => run == Scmp(st, f)
            case 0x21 => run == Scat(st, f)
            case 0x22 => run == Scut(st, f)
            case 0x23 => run == Slen(st, f)
            case 0x24 => run == Spaste(st, f)
            case 0x25 => run == Serase(st, f)
            case 0x67 => run == A2Fix(st, f)
            case 0x79 | 0x7A => run == Fix2Text(st, f)
            case 0x7E => run == Strcat(st, f)
            case 0x8C => run == A2YOp(st, f)
            case 0x8E => run == Hex2Y(st, f)
            case 0x8F => run == Strcmp(st, f)
            case 0x90 => run == Strlen(st, f)
            case 0x91 | 0x92 => run == Y2Text(st, f)
            case _ => true
  {
    hide Scmp, Scat, Scut, Slen, Spaste, Serase, A2Fix, Fix2Text, Strcat, A2YOp, Hex2Y, Strcmp, Strlen, Y2Text;
  }

  lemma EnvIs(st: State, f: Op, env: Env, cursor: Cursor)
    ensures var run := EnvStep(st, f, env, cursor);
            match f.byte
            case 0x3A => run == TextToFloat(st, f, env.fpu)
            case 0x3B | 0x3C | 0x3D | 0x3E => run == FloatArith(st, f, env.fpu)
            case 0x55 | 0x56 | 0x57 => run == Parl(st, f, env.args)
            case 0x58 => run == Pars(st, f, env.args)
            case 0x68 => run == FixToFloat(st, f, env.fpu)
            case 0x69 => run == Parr(st, f, env)
            case 0x7D => run == Tabget(st, f, env, cursor)
            case 0x7F => run == Pary(st, f, env.args)
            case 0x80 => run == Parn(st, f, env.args)
            case 0x87 => run == FloatToText(st, f, env.fpu)
            case 0x96 => run == FloatToFix(st, f, env.fpu)
            case 0x9D | 0x9E => run == BytesToFloat(st, f, env.fpu)
            case 0xA1 => run == FloatComp(st, f, env.fpu)
            case 0xB6 | 0xB7 => run == TabSize(st, f, env, cursor)
            case _ => true
  {
    hide TextToFloat, FloatArith, Parl, Pars, FixToFloat, Parr, Tabget, Pary, Parn, FloatToText, FloatToFix;
    hide BytesToFloat, FloatComp, TabSize, CoreStep;
  }

  // ---- moves and arithmetic ----

  /** The instruction ran to its end and handed control on. */
  predicate Ran(out: Out<(Flow, Ctx)>, ctx: Ctx) {
    out.Done? && out.value == (Next, ctx)
  }

  /** move, subb and adds into an integer register: the number stored, and the flags. */
  lemma ArithmeticByOpcode(st: State, op: Op, f: Op, env: Env, ctx: Ctx, reg: RegId, v: u32)
    requires Seen(st, op, f) && f.arg0 == Reg(reg) && IsWord(reg) && op.byte in {0x00, 0x03, 0x04}
    requires var r := ReadInt(Past(st, op), f.arg1, BankWidth(reg.bank)); r.Done? && r.value == v
    ensures var (w, a) := (BankWidth(reg.bank), IntOf(st, reg));
            var out := Step(st, op, env, ctx);
            && Ran(out, ctx)
            && IntOf(out.st, reg) == (match op.byte
                                      case 0x00 => v
                                      case 0x03 => a - v
                                      case _ => a as int + v as int) % Span(w)
            && Tells(out.st.flags, IntOf(out.st, reg), w)
            && (op.byte == 0x00 ==> !out.st.flags.c && !out.st.flags.v)
            && (op.byte == 0x03 && v < Span(w) ==> (out.st.flags.c <==> a < v))
            && (op.byte == 0x04 && v < Span(w) ==> (out.st.flags.c <==> a as int + v as int >= Span(w)))
            && (op.byte == 0x04 ==> (out.st.flags.v <==> !(-Half(w) <= Signed(a, w) + Signed(v, w) < Half(w))))
  {
    hide Step, FoldOp, ReadInt, EnvStep, Move, Comp, Subb, Adds, WordAt, StoreWord, AddFlags, SubFlags, Signed, Borrows;
    var st0, w, a := Past(st, op), BankWidth(reg.bank), IntOf(st, reg);
    StepIs(st, op, f, env, ctx);
    CoreIs(st0, f, env, ctx.cursor);
    RegisterWord(st0, reg);
    var flags := ReadInt(st0, f.arg1, w).st.flags;
    if op.byte == 0x00 {
      MoveStoresSource(st0, f, reg);
    } else if op.byte == 0x03 {
      SubtractIsCompareAndStore(st0, f, reg);
      SubtractTells(flags, a, v, w);
      UnsignedFlags(flags, a, v, w);
      if v < Span(w) {
        BorrowOfFitting(a, v, w);
      }
    } else {
      AddsStoresSum(st0, f, reg);
      AddTells(flags, a, v, w);
      AdditionFlags(flags, a, v, w);
    }
  }

  /** move through an index: an integer's low byte, or a buffer whole, over what stood there. */
  lemma BufferMoveByOpcode(st: State, op: Op, f: Op, env: Env, ctx: Ctx, at: nat, bytes: seq<byte>)
    requires Seen(st, op, f) && op.byte == 0x00 && f.arg0.Indexed? && f.arg0.base.bank.S? && Exists(f.arg0.base)
    requires var r := ReadSource(Past(st, op), f.arg1);
             && r.Done? && !r.value.FloatValue? && ResolveIndex(r.st, f.arg0.index) == Ok(at)
             && bytes == (if r.value.IntValue? then [r.value.v % 0x100] else r.value.b) && at + |bytes| <= 1023
    ensures var (was, out) := (st.s[f.arg0.base.idx], Step(st, op, env, ctx));
            && Ran(out, ctx) && !out.st.flags.c && !out.st.flags.v
            && (if ReadSource(Past(st, op), f.arg1).value.IntValue? then Tells(out.st.flags, bytes[0], 1)
                else !out.st.flags.z && !out.st.flags.s)
            && forall i: nat :: Mem(out.st.s[f.arg0.base.idx], i) ==
                 if at <= i < at + |bytes| then bytes[i - at] else Mem(was, i)
  {
    hide Step, FoldOp, EnvStep, ReadSource, ResolveIndex, Move, Mem;
    StepIs(st, op, f, env, ctx);
    CoreIs(Past(st, op), f, env, ctx.cursor);
    MoveIntoBuffer(Past(st, op), f, at);
  }

  /** adds to a byte of a buffer. */
  lemma BufferSumByOpcode(st: State, op: Op, f: Op, env: Env, ctx: Ctx, base: RegId, index: IndexArg, at: nat, v: u32)
    requires Seen(st, op, f) && op.byte == 0x04 && f.arg0 == Indexed(base, index, None) && base.bank.S? && Exists(base)
    requires ResolveIndex(Past(st, op), index) == Ok(at) && at < 1023
    requires ReadInt(Past(st, op), f.arg1, 1).Done? && ReadInt(Past(st, op), f.arg1, 1).value == v
    ensures var (was, out) := (st.s[base.idx], Step(st, op, env, ctx));
            var sum := Mem(was, at) as int + v as int;
            && Ran(out, ctx) && Tells(out.st.flags, sum % 0x100, 1) && out.st.regs == st.regs
            && (v < 0x100 ==> (out.st.flags.c <==> sum >= 0x100))
            && |out.st.s[base.idx]| == Max(|was|, at + 1)
            && forall i: nat :: Mem(out.st.s[base.idx], i) == if i == at then sum % 0x100 else Mem(was, i)
  {
    hide Step, FoldOp, EnvStep, ReadInt, ResolveIndex, Adds, AddFlags, Mem;
    StepIs(st, op, f, env, ctx);
    CoreIs(Past(st, op), f, env, ctx.cursor);
    AddsIntoBuffer(Past(st, op), f, at, v);
    AddTells(st.flags, Mem(st.s[base.idx], at), v, 1);
    AdditionFlags(st.flags, Mem(st.s[base.idx], at), v, 1);
  }

  lemma WordReading(a: u32)
    ensures Signed(a, 4) == 0 <==> a == 0
    ensures Signed(a, 4) == -TWO_31 <==> a == 0x8000_0000
    ensures Signed(a, 4) == -1 <==> a == 0xFFFF_FFFF
  {
  }

  /** mult and divs of two registers of a width. */
  lemma ProductsByOpcode(st: State, op: Op, f: Op, env: Env, ctx: Ctx, low: RegId, high: RegId)
    requires Seen(st, op, f) && Pair(f, low, high)
    ensures var (w, a, b) := (BankWidth(low.bank), IntOf(st, low), IntOf(st, high));
            var out := Step(st, op, env, ctx);
            && (op.byte == 0x05 ==>
                  && Ran(out, ctx) && Tells(out.st.flags, IntOf(out.st, low), w) && !out.st.flags.v
                  && (w != 4 ==> Signed(IntOf(out.st, low) + Span(w) * IntOf(out.st, high), 2 * w)
                                 == Signed(a, w) * Signed(b, w))
                  && (w == 4 ==> IntOf(out.st, low) == (a as int * b as int) % TWO_32 && IntOf(out.st, high) == 0))
            && (op.byte == 0x06 ==>
                  && (out == Failed(DivideByZero) <==> b == 0 || (w == 4 && a == 0x8000_0000 && b == 0xFFFF_FFFF))
                  && (out != Failed(DivideByZero) ==>
                        && Ran(out, ctx) && Tells(out.st.flags, IntOf(out.st, low), w) && !out.st.flags.v
                        && var (q, r) := (Signed(IntOf(out.st, low), 4), Signed(IntOf(out.st, high), 4));
                           && Signed(b, 4) * q + r == Signed(a, 4) && Magnitude(r) < Magnitude(Signed(b, 4))
                           && (r != 0 ==> (r < 0 <==> Signed(a, 4) < 0))))
  {
    hide Step, FoldOp, EnvStep, Mult, Divs, WordAt, Magnitude, Signed;
    StepIs(st, op, f, env, ctx);
    CoreIs(Past(st, op), f, env, ctx.cursor);
    RegisterWord(st, low);
    RegisterWord(st, high);
    MultLeavesProduct(Past(st, op), f, low, high);
    DivsLeavesParts(Past(st, op), f, low, high);
    WordReading(IntOf(st, low));
    WordReading(IntOf(st, high));
  }

  /** and, or, xor and not, bit by bit. */
  lemma BitsByOpcode(st: State, op: Op, f: Op, env: Env, ctx: Ctx, reg: RegId, v: u32, k: nat)
    requires Seen(st, op, f) && f.arg0 == Reg(reg) && IsWord(reg) && k < 8 * BankWidth(reg.bank)
    requires op.byte in {0x07, 0x08, 0x09, 0x0A}
    requires op.byte != 0x0A ==> var r := ReadInt(Past(st, op), f.arg1, BankWidth(reg.bank)); r.Done? && r.value == v
    ensures var out := Step(st, op, env, ctx);
            var (was, arg) := (BitAt(IntOf(st, reg), k), BitAt(v, k));
            && Ran(out, ctx) && Tells(out.st.flags, IntOf(out.st, reg), BankWidth(reg.bank))
            && !out.st.flags.v && out.st.flags.c == st.flags.c
            && (BitAt(IntOf(out.st, reg), k) <==>
                match op.byte
                case 0x07 => was && arg
                case 0x08 => was || arg
                case 0x09 => was != arg
                case _ => !was)
  {
    hide Step, FoldOp, EnvStep, ReadInt, BitwiseOp, Not, WordAt, BitAt;
    StepIs(st, op, f, env, ctx);
    CoreIs(Past(st, op), f, env, ctx.cursor);
    if op.byte == 0x0A {
      NotFlipsBits(Past(st, op), f, reg, k);
    } else {
      BitwiseWorksBitByBit(Past(st, op), f, reg, k);
    }
  }

  /** asr, lsl, lsr and asl, for every count. */
  lemma ShiftsByOpcode(st: State, op: Op, f: Op, env: Env, ctx: Ctx, reg: RegId, count: u32)
    requires Seen(st, op, f) && f.arg0 == Reg(reg) && IsWord(reg) && op.byte in {0x18, 0x19, 0x1A, 0x1B}
    requires var r := ReadInt(Past(st, op), f.arg1, BankWidth(reg.bank)); r.Done? && r.value == count
    ensures var (w, v) := (BankWidth(reg.bank), IntOf(st, reg));
            var out := Step(st, op, env, ctx);
            && Ran(out, ctx) && Tells(out.st.flags, IntOf(out.st, reg), w) && !out.st.flags.v
            && var n := Signed(count, 4);
               if n < 0 then IntOf(out.st, reg) == v && out.st.flags.c == st.flags.c
               else
                 match op.byte
                 case 0x18 => Signed(IntOf(out.st, reg), w) == Signed(v, w) / Pow2(n) &&
                              (out.st.flags.c <==> n > 0 && (Signed(v, w) / Pow2(n - 1)) % 2 == 1)
                 case 0x1A => IntOf(out.st, reg) == v / Pow2(n) && (out.st.flags.c <==> n > 0 && BitAt(v, n - 1))
                 case _ => IntOf(out.st, reg) == (v * Pow2(n)) % Span(w) &&
                           (out.st.flags.c <==> (v * Pow2(n) / Span(w)) % 2 == 1)
  {
    hide Step, FoldOp, EnvStep, ReadInt, Shift, WordAt, BitAt, Signed;
    StepIs(st, op, f, env, ctx);
    CoreIs(Past(st, op), f, env, ctx.cursor);
    if Signed(count, 4) < 0 {
      NegativeShiftKeeps(Past(st, op), f, reg);
    } else {
      ShiftsAreArithmetic(Past(st, op), f, reg, Signed(count, 4));
    }
  }

  // ---- branches ----

  /** A taken branch stands at its signed displacement from the next instruction; any other falls through. */
  predicate Goes(out: Out<(Flow, Ctx)>, st: State, op: Op, ctx: Ctx, d: u32, jumps: bool) {
    out == if jumps then Done(st.(pc := (op.offset + op.len + Signed(d, 4)) % TWO_64), (Jumped, ctx))
           else Done(Past(st, op), (Next, ctx))
  }

  /** The flag branches, and what each tests. */
  lemma BranchesByOpcode(st: State, op: Op, f: Op, env: Env, ctx: Ctx, d: u32)
    requires Seen(st, op, f) && f.arg0 == Imm(d)
    ensures var (out, flags) := (Step(st, op, env, ctx), st.flags);
            match op.byte
            case 0x0B => Goes(out, st, op, ctx, d, true)
            case 0x0E => Goes(out, st, op, ctx, d, flags.c)
            case 0x0F => Goes(out, st, op, ctx, d, !flags.c)
            case 0x10 => Goes(out, st, op, ctx, d, flags.z)
            case 0x11 => Goes(out, st, op, ctx, d, !flags.z)
            case 0x12 => Goes(out, st, op, ctx, d, flags.v)
            case 0x13 => Goes(out, st, op, ctx, d, !flags.v)
            case 0x14 => Goes(out, st, op, ctx, d, flags.s)
            case 0x15 => Goes(out, st, op, ctx, d, !flags.s)
            case 0x5A => Goes(out, st, op, ctx, d, flags.s == flags.v && !flags.z)
            case 0x5B => Goes(out, st, op, ctx, d, flags.s == flags.v || flags.z)
            case 0x5C => Goes(out, st, op, ctx, d, flags.s != flags.v && !flags.z)
            case 0x5D => Goes(out, st, op, ctx, d, flags.s != flags.v || flags.z)
            case 0x5E => Goes(out, st, op, ctx, d, !flags.c && !flags.z)
            case 0x5F => Goes(out, st, op, ctx, d, flags.c || flags.z)
            case _ => true
  {
    hide FoldOp, EnvStep, Signed;
    StepIs(st, op, f, env, ctx);
  }

  /** A branch instruction without a second operand. */
  predicate IsJump(op: Op, d: u32) {
    op.arg0 == Imm(d) && op.arg1 == NoOperand
  }

  lemma JumpSeen(st: State, op: Op, d: u32)
    requires IsJump(op, d)
    ensures Seen(st, op, op)
  {
    ImmediateFolds(Past(st, op), Mode0(op), op.arg0);
    ImmediateFolds(Past(st, op), Mode1(op), op.arg1);
  }

  /** The instruction leaves the sequence. */
  predicate Jumps(out: Out<(Flow, Ctx)>) {
    out.Done? && out.value.0.Jumped?
  }

  /**
   comp and a branch, two instructions on: the unsigned branches decide the unsigned order of
   what comp read, the signed ones that of the signed readings unless arg1 reads as the width's
   minimum, wherever arg1 fits arg0's width.
  */
  lemma CompareThenJump(st: State, comp: Op, f: Op, jump: Op, env: Env, ctx: Ctx, w: Width, d: u32)
    requires Seen(st, comp, f) && comp.byte == 0x02 && ArithWidth(f.arg0) == Ok(w) && IsJump(jump, d)
    requires var r0 := ReadInt(Past(st, comp), f.arg0, w);
             r0.Done? && var r1 := ReadInt(r0.st, f.arg1, w); r1.Done? && r1.value < Span(w)
    ensures var r0 := ReadInt(Past(st, comp), f.arg0, w);
            var (v0, v1) := (r0.value, ReadInt(r0.st, f.arg1, w).value);
            var mid := Step(st, comp, env, ctx);
            && Ran(mid, ctx)
            && var jumps := Jumps(Step(mid.st, jump, env, ctx));
               && (jump.byte == 0x0E ==> (jumps <==> v0 < v1)) && (jump.byte == 0x0F ==> (jumps <==> v0 >= v1))
               && (jump.byte == 0x10 ==> (jumps <==> v0 == v1)) && (jump.byte == 0x11 ==> (jumps <==> v0 != v1))
               && (jump.byte == 0x5E ==> (jumps <==> v0 > v1)) && (jump.byte == 0x5F ==> (jumps <==> v0 <= v1))
               && (v1 != Half(w) ==>
                     && (jump.byte == 0x5A ==> (jumps <==> Signed(v0, w) > Signed(v1, w)))
                     && (jump.byte == 0x5B ==> (jumps <==> Signed(v0, w) >= Signed(v1, w)))
                     && (jump.byte == 0x5C ==> (jumps <==> Signed(v0, w) < Signed(v1, w)))
                     && (jump.byte == 0x5D ==> (jumps <==> Signed(v0, w) <= Signed(v1, w))))
  {
    hide Step, FoldOp, EnvStep, ReadInt, ArithWidth, Comp, Signed, Borrows;
    StepIs(st, comp, f, env, ctx);
    CoreIs(Past(st, comp), f, env, ctx.cursor);
    CompareThenBranch(Past(st, comp), f, w);
    var mid := Step(st, comp, env, ctx).st;
    JumpSeen(mid, jump, d);
    BranchesByOpcode(mid, jump, jump, env, ctx, d);
    var r0 := ReadInt(Past(st, comp), f.arg0, w);
    SmallMod(ReadInt(r0.st, f.arg1, w).value, Span(w));
  }

  /** jt and jnt: the bit tested against the recorded trap. */
  lemma TrapsByOpcode(st: State, op: Op, f: Op, env: Env, ctx: Ctx, d: u32, test: u32)
    requires Seen(st, op, f) && f.arg0 == Imm(d) && (f.arg1 == Imm(test) || (f.arg1 == NoOperand && test == 0))
    ensures var out := Step(st, op, env, ctx);
            var found := st.trapBit.Some? &&
                         if test == 0 then st.trapBit.value >= 0x4000_0000
                         else st.trapBit.value == test || (st.trapBit.value == 0 && test == 32);
            && (op.byte == 0x47 ==> Goes(out, st, op, ctx, d, found))
            && (op.byte == 0x48 ==> Goes(out, st, op, ctx, d, !found))
  {
    hide FoldOp, EnvStep, Signed;
    StepIs(st, op, f, env, ctx);
  }

  // ---- flags, traps and the end of the job ----

  /** The opcodes without operands, exactly. */
  lemma ControlByOpcode(st: State, op: Op, f: Op, env: Env, ctx: Ctx)
    requires Seen(st, op, f)
    ensures var (out, st0) := (Step(st, op, env, ctx), Past(st, op));
            match op.byte
            case 0x16 => out == Done(st0.(flags := st.flags.(c := false)), (Next, ctx))
            case 0x17 => out == Done(st0.(flags := st.flags.(c := true)), (Next, ctx))
            case 0x1C => out == Done(st0, (Next, ctx))
            case 0x1D => out == Done(st0, (EndOfJob, ctx))
            case 0x41 => out == Done(st0, (Next, ctx))
            case 0x46 => out == Done(st0.(trapBit := None), (Next, ctx))
            case 0x4B => out == Failed(Break)
            case _ => true
  {
    hide FoldOp, DataStep;
    StepIs(st, op, f, env, ctx);
  }

  /** The opcodes the decoder takes and the machine does not run. */
  lemma UnimplementedByOpcode(st: State, op: Op, f: Op, env: Env, ctx: Ctx)
    requires Seen(st, op, f)
    requires || op.byte in {0x0C, 0x0D, 0x42, 0x45, 0x49, 0x4A, 0x6A, 0x93, 0x94, 0x95, 0x97, 0x98, 0x99, 0x9B, 0x9C}
             || 0x26 <= op.byte <= 0x29 || 0x2B <= op.byte <= 0x33 || 0x4C <= op.byte <= 0x4F
             || 0x52 <= op.byte <= 0x54 || op.byte == 0x59 || 0x60 <= op.byte <= 0x66 || 0x6C <= op.byte <= 0x78
             || 0x84 <= op.byte <= 0x86 || 0x88 <= op.byte <= 0x8B || op.byte == 0x8D || op.byte in {0x9F, 0xA0}
             || 0xA2 <= op.byte <= 0xB5
    ensures Step(st, op, env, ctx) == Failed(ExecError.Unimplemented(op.byte))
  {
    hide FoldOp, Move, Clear, Comp, Subb, Adds, Mult, Divs, BitwiseOp, Not, Shift, Push, Pop, Xsend, GetMask, SetMask;
    hide Atsp, Swap, WaitOp, Scmp, Scat, Scut, Slen, Spaste, Serase, A2Fix, Fix2Text, Strcat, A2YOp, Hex2Y, Strcmp;
    hide Strlen, Y2Text, TextToFloat, FloatArith, Parl, Pars, FixToFloat, Parr, Tabget, Pary, Parn, FloatToText;
    hide FloatToFix, BytesToFloat, FloatComp, TabSize, TrapBranch, Branch, BranchTaken, Erg, Tabset, Tabline, Tabseek;
    StepIs(st, op, f, env, ctx);
  }

  /** clear, the trap mask, xsend and swap. */
  lemma ClearByOpcode(st: State, op: Op, f: Op, env: Env, ctx: Ctx, reg: RegId)
    requires Seen(st, op, f) && op.byte == 0x01 && f.arg0 == Reg(reg) && Exists(reg)
    ensures var out := Step(st, op, env, ctx);
            && Ran(out, ctx) && out.st.flags == Flags(true, false, false, false)
            && (IsInteger(reg.bank) ==> IntOf(out.st, reg) == 0 && out.st.s == st.s && out.st.f == st.f)
            && (reg.bank.S? ==> out.st == Past(st, op).(s := st.s[reg.idx := []], flags := out.st.flags))
            && (reg.bank.F? ==> out.st == Past(st, op).(f := st.f[reg.idx := 0], flags := out.st.flags))
  {
    hide Step, FoldOp, EnvStep, WordAt, StoreWord;
    StepIs(st, op, f, env, ctx);
    CoreIs(Past(st, op), f, env, ctx.cursor);
    ClearZeroes(Past(st, op), f, reg);
  }

  lemma MaskByOpcode(st: State, op: Op, f: Op, env: Env, ctx: Ctx, reg: RegId, mask: u32)
    requires Seen(st, op, f)
    ensures op.byte == 0x44 && ReadValue(Past(st, op), f.arg0) == Ok(mask) ==>
              Step(st, op, env, ctx) == Done(Past(st, op).(trapMask := mask), (Next, ctx))
    ensures op.byte == 0x43 && f.arg0 == Reg(reg) && IsWord(reg) ==>
              var out := Step(st, op, env, ctx);
              && Ran(out, ctx) && IntOf(out.st, reg) == st.trapMask % Span(BankWidth(reg.bank))
              && Tells(out.st.flags, IntOf(out.st, reg), BankWidth(reg.bank)) && out.st.trapMask == st.trapMask
  {
    hide Step, FoldOp, EnvStep, WordAt, StoreWord, UpdateZS, ReadValue;
    StepIs(st, op, f, env, ctx);
    var st0 := Past(st, op);
    CoreIs(st0, f, env, ctx.cursor);
    if op.byte == 0x43 && f.arg0 == Reg(reg) && IsWord(reg) {
      WriteThenRead(st0, reg, st.trapMask, reg);
      UpdateTells(st.flags, st.trapMask, BankWidth(reg.bank));
    }
  }

  /** xsend hands out its second operand's bytes, to be answered into its first. */
  lemma XsendByOpcode(st: State, op: Op, f: Op, env: Env, ctx: Ctx)
    requires Seen(st, op, f) && op.byte == 0x2A && ReadBytes(Past(st, op), f.arg1).Done?
    ensures var r := ReadBytes(Past(st, op), f.arg1);
            Step(st, op, env, ctx) == Done(r.st, (Flow.Exchange(r.value, f.arg0), ctx))
  {
    hide Step, FoldOp, EnvStep, ReadBytes;
    StepIs(st, op, f, env, ctx);
    CoreIs(Past(st, op), f, env, ctx.cursor);
  }

  /** swap mirrors its span of the buffer, or records an unmapped trap when the span passes the limit. */
  lemma SwapByOpcode(st: State, op: Op, f: Op, env: Env, ctx: Ctx, base: RegId, at: u32, n: u32)
    requires Seen(st, op, f) && op.byte == 0x51 && base.bank.S? && Exists(base)
    requires f.arg0 == Indexed(base, ImmIndex(at), Some(ImmIndex(n)))
    ensures var out := Step(st, op, env, ctx);
            if at as int + n as int > 1023 then
              if BitAt(st.trapMask, 0) then out == Done(Past(st, op).(trapBit := Some(0)), (Next, ctx))
              else out == Failed(Trapped(0))
            else
              && Ran(out, ctx)
              && out.st == Past(st, op).(s := st.s[base.idx := out.st.s[base.idx]])
              && |out.st.s[base.idx]| == |st.s[base.idx]|
              && forall i :: 0 <= i < |st.s[base.idx]| ==>
                   out.st.s[base.idx][i] ==
                   if at <= i < at as int + n as int then Mem(st.s[base.idx], 2 * at as int + n as int - 1 - i)
                   else st.s[base.idx][i]
  {
    hide Step, FoldOp, EnvStep, SwapSlice, BitAt;
    StepIs(st, op, f, env, ctx);
    CoreIs(Past(st, op), f, env, ctx.cursor);
    forall i | 0 <= i < |st.s[base.idx]|
      ensures SwapSlice(st.s[base.idx], at, n)[i] ==
              if at <= i < at as int + n as int then Mem(st.s[base.idx], 2 * at as int + n as int - 1 - i)
              else st.s[base.idx][i]
    {
      SwapSpan(st.s[base.idx], at, n, i);
    }
  }

  // ---- the byte stack ----

  lemma FourBytes(v: u32)
    ensures LeBytes(v, 1) == [v % 0x100]
    ensures LeBytes(v, 2) == [v % 0x100, v / 0x100 % 0x100]
    ensures LeBytes(v, 4) == [v % 0x100, v / 0x100 % 0x100, v / 0x100 / 0x100 % 0x100,
                              v / 0x100 / 0x100 / 0x100 % 0x100]
  {
    var q1, q2, q3 := v / 0x100, v / 0x100 / 0x100, v / 0x100 / 0x100 / 0x100;
    assert LeBytes(q1, 1) == [q1 % 0x100];
    assert LeBytes(q3, 1) == [q3 % 0x100];
    assert LeBytes(q2, 2) == [q2 % 0x100, q3 % 0x100];
    assert LeBytes(q1, 3) == [q1 % 0x100] + LeBytes(q2, 2);
    assert LeBytes(v, 4) == [v % 0x100] + LeBytes(q1, 3);
  }

  lemma WordBytes(regs: RegFile, at: nat, n: Width)
    requires at + n <= 32
    ensures LeBytes(WordAt(regs, at, n), n) == regs[at..at + n]
  {
    hide LeBytes;
    FourBytes(WordAt(regs, at, n));
    if n == 4 {
      WordDigits(regs[at], regs[at + 1], regs[at + 2], regs[at + 3]);
    } else if n == 2 {
      WordDigits(regs[at], regs[at + 1], 0, 0);
    } else {
      WordDigits(regs[at], 0, 0, 0);
    }
  }

  lemma StoredBytes(regs: RegFile, at: nat, n: Width, bytes: seq<byte>)
    requires at + n <= 32 && |bytes| == n
    ensures StoreWord(regs, at, n, WordOf(bytes, n))[at..at + n] == bytes
  {
    if n == 4 {
      WordDigits(bytes[0], bytes[1], bytes[2], bytes[3]);
    } else if n == 2 {
      WordDigits(bytes[0], bytes[1], 0, 0);
    } else {
      WordDigits(bytes[0], 0, 0, 0);
    }
  }

  lemma WordFits(bytes: seq<byte>, w: Width)
    ensures WordOf(bytes, w) < Span(w)
  {
  }

  /** push and pop of a register: its own file bytes, the first of them deepest. */
  lemma StackByOpcode(st: State, op: Op, f: Op, env: Env, ctx: Ctx, reg: RegId)
    requires Seen(st, op, f) && f.arg0 == Reg(reg) && IsWord(reg)
    ensures var (w, low) := (BankWidth(reg.bank), Low(reg));
            var out := Step(st, op, env, ctx);
            && (op.byte == 0x1E ==> out == Done(Past(st, op).(stack := st.stack + st.regs[low..low + w]), (Next, ctx)))
            && (op.byte == 0x1F ==>
                  if |st.stack| < w then out == Failed(StackUnderflow)
                  else
                    var rest := |st.stack| - w;
                    && Ran(out, ctx)
                    && out.st.stack == st.stack[..rest] && out.st.regs[low..low + w] == st.stack[rest..]
                    && Tells(out.st.flags, IntOf(out.st, reg), w) && !out.st.flags.v && out.st.flags.c == st.flags.c)
  {
    hide Step, FoldOp, EnvStep, WordAt, StoreWord, WordOf, LeBytes, UpdateZS, ReadValue;
    var st0, w := Past(st, op), BankWidth(reg.bank);
    StepIs(st, op, f, env, ctx);
    CoreIs(st0, f, env, ctx.cursor);
    RegisterWord(st0, reg);
    WordBytes(st.regs, Low(reg), w);
    if op.byte == 0x1F && |st.stack| >= w {
      var v := TopWord(st.stack, w);
      WordFits(st.stack[|st.stack| - w..], w);
      SmallMod(v, Span(w));
      SettleWord(st0.(stack := st.stack[..|st.stack| - w]), reg, v);
      StoredBytes(st.regs, Low(reg), w, st.stack[|st.stack| - w..]);
    }
  }

  /** push of an immediate: as many of its bytes, low first, as its mode encodes. */
  lemma PushImmediate(st: State, op: Op, f: Op, env: Env, ctx: Ctx, v: u32)
    requires Seen(st, op, f) && op.byte == 0x1E && f.arg0 == Imm(v)
    ensures var (out, b1, b2, b3) := (Step(st, op, env, ctx), v / 0x100, v / 0x100 / 0x100, v / 0x100 / 0x100 / 0x100);
            var nibble := op.modeByte / 16;
            if nibble !in {5, 6, 7} then out == Failed(InvalidOperand)
            else
              var bytes: seq<byte> := if nibble == 5 then [v % 0x100]
                                      else if nibble == 6 then [v % 0x100, b1 % 0x100]
                                      else [v % 0x100, b1 % 0x100, b2 % 0x100, b3 % 0x100];
              out == Done(Past(st, op).(stack := st.stack + bytes), (Next, ctx))
  {
    hide Step, FoldOp, EnvStep, LeBytes;
    StepIs(st, op, f, env, ctx);
    CoreIs(Past(st, op), f, env, ctx.cursor);
    FourBytes(v);
  }

  lemma FieldBelow(stack: seq<byte>, pos: nat, w: Width)
    requires w <= pos <= |stack|
    ensures var visible := stack[..|stack| - (pos - w)];
            |visible| >= w && visible[|visible| - w..] == stack[|stack| - pos..][..w]
  {
  }

  lemma PeekCopies(st: State, f: Op, reg: RegId, pos: u32)
    requires f.arg0 == Reg(reg) && IsWord(reg) && ReadValue(st, f.arg1) == Ok(pos)
    requires BankWidth(reg.bank) <= pos <= |st.stack|
    ensures var (w, low, out) := (BankWidth(reg.bank), Low(reg), Atsp(st, f));
            && out.Done? && out.value == Next && out.st.stack == st.stack
            && Tells(out.st.flags, IntOf(out.st, reg), w)
            && out.st.regs[low..low + w] == st.stack[|st.stack| - pos..][..w]
  {
    hide WordAt, StoreWord, WordOf, UpdateZS, ReadValue;
    var w := BankWidth(reg.bank);
    var field := st.stack[|st.stack| - pos..][..w];
    FieldBelow(st.stack, pos, w);
    WordFits(field, w);
    SmallMod(WordOf(field, w), Span(w));
    UpdateTells(st.flags, WordOf(field, w), w);
    WriteThenRead(st, reg, WordOf(field, w), reg);
    StoredBytes(st.regs, Low(reg), w, field);
  }

  /** atsp copies the field that starts `pos` bytes below the top, and leaves the stack. */
  lemma PeekByOpcode(st: State, op: Op, f: Op, env: Env, ctx: Ctx, reg: RegId, pos: u32)
    requires Seen(st, op, f) && op.byte == 0x50 && f.arg0 == Reg(reg) && IsWord(reg)
    requires ReadValue(Past(st, op), f.arg1) == Ok(pos)
    ensures var (w, low) := (BankWidth(reg.bank), Low(reg));
            var out := Step(st, op, env, ctx);
            if !(w <= pos <= |st.stack|) then out == Failed(AtspStack)
            else
              && Ran(out, ctx) && out.st.stack == st.stack && Tells(out.st.flags, IntOf(out.st, reg), w)
              && out.st.regs[low..low + w] == st.stack[|st.stack| - pos..][..w]
  {
    hide Step, FoldOp, EnvStep, Atsp, WordAt, ReadValue;
    StepIs(st, op, f, env, ctx);
    CoreIs(Past(st, op), f, env, ctx.cursor);
    AtspFaults(Past(st, op), f, reg, pos);
    if BankWidth(reg.bank) <= pos <= |st.stack| {
      PeekCopies(Past(st, op), f, reg, pos);
    }
  }
}
