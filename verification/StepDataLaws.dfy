/** The text, buffer, float and argument opcodes through `step`, opcode byte by opcode byte. */
module StepDataLaws {
  import opened Wrappers
  import opened Words
  import opened Bytecode
  import opened MachineState
  import opened MachineLaws
  import opened Text
  import opened TextLaws
  import opened Alu
  import opened AluLaws
  import opened ExecBase
  import opened ExecCore
  import opened ExecData
  import opened ExecContext
  import opened Executor
  import opened OpcodeLaws
  import opened TextOpcodeLaws
  import opened FloatLaws
  import opened ContextLaws
  import opened StepLaws

  // ---- buffers ----

  /** What the handlers make of two string registers. */
  lemma BuffersAre(st: State, f: Op, dest: RegId, source: RegId)
    requires IsBuffer(dest) && IsBuffer(source) && f.arg0 == Reg(dest) && f.arg1 == Reg(source)
    ensures var (a, b) := (st.s[dest.idx], st.s[source.idx]);
            && Move(st, f) == Done(st.(s := st.s[dest.idx := b + if |a| < |b| then [] else a[|b|..]],
                                       flags := Flags(false, false, false, false)), Next)
            && Scmp(st, f) == Done(st.(flags := st.flags.(z := a == b)), Next)
            && Scat(st, f) == Done(st.(s := st.s[dest.idx := a + b]), Next)
            && Strcmp(st, f) == Done(st.(flags := st.flags.(z := CString(a) != CString(b))), Next)
            && var joined := Strcat(st, f);
               && joined.Done? && joined.value == Next && CString(joined.st.s[dest.idx]) == CString(a) + CString(b)
               && joined.st == st.(s := st.s[dest.idx := joined.st.s[dest.idx]])
  {
    hide CString, StringBytes;
    var a, b := st.s[dest.idx], st.s[source.idx];
    assert OverFront(a, b) == b + if |a| < |b| then [] else a[|b|..];
    StrcatJoinsTexts(st, f, dest, source);
  }

  /** Two string registers: move, scmp, scat, strcat and strcmp. */
  lemma BuffersByOpcode(st: State, op: Op, f: Op, env: Env, ctx: Ctx, dest: RegId, source: RegId)
    requires Seen(st, op, f) && IsBuffer(dest) && IsBuffer(source) && f.arg0 == Reg(dest) && f.arg1 == Reg(source)
    ensures var (out, st0) := (Step(st, op, env, ctx), Past(st, op));
            var (a, b) := (st.s[dest.idx], st.s[source.idx]);
            match op.byte
            case 0x00 =>
              out == Done(st0.(s := st.s[dest.idx := b + if |a| < |b| then [] else a[|b|..]],
                               flags := Flags(false, false, false, false)), (Next, ctx))
            case 0x20 => out == Done(st0.(flags := st.flags.(z := a == b)), (Next, ctx))
            case 0x21 => out == Done(st0.(s := st.s[dest.idx := a + b]), (Next, ctx))
            case 0x7E =>
              && Ran(out, ctx) && CString(out.st.s[dest.idx]) == CString(a) + CString(b)
              && out.st == st0.(s := st.s[dest.idx := out.st.s[dest.idx]])
            case 0x8F => out == Done(st0.(flags := st.flags.(z := CString(a) != CString(b))), (Next, ctx))
            case _ => true
  {
    hide Step, FoldOp, EnvStep, CString, Move, Scmp, Scat, Strcmp, Strcat;
    StepIs(st, op, f, env, ctx);
    CoreIs(Past(st, op), f, env, ctx.cursor);
    DataIs(Past(st, op), f, env, ctx.cursor);
    BuffersAre(Past(st, op), f, dest, source);
  }

  lemma ErasedSpan(a: seq<byte>, at: nat, n: nat)
    ensures var left := Erase(a, at, n);
            && |left| == (if at >= |a| then |a| else if at + n >= |a| then at else |a| - n)
            && forall i :: 0 <= i < |left| ==> left[i] == a[if i < at then i else i + n]
  {
  }

  lemma EditsAre(st: State, f: Op, dest: RegId, source: RegId, at: u32, n: u32)
    requires IsBuffer(dest) && IsBuffer(source)
    ensures var (a, b) := (st.s[dest.idx], st.s[source.idx]);
            && (f.arg0 == Reg(dest) && f.arg1 == Imm(n) ==>
                  Scut(st, f) == Done(st.(s := st.s[dest.idx := if n > |a| then [] else a[..|a| - n]]), Next))
            && (f.arg0 == Indexed(dest, ImmIndex(at), None) && f.arg1 == Reg(source) ==>
                  Spaste(st, f) ==
                  Done(if at >= |a| then st else st.(s := st.s[dest.idx := a[..at] + b + a[at..]]), Next))
            && (f.arg0 == Indexed(dest, ImmIndex(at), None) && f.arg1 == Imm(n) ==>
                  Serase(st, f) == Done(st.(s := st.s[dest.idx := Erase(a, at, n)]), Next))
  {
    hide Erase;
  }

  /** scut, spaste and serase on a string register. */
  lemma EditsByOpcode(st: State, op: Op, f: Op, env: Env, ctx: Ctx, dest: RegId, source: RegId, at: u32, n: u32)
    requires Seen(st, op, f) && IsBuffer(dest) && IsBuffer(source)
    ensures var (out, st0) := (Step(st, op, env, ctx), Past(st, op));
            var (a, b) := (st.s[dest.idx], st.s[source.idx]);
            && (op.byte == 0x22 && f.arg0 == Reg(dest) && f.arg1 == Imm(n) ==>
                  out == Done(st0.(s := st.s[dest.idx := if n > |a| then [] else a[..|a| - n]]), (Next, ctx)))
            && (op.byte == 0x24 && f.arg0 == Indexed(dest, ImmIndex(at), None) && f.arg1 == Reg(source) ==>
                  var st' := if at >= |a| then st0 else st0.(s := st.s[dest.idx := a[..at] + b + a[at..]]);
                  out == Done(st', (Next, ctx)))
            && (op.byte == 0x25 && f.arg0 == Indexed(dest, ImmIndex(at), None) && f.arg1 == Imm(n) ==>
                  && Ran(out, ctx) && out.st == st0.(s := st.s[dest.idx := out.st.s[dest.idx]])
                  && var left := out.st.s[dest.idx];
                     |left| == (if at >= |a| then |a| else if at as int + n as int >= |a| then at else |a| - n) &&
                     forall i :: 0 <= i < |left| ==> left[i] == a[if i < at then i else i + n as int])
  {
    hide Step, FoldOp, EnvStep, Scut, Spaste, Serase, Erase;
    StepIs(st, op, f, env, ctx);
    DataIs(Past(st, op), f, env, ctx.cursor);
    EditsAre(Past(st, op), f, dest, source, at, n);
    ErasedSpan(st.s[dest.idx], at, n);
  }

  /** slen and strlen of a string register, and slen of an integer one. */
  lemma LengthsByOpcode(st: State, op: Op, f: Op, env: Env, ctx: Ctx, dest: RegId, source: RegId)
    requires Seen(st, op, f) && op.byte in {0x23, 0x90} && IsWord(dest) && f.arg0 == Reg(dest) && f.arg1 == Reg(source)
    requires IsBuffer(source) || (op.byte == 0x23 && IsWord(source))
    ensures var (out, w) := (Step(st, op, env, ctx), BankWidth(dest.bank));
            && Ran(out, ctx) && Tells(out.st.flags, IntOf(out.st, dest), w)
            && IntOf(out.st, dest) == (if IsWord(source) then BankWidth(source.bank)
                                       else if op.byte == 0x23 then |st.s[source.idx]|
                                       else |CString(st.s[source.idx])|) % Span(w)
  {
    hide Step, FoldOp, EnvStep, WordAt, CString, Settle;
    var st0 := Past(st, op);
    StepIs(st, op, f, env, ctx);
    DataIs(st0, f, env, ctx.cursor);
    var n := if IsWord(source) then BankWidth(source.bank)
             else if op.byte == 0x23 then |st.s[source.idx]| else |CString(st.s[source.idx])|;
    SettleWord(st0, dest, Low32(n));
    Low32Residue(n, BankWidth(dest.bank));
  }

  // ---- text ----

  /** What fix2hex (0x79) and fix2dez (0x7A) print of a word. */
  function Printed(b: byte, v: u32, w: Width): Text {
    if b == 0x7A then SignedDecimal(Signed(v, w)) else "0x" + Hex(v, 2 * w as nat)
  }

  lemma PrintedIsStorable(b: byte, v: u32, w: Width)
    ensures CString(StringBytes(Printed(b, v, w))) == Printed(b, v, w)
  {
    hide CString, StringBytes, SignedDecimal, Hex, Signed;
    SignedReading(v, w);
    DecimalParses(Signed(v, w));
    HexParses(v, 2 * w as nat);
    AsciiSurvives(Printed(b, v, w));
  }

  lemma PrintsWord(st: State, op: Op, f: Op, env: Env, ctx: Ctx, dest: RegId, w: Width, v: u32)
    requires Seen(st, op, f) && op.byte in {0x79, 0x7A} && IsBuffer(dest) && f.arg0 == Reg(dest)
    requires FormatWidth(Mode1(f), f.arg1) == Ok(w) && ReadInt(Past(st, op), f.arg1, w) == Done(Past(st, op), v)
    ensures var out := Step(st, op, env, ctx);
            && Ran(out, ctx) && out.st == Past(st, op).(s := st.s[dest.idx := out.st.s[dest.idx]])
            && CString(out.st.s[dest.idx]) == Printed(op.byte, v, w)
  {
    hide Step, FoldOp, EnvStep, CString, StringBytes, SignedDecimal, Hex, Signed, WriteString, ReadInt, FormatWidth;
    StepIs(st, op, f, env, ctx);
    DataIs(Past(st, op), f, env, ctx.cursor);
    StringRegister(Past(st, op), dest, Printed(op.byte, v, w));
    PrintedIsStorable(op.byte, v, w);
  }

  /** fix2hex and fix2dez print a register, at its own width, into a string register. */
  lemma PrintsByOpcode(st: State, op: Op, f: Op, env: Env, ctx: Ctx, dest: RegId, reg: RegId)
    requires Seen(st, op, f) && op.byte in {0x79, 0x7A} && IsBuffer(dest) && IsWord(reg)
    requires f.arg0 == Reg(dest) && f.arg1 == Reg(reg)
    ensures var out := Step(st, op, env, ctx);
            && Ran(out, ctx) && out.st == Past(st, op).(s := st.s[dest.idx := out.st.s[dest.idx]])
            && CString(out.st.s[dest.idx]) == Printed(op.byte, IntOf(st, reg), BankWidth(reg.bank))
  {
    hide Step, FoldOp, CString, Printed, ReadInt;
    RegisterWord(Past(st, op), reg);
    PrintsWord(st, op, f, env, ctx, dest, BankWidth(reg.bank), IntOf(st, reg));
  }

  /** They print an immediate at the width its mode encodes, and a buffer's first byte. */
  lemma PrintsOthers(st: State, op: Op, f: Op, env: Env, ctx: Ctx, dest: RegId, w: Width, v: u32)
    requires Seen(st, op, f) && op.byte in {0x79, 0x7A} && IsBuffer(dest) && f.arg0 == Reg(dest)
    requires || (f.arg1 == Imm(v) && op.modeByte % 16 == if w == 1 then 5 else if w == 2 then 6 else 7)
             || (f.arg1.Reg? && IsBuffer(f.arg1.reg) && w == 1 && v == Mem(st.s[f.arg1.reg.idx], 0))
    ensures var out := Step(st, op, env, ctx);
            && Ran(out, ctx) && out.st == Past(st, op).(s := st.s[dest.idx := out.st.s[dest.idx]])
            && CString(out.st.s[dest.idx]) == Printed(op.byte, v, w)
  {
    hide Step, FoldOp, CString, Printed, ReadInt;
    StepIs(st, op, f, env, ctx);
    OperandsRead(Past(st, op), w, if f.arg1.Reg? then f.arg1.reg else dest, v, []);
    PrintsWord(st, op, f, env, ctx, dest, w, v);
  }

  lemma ClampIs(v: int, w: Width)
    ensures Clamp32(v) % Span(w) ==
            (if v > 0x7FFF_FFFF then 0xFFFF_FFFF else if v < -TWO_31 then TWO_31 else v) % Span(w)
  {
    if -TWO_31 <= v <= 0x7FFF_FFFF {
      Low32Residue(v, w);
    }
  }

  /** a2fix of a decimal: its value, held to 32 bits, modulo the register's width. */
  lemma ParseByOpcode(st: State, op: Op, f: Op, env: Env, ctx: Ctx, dest: RegId, source: RegId, v: int)
    requires Seen(st, op, f) && op.byte == 0x67 && IsWord(dest) && IsBuffer(source)
    requires f.arg0 == Reg(dest) && f.arg1 == Reg(source)
    requires -I64_MAX <= v <= I64_MAX && CString(st.s[source.idx]) == SignedDecimal(v)
    ensures var (out, w) := (Step(st, op, env, ctx), BankWidth(dest.bank));
            && Ran(out, ctx)
            && IntOf(out.st, dest) == (if v > 0x7FFF_FFFF then 0xFFFF_FFFF
                                       else if v < -TWO_31 then TWO_31 else v) % Span(w)
            && out.st.flags == Flags(false, false, st.flags.c, false)
  {
    hide Step, FoldOp, EnvStep, WordAt, StoreWord, CString, SignedDecimal, StringToValue, ReadString, Clamp32;
    var st0 := Past(st, op);
    StepIs(st, op, f, env, ctx);
    DataIs(st0, f, env, ctx.cursor);
    BufferText(st0, source);
    DecimalParses(v);
    WriteThenRead(st0, dest, Clamp32(v), dest);
    ClampIs(v, BankWidth(dest.bank));
  }

  lemma BytesAre(st: State, f: Op, dest: RegId, source: RegId)
    requires IsBuffer(dest) && IsBuffer(source) && f.arg0 == Reg(dest) && f.arg1 == Reg(source)
    ensures var was := st.s[source.idx];
            var parsed := HexToBytes(CString(was));
            var printed := if f.byte == 0x91 then BcdText(was) else HexText(was);
            && A2YOp(st, f) == Done(st.(s := st.s[dest.idx := A2Y(CString(was))]), Next)
            && Hex2Y(st, f) == Done(st.(s := st.s[dest.idx := if parsed.Some? then parsed.value else []],
                                        flags := st.flags.(c := parsed.None?)), Next)
            && Y2Text(st, f) == Done(st.(s := st.s[dest.idx := StringBytes(printed)]), Next)
  {
    hide CString, StringBytes, HexText, BcdText, HexToBytes, A2Y;
  }

  /** a2y, hex2y, y2bcd and y2hex between string registers. */
  lemma BytesByOpcode(st: State, op: Op, f: Op, env: Env, ctx: Ctx, dest: RegId, source: RegId, bytes: seq<byte>,
                      at: char)
    requires Seen(st, op, f) && IsBuffer(dest) && IsBuffer(source) && f.arg0 == Reg(dest) && f.arg1 == Reg(source)
    ensures var (out, st0, was) := (Step(st, op, env, ctx), Past(st, op), st.s[source.idx]);
            && (op.byte == 0x8C && bytes != [] && at in {' ', ';', ','} && CString(was) == Join(HexBytes(bytes), at) ==>
                  out == Done(st0.(s := st.s[dest.idx := bytes]), (Next, ctx)))
            && (op.byte == 0x8E && CString(was) == HexText(bytes) ==>
                  out == Done(st0.(s := st.s[dest.idx := bytes], flags := st.flags.(c := false)), (Next, ctx)))
            && (op.byte == 0x91 ==> Ran(out, ctx) && CString(out.st.s[dest.idx]) == BcdText(was))
            && (op.byte == 0x92 ==> Ran(out, ctx) && CString(out.st.s[dest.idx]) == HexText(was))
  {
    hide Step, FoldOp, EnvStep, CString, StringBytes, HexText, BcdText, HexToBytes, A2Y, Join, HexBytes;
    hide A2YOp, Hex2Y, Y2Text;
    var was := st.s[source.idx];
    StepIs(st, op, f, env, ctx);
    DataIs(Past(st, op), f, env, ctx.cursor);
    BytesAre(Past(st, op), f, dest, source);
    if bytes != [] && at in {' ', ';', ','} {
      A2YInvertsSpacedHex(bytes, at);
    }
    HexTextParses(bytes);
    HexTextParses(was);
    AsciiSurvives(HexText(was));
    BcdIsAscii(was);
    AsciiSurvives(BcdText(was));
  }

  lemma {:induction false} BadPair(text: Text, k: nat)
    requires k < |text| / 2 * 2 && ToDigit(text[k], 16) == None
    ensures HexToBytes(text) == None
  {
    hide ToDigit;
    if k >= 2 {
      BadPair(text[2..], k - 2);
    }
  }

  /** hex2y of a bad pair leaves nothing and sets Carry. */
  lemma BadHexByOpcode(st: State, op: Op, f: Op, env: Env, ctx: Ctx, dest: RegId, source: RegId, k: nat)
    requires Seen(st, op, f) && op.byte == 0x8E && IsBuffer(dest) && IsBuffer(source)
    requires f.arg0 == Reg(dest) && f.arg1 == Reg(source)
    requires var text := CString(st.s[source.idx]); k < |text| / 2 * 2 && ToDigit(text[k], 16) == None
    ensures Step(st, op, env, ctx) ==
            Done(Past(st, op).(s := st.s[dest.idx := []], flags := st.flags.(c := true)), (Next, ctx))
  {
    hide Step, FoldOp, EnvStep, CString, HexToBytes, ToDigit;
    StepIs(st, op, f, env, ctx);
    DataIs(Past(st, op), f, env, ctx.cursor);
    BufferText(Past(st, op), source);
    BadPair(CString(st.s[source.idx]), k);
  }

  // ---- floats ----

  lemma FloatsAre(st: State, f: Op, fpu: FloatUnit, a: RegId, b: RegId)
    requires IsFloat(a) && IsFloat(b) && f.arg0 == Reg(a) && f.arg1 == Reg(b)
    ensures var (x, y, z) := (st.f[a.idx], st.f[b.idx], fpu.arith(f.byte, st.f[a.idx], st.f[b.idx]));
            var c := st.flags.c || !fpu.finite(fpu.arith(0x3C, x, y));
            && Move(st, f) == Done(st.(f := st.f[a.idx := y], flags := Flags(false, false, false, false)), Next)
            && FloatArith(st, f, fpu) ==
               (if fpu.finite(z) then Done(st.(f := st.f[a.idx := z]), Next) else Failed(NonFinite))
            && FloatComp(st, f, fpu) == Done(st.(flags := Flags(fpu.equal(x, y), fpu.less(x, y), c, false)), Next)
  {
  }

  /** The float opcodes that read or leave a float register. */
  lemma FloatsByOpcode(st: State, op: Op, f: Op, env: Env, ctx: Ctx, a: RegId, b: RegId)
    requires Seen(st, op, f) && IsFloat(a) && IsFloat(b) && f.arg0 == Reg(a) && f.arg1 == Reg(b)
    ensures var (out, st0, fpu) := (Step(st, op, env, ctx), Past(st, op), env.fpu);
            var (x, y) := (st.f[a.idx], st.f[b.idx]);
            match op.byte
            case 0x00 =>
              out == Done(st0.(f := st.f[a.idx := y], flags := Flags(false, false, false, false)), (Next, ctx))
            case 0x3B | 0x3C | 0x3D | 0x3E =>
              var z := fpu.arith(op.byte, x, y);
              out == if fpu.finite(z) then Done(st0.(f := st.f[a.idx := z]), (Next, ctx)) else Failed(NonFinite)
            case 0xA1 =>
              var c := st.flags.c || !fpu.finite(fpu.arith(0x3C, x, y));
              out == Done(st0.(flags := Flags(fpu.equal(x, y), fpu.less(x, y), c, false)), (Next, ctx))
            case _ => true
  {
    hide Step, FoldOp, EnvStep, Move, FloatArith, FloatComp;
    StepIs(st, op, f, env, ctx);
    CoreIs(Past(st, op), f, env, ctx.cursor);
    EnvIs(Past(st, op), f, env, ctx.cursor);
    FloatsAre(Past(st, op), f, env.fpu, a, b);
  }

  /** fix2flt and flt2fix between an integer and a float register. */
  lemma FloatWordsByOpcode(st: State, op: Op, f: Op, env: Env, ctx: Ctx, reg: RegId, float: RegId)
    requires Seen(st, op, f) && IsWord(reg) && IsFloat(float)
    ensures var (out, w) := (Step(st, op, env, ctx), BankWidth(reg.bank));
            && (op.byte == 0x68 && f.arg0 == Reg(float) && f.arg1 == Reg(reg) ==>
                  var x := env.fpu.fromInt(Signed(IntOf(st, reg), w));
                  out == Done(Past(st, op).(f := st.f[float.idx := x]), (Next, ctx)))
            && (op.byte == 0x96 && f.arg0 == Reg(reg) && f.arg1 == Reg(float) ==>
                  if !env.fpu.finite(st.f[float.idx]) then out == Failed(NonFinite)
                  else
                    var x := env.fpu.truncate(st.f[float.idx]);
                    && Ran(out, ctx) && IntOf(out.st, reg) == x % Span(w)
                    && Tells(out.st.flags, x % TWO_32, 4) && !out.st.flags.v && out.st.flags.c == st.flags.c)
  {
    hide Step, FoldOp, EnvStep, WordAt, StoreWord, ReadInt, Signed, UpdateZS, Low32;
    var st0 := Past(st, op);
    StepIs(st, op, f, env, ctx);
    EnvIs(st0, f, env, ctx.cursor);
    RegisterWord(st0, reg);
    var x := env.fpu.truncate(st.f[float.idx]);
    WriteThenRead(st0, reg, Low32(x), reg);
    Low32Residue(x, BankWidth(reg.bank));
    Low32Residue(x, 4);
    UpdateTells(st.flags.(v := false), Low32(x), 4);
  }

  lemma FloatTextsAre(st: State, f: Op, fpu: FloatUnit, float: RegId, buffer: RegId)
    requires IsFloat(float) && IsBuffer(buffer)
    ensures var (x, data) := (st.f[float.idx], st.s[buffer.idx]);
            && (f.arg0 == Reg(float) && f.arg1 == Reg(buffer) ==>
                  var parsed := fpu.parse(CString(data));
                  && TextToFloat(st, f, fpu) == (if parsed.Some? && fpu.finite(parsed.value)
                                                 then Done(st.(f := st.f[float.idx := parsed.value]), Next)
                                                 else Failed(BadFloatString(CString(data))))
                  && (|data| < (if f.byte == 0x9D then 4 else 8) ==> BytesToFloat(st, f, fpu) == Failed(InvalidOperand))
                  && (f.byte == 0x9D && |data| >= 4 ==>
                        BytesToFloat(st, f, fpu) == Done(st.(f := st.f[float.idx := fpu.widen(WordOf(data, 4))]), Next))
                  && (f.byte == 0x9E && |data| >= 8 ==>
                        var out := BytesToFloat(st, f, fpu);
                        && out.Done? && out.value == Next && out.st == st.(f := st.f[float.idx := out.st.f[float.idx]])
                        && out.st.f[float.idx] == WordOf(data, 4) as int + TWO_32 * WordOf(data[4..], 4) as int))
            && (f.arg0 == Reg(buffer) && f.arg1 == Reg(float) ==>
                  FloatToText(st, f, fpu) ==
                  if !fpu.finite(x) then Failed(NonFinite)
                  else Done(st.(s := st.s[buffer.idx := StringBytes(fpu.format(x))]), Next))
  {
    hide CString, StringBytes, WordOf;
  }

  /** a2flt, flt2a, y42flt and y82flt between a float and a string register. */
  lemma FloatTextsByOpcode(st: State, op: Op, f: Op, env: Env, ctx: Ctx, float: RegId, buffer: RegId)
    requires Seen(st, op, f) && IsFloat(float) && IsBuffer(buffer)
    ensures var (out, st0, fpu) := (Step(st, op, env, ctx), Past(st, op), env.fpu);
            var (x, data) := (st.f[float.idx], st.s[buffer.idx]);
            && (op.byte == 0x3A && f.arg0 == Reg(float) && f.arg1 == Reg(buffer) ==>
                  var parsed := fpu.parse(CString(data));
                  out == if parsed.Some? && fpu.finite(parsed.value)
                         then Done(st0.(f := st.f[float.idx := parsed.value]), (Next, ctx))
                         else Failed(BadFloatString(CString(data))))
            && (op.byte == 0x87 && f.arg0 == Reg(buffer) && f.arg1 == Reg(float) ==>
                  if !fpu.finite(x) then out == Failed(NonFinite)
                  else out == Done(st0.(s := st.s[buffer.idx := StringBytes(fpu.format(x))]), (Next, ctx)))
            && (op.byte == 0x9D && f.arg0 == Reg(float) && f.arg1 == Reg(buffer) ==>
                  out == if |data| < 4 then Failed(InvalidOperand)
                         else Done(st0.(f := st.f[float.idx := fpu.widen(WordOf(data[..4], 4))]), (Next, ctx)))
            && (op.byte == 0x9E && f.arg0 == Reg(float) && f.arg1 == Reg(buffer) ==>
                  if |data| < 8 then out == Failed(InvalidOperand)
                  else
                    && Ran(out, ctx) && out.st == st0.(f := st.f[float.idx := out.st.f[float.idx]])
                    && out.st.f[float.idx] == WordOf(data[..4], 4) as int + TWO_32 * WordOf(data[4..8], 4) as int)
  {
    hide Step, FoldOp, EnvStep, CString, StringBytes, WordOf, TextToFloat, FloatToText, BytesToFloat;
    var data := st.s[buffer.idx];
    StepIs(st, op, f, env, ctx);
    EnvIs(Past(st, op), f, env, ctx.cursor);
    FloatTextsAre(Past(st, op), f, env.fpu, float, buffer);
    if |data| >= 4 {
      FirstBytes(data, 4);
    }
    if |data| >= 8 {
      FirstBytes(data[4..], 4);
      assert data[4..][..4] == data[4..8];
    }
  }

  // ---- arguments ----

  lemma ArgumentsAre(st: State, f: Op, env: Env, fields: seq<Text>, pos: u32, dest: RegId)
    requires Passes(env.args, fields) && |fields| < TWO_32
    requires f.arg0 == Reg(dest) && Exists(dest) && f.arg1 == Imm(pos)
    ensures var given := Given(fields, pos);
            var text := if given.Some? then given.value else [];
            && (IsInteger(dest.bank) ==>
                  var (out, count) := (Parl(st, f, env.args), Parn(st, f, env.args));
                  && out.Done? && out.value == Next && out.st.flags == Flags(given.None?, false, false, false)
                  && (given.None? ==> IntOf(out.st, dest) == 0)
                  && (forall v: int :: -I64_MAX <= v <= I64_MAX && given == Some(SignedDecimal(v)) ==>
                        IntOf(out.st, dest) == v % Span(BankWidth(dest.bank)))
                  && count.Done? && count.value == Next
                  && IntOf(count.st, dest) == |fields| % Span(BankWidth(dest.bank))
                  && Tells(count.st.flags, IntOf(count.st, dest), BankWidth(dest.bank)))
            && (dest.bank.S? ==>
                  && Pars(st, f, env.args) ==
                     Done(st.(s := st.s[dest.idx := StringBytes(text)], flags := st.flags.(z := given.None?)), Next)
                  && Pary(st, f, env.args) ==
                     Done(st.(s := st.s[dest.idx := env.args], flags := st.flags.(z := false)), Next))
            && (dest.bank.F? ==>
                  var out := Parr(st, f, env);
                  && out.Done? && out.value == Next && out.st.flags == Flags(given.None?, false, false, false)
                  && out.st.f == st.f[dest.idx := if IsPlain(text) && given.Some? && env.fpu.parse(text).Some?
                                                  then env.fpu.parse(text).value else 0])
  {
    hide ArgStrings, Field, WordAt, StoreWord, StringBytes, StringToValue, SignedDecimal, Settle, Low32;
    var given := Given(fields, pos);
    FieldsAreGiven(env.args, fields, pos);
    if IsInteger(dest.bank) {
      var x := if given.Some? then Low32(StringToValue(given.value)) else 0;
      WriteThenRead(st, dest, x, dest);
      SmallMod(0, Span(BankWidth(dest.bank)));
      forall v: int | -I64_MAX <= v <= I64_MAX && given == Some(SignedDecimal(v))
        ensures x % Span(BankWidth(dest.bank)) == v % Span(BankWidth(dest.bank))
      {
        DecimalParses(v);
        Low32Residue(v, BankWidth(dest.bank));
      }
      SettleWord(st, dest, Low32(|fields|));
      Low32Residue(|fields|, BankWidth(dest.bank));
    } else if dest.bank.F? && given.Some? {
      PlainText(given.value);
    }
  }

  /** parb, parw, parl, pars, parr, pary and parn, over the fields the caller joined. */
  lemma ArgumentsByOpcode(st: State, op: Op, f: Op, env: Env, ctx: Ctx, fields: seq<Text>, pos: u32, dest: RegId)
    requires Seen(st, op, f) && Passes(env.args, fields) && |fields| < TWO_32
    requires f.arg0 == Reg(dest) && Exists(dest) && f.arg1 == Imm(pos)
    ensures var (out, given) := (Step(st, op, env, ctx), Given(fields, pos));
            var text := if given.Some? then given.value else [];
            && (op.byte in {0x55, 0x56, 0x57} && IsInteger(dest.bank) ==>
                  && Ran(out, ctx) && out.st.flags == Flags(given.None?, false, false, false)
                  && (given.None? ==> IntOf(out.st, dest) == 0)
                  && forall v: int :: -I64_MAX <= v <= I64_MAX && given == Some(SignedDecimal(v)) ==>
                       IntOf(out.st, dest) == v % Span(BankWidth(dest.bank)))
            && (op.byte == 0x58 && dest.bank.S? ==>
                  out == Done(Past(st, op).(s := st.s[dest.idx := StringBytes(text)],
                                            flags := st.flags.(z := given.None?)), (Next, ctx)))
            && (op.byte == 0x69 && dest.bank.F? ==>
                  && Ran(out, ctx) && out.st.flags == Flags(given.None?, false, false, false)
                  && out.st.f == st.f[dest.idx := if IsPlain(text) && given.Some? && env.fpu.parse(text).Some?
                                                  then env.fpu.parse(text).value else 0])
            && (op.byte == 0x7F && dest.bank.S? ==>
                  out == Done(Past(st, op).(s := st.s[dest.idx := env.args], flags := st.flags.(z := false)),
                              (Next, ctx)))
            && (op.byte == 0x80 && IsInteger(dest.bank) ==>
                  && Ran(out, ctx) && IntOf(out.st, dest) == |fields| % Span(BankWidth(dest.bank))
                  && Tells(out.st.flags, IntOf(out.st, dest), BankWidth(dest.bank)))
  {
    hide Step, FoldOp, EnvStep, WordAt, StringBytes, SignedDecimal, Parl, Parn, Pars, Pary, Parr;
    StepIs(st, op, f, env, ctx);
    EnvIs(Past(st, op), f, env, ctx.cursor);
    ArgumentsAre(Past(st, op), f, env, fields, pos, dest);
  }
}
