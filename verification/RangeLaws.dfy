/** No register a decoded instruction names is ever out of range, in any access, step or run. */
module RangeLaws {
  import opened Wrappers
  import opened Words
  import opened Bytecode
  import opened MachineState
  import opened Text
  import opened Alu
  import opened ExecBase
  import opened ExecCore
  import opened ExecData
  import opened ExecContext
  import opened ExecLaws
  import opened Executor
  import opened Engine
  import Assemble

  // ---- what is decoded exists ----

  predicate ArgExists(arg: IndexArg) {
    arg.RegIndex? ==> Exists(arg.reg)
  }

  /** Every register an operand names: its own, its base, its index, its length. */
  predicate OperandExists(operand: Operand) {
    match operand
    case Reg(reg) => Exists(reg)
    case Indexed(base, index, len) => Exists(base) && ArgExists(index) && (len.Some? ==> ArgExists(len.value))
    case _ => true
  }

  predicate OpExists(op: Op) {
    OperandExists(op.arg0) && OperandExists(op.arg1)
  }

  lemma WellFormedExists(op: Op)
    requires Assemble.WellFormed(op)
    ensures OpExists(op)
  {
  }

  /** A decoded instruction names no register that does not exist. */
  lemma DecodedOpExists(code: seq<byte>, pos: nat)
    requires Decode.DecodeOne(code, pos).Ok?
    ensures OpExists(Decode.DecodeOne(code, pos).value)
  {
    Assemble.DecodedIsPlaced(code, pos);
    WellFormedExists(Decode.DecodeOne(code, pos).value);
  }

  lemma {:induction false} TiledExists(ops: seq<Op>, start: nat, i: nat)
    requires Assemble.Tiled(ops, start) && i < |ops|
    ensures OpExists(ops[i])
  {
    hide Assemble.WellFormed, OpExists;
    WellFormedExists(ops[0]);
    if i > 0 {
      TiledExists(ops[1..], start + ops[0].len, i - 1);
    }
  }

  // ---- access ----

  predicate IsRangeFault(e: ExecError) {
    e.Machine? && e.e.OutOfRange?
  }

  predicate InRange<T>(out: Out<T>) {
    out.Failed? ==> !IsRangeFault(out.error)
  }

  predicate Sane<T>(r: Result<T, MachineError>) {
    r.Err? ==> !r.error.OutOfRange?
  }

  /** Reading, resolving and storing through operands that exist never faults out of range. */
  lemma AccessIsInRange(st: State, operand: Operand, value: Value, len: nat)
    requires OperandExists(operand)
    ensures Sane(Read(st, operand)) && Sane(Write(st, operand, value)) && Sane(WriteIndexed(st, operand, value, len))
    ensures operand.Indexed? ==>
              && Sane(ResolveIndex(st, operand.index)) && Sane(SwapBuffer(st, operand.base, len, len))
              && (operand.len.Some? ==> Sane(ResolveIndex(st, operand.len.value)))
  {
    hide WordAt, StoreWord, LeBytes, Overlay, SwapSlice, ZeroExtended;
  }

  /** The same for the handlers' own accesses, in every state. */
  lemma OperandIsInRange(operand: Operand)
    requires OperandExists(operand)
    ensures forall st: State :: InRange(ReadSource(st, operand)) && InRange(ReadBytes(st, operand))
    ensures forall st: State :: InRange(ReadString(st, operand))
    ensures forall st: State, n: Width :: InRange(ReadInt(st, operand, n))
    ensures forall st: State, v: Value :: InRange(Store(Write(st, operand, v)))
    ensures forall st: State, v: Value, n: nat :: InRange(WriteIndexedDest(st, operand, v, n))
    ensures forall st: State, text: Text :: InRange(WriteString(st, operand, text))
    ensures forall st: State :: InRange(Pure(st, ReadValue(st, operand)))
    ensures forall st: State :: InRange(Pure(st, ReadFloat(st, operand)))
  {
    forall st: State, v: Value, n: nat
      ensures Sane(Read(st, operand)) && Sane(Write(st, operand, v)) && Sane(WriteIndexed(st, operand, v, n))
    {
      AccessIsInRange(st, operand, v, n);
    }
    hide Read, Write, WriteIndexed, WordOf, CString, StringBytes;
  }

  // ---- every handler ----

  lemma ExistingArgs(op: Op)
    requires OpExists(op)
    ensures OperandExists(op.arg0) && OperandExists(op.arg1)
  {
  }

  lemma SwapsInRange(st: State, op: Op)
    requires OpExists(op)
    ensures InRange(Swap(st, op))
  {
    hide SwapSlice, WordAt;
  }

  lemma MovesInRange(st: State, op: Op)
    requires OpExists(op)
    ensures InRange(Move(st, op)) && InRange(Clear(st, op)) && InRange(Swap(st, op))
  {
    OperandIsInRange(op.arg0);
    OperandIsInRange(op.arg1);
    forall st: State, n: nat
      ensures op.arg0.Indexed? ==> Sane(SwapBuffer(st, op.arg0.base, n, n)) && Sane(ResolveIndex(st, op.arg0.index))
      ensures op.arg0.Indexed? && op.arg0.len.Some? ==> Sane(ResolveIndex(st, op.arg0.len.value))
    {
      AccessIsInRange(st, op.arg0, IntValue(0), n);
    }
    SwapsInRange(st, op);
    hide ReadInt, ReadBytes, ReadSource, Write, WriteIndexedDest, UpdateZS, Swap, Exists;
  }

  lemma SumsInRange(st: State, op: Op)
    requires OpExists(op)
    ensures InRange(Comp(st, op)) && InRange(Subb(st, op)) && InRange(Adds(st, op))
  {
    OperandIsInRange(op.arg0);
    OperandIsInRange(op.arg1);
    hide ReadInt, Write, WriteIndexedDest, UpdateZS, OpExists, OperandExists, SubFlags, AddFlags, Low32;
  }

  lemma ProductsInRange(st: State, op: Op)
    requires OpExists(op)
    ensures InRange(Mult(st, op)) && InRange(Divs(st, op))
  {
    OperandIsInRange(op.arg0);
    OperandIsInRange(op.arg1);
    hide ReadInt, Write, WriteIndexedDest, UpdateZS, OpExists, OperandExists;
    hide Product, ProductHigh, TruncDiv, TruncRem, Signed, DivFaults, Low32;
  }

  lemma BitsInRange(st: State, op: Op)
    requires OpExists(op)
    ensures InRange(BitwiseOp(st, op)) && InRange(Not(st, op)) && InRange(Shift(st, op))
  {
    OperandIsInRange(op.arg0);
    OperandIsInRange(op.arg1);
    hide ReadInt, Write, UpdateZS, OpExists, OperandExists, ShiftBy, Bitwise, BitNot, Signed;
  }

  lemma FormatWidthInRange(st: State, op: Op)
    ensures InRange(Pure(st, FormatWidth(Mode1(op), op.arg1)))
  {
  }

  lemma ConversionsInRange(st: State, op: Op)
    requires OpExists(op)
    ensures InRange(A2Fix(st, op)) && InRange(Fix2Text(st, op)) && InRange(A2YOp(st, op))
    ensures InRange(Hex2Y(st, op)) && InRange(Y2Text(st, op))
  {
    OperandIsInRange(op.arg0);
    OperandIsInRange(op.arg1);
    FormatWidthInRange(st, op);
    hide ReadInt, ReadBytes, ReadString, WriteString, Write, OperandExists, FormatWidth, SignedDecimal, Signed;
    hide Hex, HexText, BcdText, HexToBytes, A2Y, StringToValue, Clamp32;
  }

  lemma DataLenInRange(st: State, operand: Operand)
    requires OperandExists(operand)
    ensures InRange(Pure(st, DataLen(st, operand)))
  {
    AccessIsInRange(st, operand, IntValue(0), 0);
    hide Read;
  }

  lemma BuffersInRange(st: State, op: Op)
    requires OpExists(op)
    ensures InRange(Scmp(st, op)) && InRange(Scat(st, op)) && InRange(Scut(st, op)) && InRange(Slen(st, op))
    ensures InRange(Strcat(st, op)) && InRange(Strcmp(st, op)) && InRange(Strlen(st, op))
  {
    OperandIsInRange(op.arg0);
    OperandIsInRange(op.arg1);
    DataLenInRange(st, op.arg1);
    hide ReadBytes, ReadString, WriteString, Write, ReadValue, UpdateZS, DataLen, OperandExists;
  }

  lemma InsertsInRange(st: State, op: Op)
    requires OpExists(op)
    ensures InRange(Spaste(st, op)) && InRange(Serase(st, op))
  {
    if op.arg0.Indexed? {
      OperandIsInRange(Reg(op.arg0.base));
      if op.arg0.index.RegIndex? {
        OperandIsInRange(Reg(op.arg0.index.reg));
      }
    }
    OperandIsInRange(op.arg1);
    hide ReadBytes, Write, ReadValue, OperandExists, Erase;
  }

  lemma DataInRange(st: State, op: Op)
    requires OpExists(op)
    ensures InRange(DataStep(st, op))
  {
    hide OpExists, A2Fix, Fix2Text, A2YOp, Hex2Y, Y2Text, Scmp;
    hide Scat, Scut, Slen, Strcat, Strcmp, Strlen, Spaste, Serase;
    ConversionsInRange(st, op);
    BuffersInRange(st, op);
    InsertsInRange(st, op);
  }

  lemma CoreInRange(st: State, op: Op)
    requires OpExists(op)
    ensures InRange(CoreStep(st, op))
  {
    hide ReadInt, ReadBytes, ReadValue, Write, UpdateZS, DataStep, LeBytes, TopWord, OpExists, OperandExists;
    hide Move, Swap, Clear, Comp, Subb, Adds, Mult, Divs, BitwiseOp, Not, Shift;
    ExistingArgs(op);
    SumsInRange(st, op);
    ProductsInRange(st, op);
    BitsInRange(st, op);
    MovesInRange(st, op);
    DataInRange(st, op);
    OperandIsInRange(op.arg0);
    OperandIsInRange(op.arg1);
  }

  lemma FloatInRange(st: State, op: Op, fpu: FloatUnit)
    requires OpExists(op)
    ensures InRange(TextToFloat(st, op, fpu)) && InRange(FloatArith(st, op, fpu)) && InRange(FixToFloat(st, op, fpu))
    ensures InRange(FloatToText(st, op, fpu)) && InRange(FloatToFix(st, op, fpu)) && InRange(BytesToFloat(st, op, fpu))
    ensures InRange(FloatComp(st, op, fpu))
  {
    OperandIsInRange(op.arg0);
    OperandIsInRange(op.arg1);
    hide ReadInt, ReadBytes, ReadString, WriteString, Write, ReadFloat, WordOf, Signed, Low32, UpdateZS, OperandExists;
  }

  lemma ArgumentsInRange(st: State, op: Op, env: Env)
    requires OpExists(op)
    ensures InRange(Parl(st, op, env.args)) && InRange(Parr(st, op, env)) && InRange(Pars(st, op, env.args))
    ensures InRange(Pary(st, op, env.args)) && InRange(Parn(st, op, env.args))
  {
    OperandIsInRange(op.arg0);
    OperandIsInRange(op.arg1);
    hide WriteString, Write, ReadValue, OperandExists, Field, LenientFloat, StringToValue, Low32, UpdateZS, ArgStrings;
  }

  lemma CellInRange(cursor: Cursor)
    ensures forall st: State, table: Table, col: nat :: InRange(Pure(st, CellAt(table, col, cursor.row)))
  {
  }

  lemma TableReadsInRange(st: State, op: Op, env: Env, cursor: Cursor)
    requires OpExists(op)
    ensures InRange(Tabget(st, op, env, cursor)) && InRange(TabSize(st, op, env, cursor))
  {
    OperandIsInRange(op.arg0);
    OperandIsInRange(op.arg1);
    CellInRange(cursor);
    hide ReadString, WriteString, Write, OperandExists, NameIndex, CellAt, Low32;
  }

  lemma EnvInRange(st: State, op: Op, env: Env, cursor: Cursor)
    requires OpExists(op)
    ensures InRange(EnvStep(st, op, env, cursor))
  {
    hide OpExists, CoreStep, TextToFloat, FloatArith, FixToFloat, FloatToText, FloatToFix, BytesToFloat, FloatComp;
    hide Parl, Parr, Pars, Pary, Parn, Tabget, TabSize;
    CoreInRange(st, op);
    FloatInRange(st, op, env.fpu);
    ArgumentsInRange(st, op, env);
    TableReadsInRange(st, op, env, cursor);
  }

  lemma ErgInRange(st: State, op: Op)
    requires OpExists(op)
    ensures InRange(Erg(st, op))
  {
    OperandIsInRange(op.arg0);
    OperandIsInRange(op.arg1);
    hide ReadInt, ReadBytes, ReadString, ReadFloat, Signed, OperandExists;
  }

  lemma CursorInRange(st: State, op: Op, env: Env, cursor: Cursor)
    requires OpExists(op)
    ensures IsCursorOp(op.byte) ==> InRange(CursorStep(st, op, env, cursor))
  {
    OperandIsInRange(op.arg0);
    OperandIsInRange(op.arg1);
    hide ReadString, ReadValue, NameIndex, SeekRow, OperandExists, TableNames;
  }

  lemma BranchInRange(st: State, op: Op)
    requires OpExists(op)
    ensures InRange(TrapBranch(st, op)) && forall taken :: InRange(Branch(st, op, taken))
  {
    OperandIsInRange(op.arg1);
    hide ReadValue, OperandExists, Signed;
  }

  lemma ContextInRange(st: State, op: Op, env: Env, ctx: Ctx)
    requires OpExists(op)
    ensures InRange(Dispatch(st, op, env, ctx))
  {
    EnvInRange(st, op, env, ctx.cursor);
    ErgInRange(st, op);
    CursorInRange(st, op, env, ctx.cursor);
    BranchInRange(st, op);
    hide EnvStep, Erg, CursorStep, TrapBranch, Branch, EnewsetSets, BranchTaken;
  }

  /** Folding an increment names no other register, and faults out of range for none. */
  lemma FoldInRange(st: State, op: Op)
    requires OpExists(op)
    ensures InRange(Pure(st, FoldOp(st, op)))
    ensures FoldOp(st, op).Ok? ==> OpExists(FoldOp(st, op).value)
  {
    AccessIsInRange(st, op.arg0, IntValue(0), 0);
    AccessIsInRange(st, op.arg1, IntValue(0), 0);
    hide ResolveIndex, Exists;
  }

  /** A step's fault is never out of range, and an exchange's destination exists. */
  predicate StepInRange(out: Out<(Flow, Ctx)>) {
    && InRange(out)
    && (out.Done? && out.value.0.Exchange? ==> OperandExists(out.value.0.dest))
  }

  lemma FoldKeepsByte(st: State, op: Op)
    ensures FoldOp(st, op).Ok? ==> FoldOp(st, op).value.byte == op.byte
  {
    hide Fold;
  }

  lemma XsendDestination(st: State, op: Op, env: Env, ctx: Ctx)
    requires op.byte == XSEND
    ensures var out := Dispatch(st, op, env, ctx);
            out.Done? && out.value.0.Exchange? ==> out.value.0.dest == op.arg0
  {
    hide ReadBytes;
  }

  lemma StepStaysInRange(st: State, op: Op, env: Env, ctx: Ctx)
    requires OpExists(op)
    ensures StepInRange(Step(st, op, env, ctx))
  {
    hide Dispatch, FoldOp, OpExists, OperandExists;
    var st0 := st.(pc := op.offset + op.len);
    FoldInRange(st0, op);
    if FoldOp(st0, op).Ok? {
      var op' := FoldOp(st0, op).value;
      ContextInRange(st0, op', env, ctx);
      FoldKeepsByte(st0, op);
      ExistingArgs(op');
      if op.byte == XSEND {
        XsendDestination(st0, op', env, ctx);
      } else if Step(st, op, env, ctx).Done? {
        StepControl(st, op, env, ctx);
      }
    }
  }

  // ---- every run ----

  ghost predicate StaysInRange(job: Job) {
    && (forall i :: 0 <= i < |job.ops| ==> OpExists(job.ops[i]))
    && forall st: State, op: Op, ctx: Ctx :: OpExists(op) ==> StepInRange(job.step(st, op, ctx))
  }

  lemma DeliveryInRange(dest: Operand)
    requires OperandExists(dest)
    ensures forall st: State, v: Value :: Sane(Write(st, dest, v))
  {
    forall st: State, v: Value
      ensures Sane(Write(st, dest, v))
    {
      AccessIsInRange(st, dest, v, 0);
    }
  }

  lemma {:induction false} RunStaysInRange(job: Job, run: Run, fuel: nat, bound: nat)
    requires StaysInRange(job)
    ensures var end := RunFrom(job, run, fuel, bound);
            end.result.Err? && end.result.error.Exec? ==> !IsRangeFault(end.result.error.exec)
    decreases fuel
  {
    hide OpExists, OperandExists, Masked, Write;
    if fuel > 0 && run.st.pc in IndexMap(job.ops) {
      var i := IndexMap(job.ops)[run.st.pc];
      var out := job.step(run.st, job.ops[i], run.ctx);
      assert StepInRange(out);
      if out.Done? && out.value.0.Exchange? {
        DeliveryInRange(out.value.0.dest);
      }
      var turn := TakeTurn(job, run);
      if turn.Goes? {
        RunStaysInRange(job, turn.run, fuel - 1, bound);
      }
    }
  }

  /** For every job, tables, arguments, float unit and exchange: no run ends out of range. */
  lemma NoRunIsOutOfRange(ecu: Ecu, name: Text, target: byte, args: seq<byte>, fpu: FloatUnit,
                          exchange: Exchange.UdsExchange)
    ensures var result := RunJob(ecu, name, target, args, fpu, exchange).result;
            result.Err? && result.error.Exec? ==> !IsRangeFault(result.error.exec)
  {
    hide RunFrom, Step, Decode.DecodeJob, OpExists;
    if name in ecu.jobs && Decode.DecodeJob(ecu.jobs[name]).Ok? {
      var ops := Decode.DecodeJob(ecu.jobs[name]).value;
      var env := Env(args, ecu.tables, fpu);
      var job := LoadedJob(ops, env, target, exchange);
      Assemble.DecodeJobSucceeds(ecu.jobs[name], ops);
      forall i | 0 <= i < |ops|
        ensures OpExists(ops[i])
      {
        TiledExists(ops, 0, i);
      }
      forall st: State, op: Op, ctx: Ctx | OpExists(op)
        ensures StepInRange(job.step(st, op, ctx))
      {
        StepStaysInRange(st, op, env, ctx);
      }
      RunStaysInRange(job, START, MAX_INSTRUCTIONS, MAX_INSTRUCTIONS);
    }
  }
}
