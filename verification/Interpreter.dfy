/** `step` and the job's context as they run: dispatch, table cursor and results in place. */
module Interpreter {
  import opened Wrappers
  import opened Words
  import opened Bytecode
  import opened MachineState
  import opened Machine
  import opened Alu
  import opened ResultSets
  import opened ExecBase
  import opened ExecMachine
  import opened ExecDataMachine
  import Executor

  /** A job's results and table cursor, beside the environment it never changes. */
  class ExecCtx {
    const env: Env
    const results: ResultSet
    var currentTable: Option<nat>
    var currentRow: Option<nat>

    ghost function Model(): Ctx
      reads this, results
    {
      Ctx(results.sets, Cursor(currentTable, currentRow))
    }

    constructor (env: Env)
      ensures this.env == env && fresh(results) && Model() == Ctx([[]], Cursor(None, None))
    {
      this.env := env;
      results := new ResultSet();
      currentTable, currentRow := None, None;
    }
  }

  /** The specified step came about in the machine and in the context. */
  ghost predicate Steps(m: Machine, ctx: ExecCtx, spec: Out<(Flow, Ctx)>, r: Result<Flow, ExecError>)
    requires m.Valid()
    reads m.Repr(), ctx, ctx.results
  {
    match spec
    case Done(st, (flow, c)) => r == Ok(flow) && m.Model() == st && ctx.Model() == c
    case Failed(e) => r == Err(e)
  }

  // ---- results ----

  method FetchResult(m: Machine, op: Op) returns (r: Result<ResultData, ExecError>)
    requires m.Valid()
    modifies m.Repr()
    ensures m.Does(ExecContext.ResultOf(old(m.Model()), op), r)
  {
    match op.byte {
      case 0x34 =>
        var v :- FetchInt(m, op.arg1, 1);
        return Ok(ByteResult(v % 0x100));
      case 0x35 =>
        var v :- FetchInt(m, op.arg1, 2);
        return Ok(WordResult(v % 0x1_0000));
      case 0x36 =>
        var v :- FetchInt(m, op.arg1, 4);
        return Ok(DwordResult(v));
      case 0x37 =>
        var v :- FetchInt(m, op.arg1, 2);
        return Ok(IntResult(Signed(v, 2)));
      case 0x38 =>
        var f :- FetchFloat(m, op.arg1);
        return Ok(RealResult(f));
      case 0x39 =>
        var text :- FetchString(m, op.arg1);
        return Ok(TextResult(text));
      case 0x3F =>
        var bytes :- FetchBytes(m, op.arg1);
        return Ok(BinaryResult(bytes));
      case 0x81 =>
        var v :- FetchInt(m, op.arg1, 1);
        return Ok(IntResult(Signed(v, 1)));
      case _ =>
        var v :- FetchInt(m, op.arg1, 4);
        return Ok(IntResult(Signed(v, 4)));
    }
  }

  method OpErg(m: Machine, op: Op, ctx: ExecCtx) returns (r: Result<Flow, ExecError>)
    requires m.Valid() && ExecContext.IsErg(op.byte)
    modifies m.Repr(), ctx.results
    ensures Steps(m, ctx, Executor.Dispatch(old(m.Model()), op, ctx.env, old(ctx.Model())), r)
  {
    hide ExecContext.ResultOf, ExecBase.ReadString;
    var name :- FetchString(m, op.arg0);
    var value :- FetchResult(m, op);
    ctx.results.Push(name, value);
    return Ok(Next);
  }

  method OpEnewset(ctx: ExecCtx)
    modifies ctx.results
    ensures ctx.results.sets == ExecContext.EnewsetSets(old(ctx.results.sets))
  {
    if Current(ctx.results.sets) != [] {
      ctx.results.StartSet();
    }
  }

  // ---- tables ----

  /** A cursor selection came about; results are not its business. */
  ghost predicate Selects(m: Machine, ctx: ExecCtx, spec: Out<Cursor>, r: Result<Flow, ExecError>)
    requires m.Valid()
    reads m.Repr(), ctx
  {
    match spec
    case Done(st, c) => r == Ok(Next) && m.Model() == st && Cursor(ctx.currentTable, ctx.currentRow) == c
    case Failed(e) => r == Err(e)
  }

  ghost function CursorOf(ctx: ExecCtx): Cursor
    reads ctx
  {
    Cursor(ctx.currentTable, ctx.currentRow)
  }

  method SelectedTable(ctx: ExecCtx) returns (r: Result<Table, ExecError>)
    ensures r == ExecContext.SelectedTable(ctx.env, CursorOf(ctx))
  {
    match ctx.currentTable {
      case Some(i) =>
        if i < |ctx.env.tables| {
          return Ok(ctx.env.tables[i]);
        }
      case None =>
    }
    return Err(TableNotSelected);
  }

  method OpTabset(m: Machine, op: Op, ctx: ExecCtx) returns (r: Result<Flow, ExecError>)
    requires m.Valid()
    modifies m.Repr(), ctx
    ensures Selects(m, ctx, ExecContext.Tabset(old(m.Model()), op, ctx.env, old(CursorOf(ctx))), r)
  {
    hide ExecContext.NameIndex;
    var name :- FetchString(m, op.arg0);
    match ExecContext.NameIndex(ExecContext.TableNames(ctx.env.tables), name, 0) {
      case None => return Err(TableNotFound(name));
      case Some(i) =>
        if ctx.currentTable != Some(i) {
          ctx.currentRow := None;
        }
        ctx.currentTable := Some(i);
        return Ok(Next);
    }
  }

  /** The shared tail of the seeks and of `tabline`. */
  method SeekResult(m: Machine, ctx: ExecCtx, rows: nat, hit: Option<nat>) returns (r: Result<Flow, ExecError>)
    requires m.Valid()
    modifies m.Repr(), ctx
    ensures Selects(m, ctx, ExecContext.SelectRow(old(m.Model()), old(CursorOf(ctx)), rows, hit), r)
  {
    match hit {
      case Some(row) =>
        ctx.currentRow := Some(row);
        m.flags := m.flags.(z := false);
      case None =>
        if rows == 0 {
          return Err(TableRow);
        }
        ctx.currentRow := Some(rows - 1);
        m.flags := m.flags.(z := true);
    }
    return Ok(Next);
  }

  method FetchKey(m: Machine, op: Op) returns (r: Result<ExecContext.Key, ExecError>)
    requires m.Valid()
    modifies m.Repr()
    ensures m.Does(ExecContext.SeekKey(old(m.Model()), op), r)
  {
    if op.byte == 0x7C {
      var text :- FetchString(m, op.arg1);
      return Ok(ExecContext.TextKey(text));
    }
    var v :- FetchValue(m, op.arg1);
    return Ok(ExecContext.NumberKey(v));
  }

  method OpTabseek(m: Machine, op: Op, ctx: ExecCtx) returns (r: Result<Flow, ExecError>)
    requires m.Valid()
    modifies m.Repr(), ctx
    ensures Selects(m, ctx, ExecContext.Tabseek(old(m.Model()), op, ctx.env, old(CursorOf(ctx))), r)
  {
    hide ExecContext.SeekKey, ExecContext.SeekRow, ExecContext.ColumnOf, ExecContext.SelectRow;
    var table :- SelectedTable(ctx);
    var column :- FetchString(m, op.arg0);
    var key :- FetchKey(m, op);
    var col :- ExecContext.ColumnOf(table, column);
    r := SeekResult(m, ctx, |table.rows|, ExecContext.SeekRow(table.rows, col, key, 0));
  }

  method OpTabline(m: Machine, op: Op, ctx: ExecCtx) returns (r: Result<Flow, ExecError>)
    requires m.Valid()
    modifies m.Repr(), ctx
    ensures Selects(m, ctx, ExecContext.Tabline(old(m.Model()), op, ctx.env, old(CursorOf(ctx))), r)
  {
    hide ExecContext.SelectRow;
    var table :- SelectedTable(ctx);
    var line :- FetchValue(m, op.arg0);
    r := SeekResult(m, ctx, |table.rows|, if line < |table.rows| then Some(line) else None);
  }

  method OpTabget(m: Machine, op: Op, ctx: ExecCtx) returns (r: Result<Flow, ExecError>)
    requires m.Valid()
    modifies m.Repr()
    ensures m.Does(ExecContext.Tabget(old(m.Model()), op, ctx.env, old(CursorOf(ctx))), r)
  {
    hide ExecContext.ColumnOf;
    var table :- SelectedTable(ctx);
    var column :- FetchString(m, op.arg1);
    var col :- ExecContext.ColumnOf(table, column);
    var entry := [];
    match ctx.currentRow {
      case None =>
      case Some(row) =>
        if row >= |table.rows| || col >= |table.rows[row]| {
          return Err(TableRow);
        }
        entry := table.rows[row][col];
    }
    var _ :- PutString(m, op.arg0, entry);
    return Ok(Next);
  }

  method OpTabSize(m: Machine, op: Op, ctx: ExecCtx) returns (r: Result<Flow, ExecError>)
    requires m.Valid()
    modifies m.Repr()
    ensures m.Does(ExecContext.TabSize(old(m.Model()), op, ctx.env, old(CursorOf(ctx))), r)
  {
    var n := 0;
    var table := SelectedTable(ctx);
    if table.Ok? {
      n := if op.byte == 0xB6 then |table.value.columns| else |table.value.rows| + 1;
    }
    var _ :- Put(m, op.arg0, IntValue(Low32(n)));
    return Ok(Next);
  }

  // ---- dispatch ----

  method DataStep(m: Machine, op: Op) returns (r: Result<Flow, ExecError>)
    requires m.Valid()
    modifies m.Repr()
    ensures m.Does(Executor.DataStep(old(m.Model()), op), r)
  {
    match op.byte {
      case 0x20 => r := OpScmp(m, op);
      case 0x21 => r := OpScat(m, op);
      case 0x22 => r := OpScut(m, op);
      case 0x23 => r := OpSlen(m, op);
      case 0x24 => r := OpSpaste(m, op);
      case 0x25 => r := OpSerase(m, op);
      case 0x67 => r := OpA2fix(m, op);
      case 0x79 | 0x7A => r := OpFix2(m, op);
      case 0x7E => r := OpStrcat(m, op);
      case 0x8C => r := OpA2y(m, op);
      case 0x8E => r := OpHex2y(m, op);
      case 0x8F => r := OpStrcmp(m, op);
      case 0x90 => r := OpStrlen(m, op);
      case 0x91 | 0x92 => r := OpYToText(m, op);
      case b => return Err(ExecError.Unimplemented(b));
    }
  }

  method CoreStep(m: Machine, op: Op) returns (r: Result<Flow, ExecError>)
    requires m.Valid()
    modifies m.Repr()
    ensures m.Does(Executor.CoreStep(old(m.Model()), op), r)
  {
    match op.byte {
      case 0x00 => r := OpMove(m, op);
      case 0x01 => r := OpClear(m, op);
      case 0x02 => r := OpComp(m, op);
      case 0x03 => r := OpSubb(m, op);
      case 0x04 => r := OpAdds(m, op);
      case 0x05 => r := OpMult(m, op);
      case 0x06 => r := OpDivs(m, op);
      case 0x07 | 0x08 | 0x09 => r := OpBitwise(m, op);
      case 0x0A => r := OpNot(m, op);
      case 0x16 =>
        m.flags := m.flags.(c := false);
        return Ok(Next);
      case 0x17 =>
        m.flags := m.flags.(c := true);
        return Ok(Next);
      case 0x18 | 0x19 | 0x1A | 0x1B => r := OpShift(m, op);
      case 0x1C => return Ok(Next);
      case 0x1D => return Ok(EndOfJob);
      case 0x1E => r := OpPush(m, op);
      case 0x1F => r := OpPop(m, op);
      case 0x2A => r := OpXsend(m, op);
      case 0x43 => r := OpGettmr(m, op);
      case 0x44 => r := OpSettmr(m, op);
      case 0x46 =>
        m.trapBit := None;
        return Ok(Next);
      case 0x4B => return Err(Break);
      case 0x50 => r := OpAtsp(m, op);
      case 0x51 => r := OpSwap(m, op);
      case 0x6B => r := OpWait(m, op);
      case _ => r := DataStep(m, op);
    }
  }

  method EnvStep(m: Machine, op: Op, ctx: ExecCtx) returns (r: Result<Flow, ExecError>)
    requires m.Valid()
    modifies m.Repr()
    ensures m.Does(Executor.EnvStep(old(m.Model()), op, ctx.env, old(CursorOf(ctx))), r)
  {
    var env := ctx.env;
    match op.byte {
      case 0x3A => r := OpA2flt(m, op, env.fpu);
      case 0x3B | 0x3C | 0x3D | 0x3E => r := OpFloatArith(m, op, env.fpu);
      case 0x55 | 0x56 | 0x57 => r := OpParl(m, op, env.args);
      case 0x58 => r := OpPars(m, op, env.args);
      case 0x68 => r := OpFix2flt(m, op, env.fpu);
      case 0x69 => r := OpParr(m, op, env);
      case 0x7D => r := OpTabget(m, op, ctx);
      case 0x7F => r := OpPary(m, op, env.args);
      case 0x80 => r := OpParn(m, op, env.args);
      case 0x87 => r := OpFlt2a(m, op, env.fpu);
      case 0x96 => r := OpFlt2fix(m, op, env.fpu);
      case 0x9D | 0x9E => r := OpYToFlt(m, op, env.fpu);
      case 0xA1 => r := OpFcomp(m, op, env.fpu);
      case 0xB6 | 0xB7 => r := OpTabSize(m, op, ctx);
      case _ => r := CoreStep(m, op);
    }
  }

  method CursorStep(m: Machine, op: Op, ctx: ExecCtx) returns (r: Result<Flow, ExecError>)
    requires m.Valid() && Executor.IsCursorOp(op.byte)
    modifies m.Repr(), ctx
    ensures Selects(m, ctx, Executor.CursorStep(old(m.Model()), op, ctx.env, old(CursorOf(ctx))), r)
  {
    match op.byte {
      case 0x7B => r := OpTabset(m, op, ctx);
      case 0x83 => r := OpTabline(m, op, ctx);
      case _ => r := OpTabseek(m, op, ctx);
    }
  }

  method Dispatch(m: Machine, op: Op, ctx: ExecCtx) returns (r: Result<Flow, ExecError>)
    requires m.Valid()
    modifies m.Repr(), ctx, ctx.results
    ensures Steps(m, ctx, Executor.Dispatch(old(m.Model()), op, ctx.env, old(ctx.Model())), r)
  {
    hide Executor.EnvStep, Executor.CursorStep, ExecContext.Erg, BranchTaken;
    if ExecContext.IsErg(op.byte) {
      r := OpErg(m, op, ctx);
    } else if op.byte == Executor.ENEWSET {
      OpEnewset(ctx);
      return Ok(Next);
    } else if op.byte == Executor.ETAG {
      return Ok(Next);
    } else if Executor.IsCursorOp(op.byte) {
      r := CursorStep(m, op, ctx);
    } else if IsFlagBranch(op.byte) {
      r := Branch(m, op, BranchTaken(op.byte, m.flags));
    } else if op.byte == 0x47 || op.byte == 0x48 {
      r := OpTrapBranch(m, op);
    } else {
      r := EnvStep(m, op, ctx);
    }
  }

  method FoldIncrement(m: Machine, mode: AddrMode, operand: Operand) returns (r: Result<Operand, ExecError>)
    requires m.Valid()
    ensures r == Executor.Fold(m.Model(), mode, operand)
  {
    if !mode.IdxRegImm? || !operand.Indexed? || operand.len.None? {
      return Ok(operand);
    }
    var index := m.ResolveIndex(operand.index);
    if index.Err? {
      return Err(ExecError.Machine(index.error));
    }
    var increment := m.ResolveIndex(operand.len.value);
    if increment.Err? {
      return Err(ExecError.Machine(increment.error));
    }
    return Ok(Indexed(operand.base, ImmIndex(index.value + increment.value), None));
  }

  method Step(m: Machine, op: Op, ctx: ExecCtx) returns (r: Result<Flow, ExecError>)
    requires m.Valid()
    modifies m.Repr(), ctx, ctx.results
    ensures Steps(m, ctx, Executor.Step(old(m.Model()), op, ctx.env, old(ctx.Model())), r)
  {
    hide Executor.Dispatch, Executor.Fold;
    m.pc := op.offset + op.len;
    var arg0 :- FoldIncrement(m, Mode0(op), op.arg0);
    var arg1 :- FoldIncrement(m, Mode1(op), op.arg1);
    r := Dispatch(m, op.(arg0 := arg0, arg1 := arg1), ctx);
  }
}
