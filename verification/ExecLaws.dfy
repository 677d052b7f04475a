/** What one executed instruction can and cannot do to the machine and the job's context. */
module ExecLaws {
  import opened Wrappers
  import opened Words
  import opened Bytecode
  import opened MachineState
  import opened Text
  import opened Alu
  import opened ResultSets
  import opened ExecBase
  import opened ExecCore
  import opened ExecData
  import opened ExecContext
  import opened Executor

  const PUSH: byte := 0x1E
  const POP: byte := 0x1F
  const XSEND: byte := 0x2A
  const SETTMR: byte := 0x44
  const WAIT: byte := 0x6B

  // ---- control flow ----

  /**
   An instruction that does not branch: the counter stands where `step` advanced it, only
   push and pop touch the stack, only settmr the trap mask, and only eoj, xsend and wait
   yield anything but Next.
  */
  predicate Ordinary(b: byte, st: State, st': State, flow: Flow) {
    && st'.pc == st.pc
    && (st'.stack == st.stack || b == PUSH || b == POP)
    && (st'.trapMask == st.trapMask || b == SETTMR)
    && !flow.Jumped?
    && (flow.EndOfJob? <==> b == EOJ)
    && (flow.Exchange? <==> b == XSEND)
    && (flow.Wait? <==> b == WAIT)
  }

  predicate IsOrdinary(b: byte, st: State, out: Out<Flow>) {
    out.Done? ==> Ordinary(b, st, out.st, out.value)
  }

  lemma DataIsOrdinary(st: State, op: Op)
    requires op.byte !in {0x1D, 0x1E, 0x1F, 0x2A, 0x44, 0x6B}
    ensures IsOrdinary(op.byte, st, DataStep(st, op))
  {
    hide ReadInt, ReadBytes, ReadString, WriteString, Write, ReadSource, ReadValue, UpdateZS, Signed;
    hide FormatWidth, SignedDecimal, Hex, HexText, BcdText, HexToBytes;
    hide A2Y, StringToValue, Clamp32, DataLen, BaseAndStart, Erase;
  }

  lemma MoveIsOrdinary(st: State, op: Op)
    ensures IsOrdinary(0x00, st, Move(st, op)) && IsOrdinary(0x01, st, Clear(st, op))
    ensures IsOrdinary(0x51, st, Swap(st, op))
  {
    hide ReadInt, ReadBytes, ReadSource, Write, WriteIndexedDest, SwapBuffer, ResolveIndex, UpdateZS;
  }

  lemma AluIsOrdinary(st: State, op: Op)
    requires 0x02 <= op.byte <= 0x0A || 0x18 <= op.byte <= 0x1B
    ensures IsOrdinary(op.byte, st, CoreStep(st, op))
  {
    hide ReadInt, Write, WriteIndexedDest, UpdateZS;
    hide SubFlags, AddFlags, Product, ProductHigh, TruncDiv, TruncRem;
    hide Signed, ShiftBy, Bitwise, BitNot, DivFaults, Low32;
  }

  lemma CoreIsOrdinary(st: State, op: Op)
    ensures IsOrdinary(op.byte, st, CoreStep(st, op))
  {
    hide ReadInt, ReadBytes, ReadValue, Write, UpdateZS, DataStep, LeBytes, TopWord;
    hide Move, Swap, Clear, Comp, Subb, Adds, Mult, Divs, BitwiseOp, Not, Shift;
    if 0x02 <= op.byte <= 0x0A || 0x18 <= op.byte <= 0x1B {
      AluIsOrdinary(st, op);
    } else if op.byte in {0x00, 0x01, 0x51} {
      MoveIsOrdinary(st, op);
    } else if op.byte !in {0x1D, 0x1E, 0x1F, 0x2A, 0x44, 0x6B} {
      DataIsOrdinary(st, op);
    }
  }

  lemma FloatIsOrdinary(st: State, op: Op, fpu: FloatUnit)
    ensures IsOrdinary(0x3A, st, TextToFloat(st, op, fpu)) && IsOrdinary(0x3B, st, FloatArith(st, op, fpu))
    ensures IsOrdinary(0x68, st, FixToFloat(st, op, fpu)) && IsOrdinary(0x87, st, FloatToText(st, op, fpu))
    ensures IsOrdinary(0x96, st, FloatToFix(st, op, fpu)) && IsOrdinary(0x9D, st, BytesToFloat(st, op, fpu))
    ensures IsOrdinary(0xA1, st, FloatComp(st, op, fpu))
  {
    hide ReadInt, ReadBytes, ReadString, WriteString, Write, ReadFloat, WordOf, Signed, Low32, UpdateZS;
  }

  lemma EnvIsOrdinary(st: State, op: Op, env: Env, cursor: Cursor)
    ensures IsOrdinary(op.byte, st, EnvStep(st, op, env, cursor))
  {
    hide ReadInt, ReadBytes, ReadString, WriteString, Write, ReadSource, ReadValue, ReadFloat, CoreStep;
    hide Field, LenientFloat, SelectedTable, ColumnOf, CellAt;
    hide WordOf, Signed, StringToValue, Low32, UpdateZS, ArgStrings;
    hide TextToFloat, FloatArith, FixToFloat, FloatToText, FloatToFix, BytesToFloat, FloatComp;
    FloatIsOrdinary(st, op, env.fpu);
    CoreIsOrdinary(st, op);
  }

  predicate IsBranch(b: byte) {
    IsFlagBranch(b) || b == 0x47 || b == 0x48
  }

  /** Where a taken branch goes: its signed displacement from the following instruction. */
  function BranchTarget(op: Op): nat
    requires op.arg0.Imm?
  {
    (op.offset + op.len + Signed(op.arg0.v, 4)) % TWO_64
  }

  lemma ErgKeepsPc(st: State, op: Op)
    requires Erg(st, op).Done?
    ensures Erg(st, op).st.pc == st.pc
  {
  }

  lemma CursorKeepsPc(st: State, op: Op, env: Env, cursor: Cursor)
    requires IsCursorOp(op.byte) && CursorStep(st, op, env, cursor).Done?
    ensures CursorStep(st, op, env, cursor).st.pc == st.pc
  {
    hide ReadString, ReadValue, SelectedTable, ColumnOf, SeekRow, NameIndex, TableNames;
  }

  /**
   The counter after any instruction: a taken branch's target, or else the byte just past
   the instruction; and which opcodes yield which flow.
  */
  lemma StepControl(st: State, op: Op, env: Env, ctx: Ctx)
    requires Step(st, op, env, ctx).Done?
    ensures var out := Step(st, op, env, ctx);
            var flow := out.value.0;
            && (if flow.Jumped? then IsBranch(op.byte) && op.arg0.Imm? && out.st.pc == BranchTarget(op)
                else out.st.pc == op.offset + op.len)
            && (flow.EndOfJob? <==> op.byte == EOJ)
            && (flow.Exchange? <==> op.byte == XSEND)
  {
    hide EnvStep, Erg, CursorStep, ReadValue, BranchTaken, EnewsetSets, Read, Signed, ResolveIndex;
    var st0 := st.(pc := op.offset + op.len);
    var op' := FoldOp(st0, op).value;
    EnvIsOrdinary(st0, op', env, ctx.cursor);
    if IsErg(op.byte) {
      ErgKeepsPc(st0, op');
    } else if IsCursorOp(op.byte) {
      CursorKeepsPc(st0, op', env, ctx.cursor);
    }
  }

  lemma ImmediateFolds(st: State, mode: AddrMode, operand: Operand)
    requires !operand.Indexed?
    ensures Fold(st, mode, operand) == Ok(operand)
  {
  }

  /** `wait` surfaces the seconds its operand reads and leaves everything but the counter as it was. */
  lemma WaitOnlyWaits(st: State, op: Op, f: Op, env: Env, ctx: Ctx, seconds: u32)
    requires op.byte == 0x6B && FoldOp(st.(pc := op.offset + op.len), op) == Ok(f)
    requires ReadValue(st.(pc := op.offset + op.len), f.arg0) == Ok(seconds)
    ensures Step(st, op, env, ctx) == Done(st.(pc := op.offset + op.len), (Wait(seconds), ctx))
  {
    hide Fold, ReadValue;
  }

  // ---- the indexed operand with an increment ----

  /**
   A register-plus-increment operand reads the buffer from register + increment to its end:
   the byte at register + increment + k, for every k there is one; or a bounds fault when
   that start is at the buffer limit.
  */
  lemma FoldedReadsToEnd(st: State, base: RegId, index: RegId, increment: nat)
    requires base.bank.S? && Exists(base) && IsInteger(index.bank) && Exists(index)
    ensures var folded := Fold(st, IdxRegImm, Indexed(base, RegIndex(index), Some(ImmIndex(increment))));
            var data := st.s[base.idx];
            var at := ResolveIndex(st, RegIndex(index)).value + increment;
            && folded.Ok?
            && (if at >= 1023 then Read(st, folded.value) == Err(IndexOutOfBounds(at, 0))
                else
                  && Read(st, folded.value).Ok? && Read(st, folded.value).value.BytesValue?
                  && var b := Read(st, folded.value).value.b;
                     |b| == (if at < |data| then |data| - at else 0) &&
                     forall k :: 0 <= k < |b| ==> b[k] == data[at + k])
  {
  }

  // ---- tables ----

  /** The scan is exact: the first equal name at or after `from`, or none. */
  lemma {:induction false} NameIndexIsFirst(names: seq<Text>, name: Text, from: nat)
    requires from <= |names|
    ensures match NameIndex(names, name, from)
            case Some(i) =>
              && from <= i < |names| && EqIgnoreAsciiCase(names[i], name)
              && forall j :: from <= j < i ==> !EqIgnoreAsciiCase(names[j], name)
            case None => forall j :: from <= j < |names| ==> !EqIgnoreAsciiCase(names[j], name)
    decreases |names| - from
  {
    hide EqIgnoreAsciiCase;
    if from < |names| && !EqIgnoreAsciiCase(names[from], name) {
      NameIndexIsFirst(names, name, from + 1);
    }
  }

  lemma {:induction false} SeekRowIsFirst(rows: seq<seq<Text>>, col: nat, key: Key, from: nat)
    requires from <= |rows|
    ensures match SeekRow(rows, col, key, from)
            case Some(r) =>
              && from <= r < |rows| && CellMatches(rows[r], col, key)
              && forall j :: from <= j < r ==> !CellMatches(rows[j], col, key)
            case None => forall j :: from <= j < |rows| ==> !CellMatches(rows[j], col, key)
    decreases |rows| - from
  {
    hide CellMatches;
    if from < |rows| && !CellMatches(rows[from], col, key) {
      SeekRowIsFirst(rows, col, key, from + 1);
    }
  }

  /** A selected row has a selected table with that row in it. */
  predicate CursorOk(env: Env, cursor: Cursor) {
    && (cursor.table.Some? ==> cursor.table.value < |env.tables|)
    && (cursor.row.Some? ==> cursor.table.Some? && cursor.row.value < |env.tables[cursor.table.value].rows|)
  }

  /**
   A seek lands on the first matching row with Zero clear; without one it lands on the
   last row with Zero set, and fails exactly when there is no row at all.
  */
  lemma SeekSettles(st: State, cursor: Cursor, rows: seq<seq<Text>>, col: nat, key: Key)
    ensures var out := SelectRow(st, cursor, |rows|, SeekRow(rows, col, key, 0));
            && (out.Failed? <==> rows == [])
            && (out.Failed? ==> out.error == TableRow)
            && (out.Done? ==>
                  && out.value.table == cursor.table && out.value.row.Some? && out.value.row.value < |rows|
                  && var r := out.value.row.value;
                     && (out.st.flags.z <==> forall j :: 0 <= j < |rows| ==> !CellMatches(rows[j], col, key))
                     && (if out.st.flags.z then r == |rows| - 1
                         else
                           && CellMatches(rows[r], col, key)
                           && forall j :: 0 <= j < r ==> !CellMatches(rows[j], col, key)))
  {
    hide CellMatches;
    SeekRowIsFirst(rows, col, key, 0);
  }

  lemma CursorStaysOk(st: State, op: Op, env: Env, cursor: Cursor)
    requires IsCursorOp(op.byte) && CursorOk(env, cursor) && CursorStep(st, op, env, cursor).Done?
    ensures CursorOk(env, CursorStep(st, op, env, cursor).value)
  {
    hide ReadString, ReadValue, ColumnOf, SeekKey, EqIgnoreAsciiCase, CellMatches, SeekRow, NameIndex;
    match op.byte
    case 0x7B =>
      var name := ReadString(st, op.arg0).value;
      NameIndexIsFirst(TableNames(env.tables), name, 0);
    case 0x83 =>
    case _ =>
      var table := SelectedTable(env, cursor).value;
      var col := ReadString(st, op.arg0);
      var key := SeekKey(col.st, op).value;
      SeekRowIsFirst(table.rows, ColumnOf(table, col.value).value, key, 0);
  }

  lemma ReadStringFault(st: State, operand: Operand)
    ensures ReadString(st, operand) != Failed(TableRow)
  {
  }

  lemma WriteStringFault(st: State, operand: Operand, text: Text)
    ensures WriteString(st, operand, text) != Failed(TableRow)
  {
  }

  /** With the cursor in order, `tabget` reports a bad row only for a ragged row, one shorter than the header. */
  lemma RowFaultIsRagged(st: State, op: Op, env: Env, cursor: Cursor)
    requires CursorOk(env, cursor) && Tabget(st, op, env, cursor) == Failed(TableRow)
    ensures cursor.row.Some?
    ensures var table := env.tables[cursor.table.value];
            |table.rows[cursor.row.value]| < |table.columns|
  {
    hide ReadString, WriteString, EqIgnoreAsciiCase, NameIndex;
    ReadStringFault(st, op.arg1);
    var table := SelectedTable(env, cursor).value;
    var column := ReadString(st, op.arg1);
    NameIndexIsFirst(table.columns, column.value, 0);
    var col := ColumnOf(table, column.value).value;
    var cell := CellAt(table, col, cursor.row);
    if cell.Ok? {
      WriteStringFault(column.st, op.arg0, cell.value);
    }
  }

  // ---- results ----

  /**
   What one instruction does to the job's context: the cursor stays in order, committed
   result sets stay non-empty, and an erg opcode appends exactly its one entry to the whole
   result order, which nothing else changes.
  */
  lemma StepContext(st: State, op: Op, env: Env, ctx: Ctx)
    requires Step(st, op, env, ctx).Done?
    ensures var ctx' := Step(st, op, env, ctx).value.1;
            && (CursorOk(env, ctx.cursor) ==> CursorOk(env, ctx'.cursor))
            && (CommittedNonEmpty(ctx.sets) ==> CommittedNonEmpty(ctx'.sets))
            && Flatten(ctx'.sets) == Flatten(ctx.sets) + Emits(st, op)
            && |Emits(st, op)| == if IsErg(op.byte) then 1 else 0
  {
    hide EnvStep, Erg, CursorStep, TrapBranch, Branch, Fold, CommittedNonEmpty, Flatten, CursorOk, PushNamed, NewSet;
    var st0 := st.(pc := op.offset + op.len);
    var op' := FoldOp(st0, op).value;
    if IsErg(op.byte) {
      var entry := Erg(st0, op').value;
      PushAppends(ctx.sets, entry.0, entry.1);
    } else if op.byte == ENEWSET {
      NewSetKeepsOrder(ctx.sets);
    } else if IsCursorOp(op.byte) {
      if CursorOk(env, ctx.cursor) {
        CursorStaysOk(st0, op', env, ctx.cursor);
      }
    }
  }
}
