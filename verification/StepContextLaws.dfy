/** The table and result opcodes through `step`, opcode byte by opcode byte. */
module StepContextLaws {
  import opened Wrappers
  import opened Words
  import opened Bytecode
  import opened MachineState
  import opened MachineLaws
  import opened Text
  import opened Alu
  import opened AluLaws
  import opened ResultSets
  import opened ExecBase
  import opened ExecContext
  import opened Executor
  import opened ExecLaws
  import opened OpcodeLaws
  import opened TextOpcodeLaws
  import opened ContextLaws
  import opened StepLaws

  // ---- names ----

  /** Two characters that are the same, or one ASCII letter in its two cases. */
  predicate SameLetter(x: char, y: char) {
    || x == y
    || ('A' <= x <= 'Z' && y as int == x as int + 32)
    || ('A' <= y <= 'Z' && x as int == y as int + 32)
  }

  predicate SameName(a: Text, b: Text) {
    |a| == |b| && forall i :: 0 <= i < |a| ==> SameLetter(a[i], b[i])
  }

  lemma LettersFold(x: char, y: char)
    ensures LowerChar(x) == LowerChar(y) <==> SameLetter(x, y)
  {
  }

  /** Names are compared up to ASCII case and nothing else. */
  lemma NamesFold(a: Text, b: Text)
    ensures EqIgnoreAsciiCase(a, b) <==> SameName(a, b)
  {
    hide LowerChar, SameLetter;
    if |a| == |b| {
      forall i | 0 <= i < |a|
        ensures LowerChar(a[i]) == LowerChar(b[i]) <==> SameLetter(a[i], b[i])
      {
        LettersFold(a[i], b[i]);
      }
    }
  }

  /** `i` is the first of `names` that is `name`. */
  predicate IsFirst(names: seq<Text>, name: Text, i: nat) {
    i < |names| && SameName(names[i], name) && forall j :: 0 <= j < i ==> !SameName(names[j], name)
  }

  predicate Missing(names: seq<Text>, name: Text) {
    forall i :: 0 <= i < |names| ==> !SameName(names[i], name)
  }

  lemma NamesResolve(names: seq<Text>, name: Text, i: nat)
    ensures NameIndex(names, name, 0) == Some(i) <==> IsFirst(names, name, i)
    ensures NameIndex(names, name, 0) == None <==> Missing(names, name)
  {
    hide EqIgnoreAsciiCase, SameName;
    NameIndexIsFirst(names, name, 0);
    forall k | 0 <= k < |names|
      ensures EqIgnoreAsciiCase(names[k], name) <==> SameName(names[k], name)
    {
      NamesFold(names[k], name);
    }
  }

  // ---- the cursor ----

  lemma CursorIs(st: State, op: Op, f: Op, env: Env, ctx: Ctx)
    requires Seen(st, op, f) && op.byte in {0x7B, 0x7C, 0x83, 0x9A}
    ensures f.byte == op.byte
    ensures var (out, st0) := (Step(st, op, env, ctx), Past(st, op));
            var moved := if op.byte == 0x7B then Tabset(st0, f, env, ctx.cursor)
                         else if op.byte == 0x83 then Tabline(st0, f, env, ctx.cursor)
                         else Tabseek(st0, f, env, ctx.cursor);
            match moved
            case Done(st', cursor) => out == Done(st', (Next, ctx.(cursor := cursor)))
            case Failed(e) => out == Failed(e)
  {
    hide Fold, Tabset, Tabline, Tabseek, EnvStep;
  }

  lemma IsFirstInside(names: seq<Text>, name: Text, i: nat)
    ensures IsFirst(names, name, i) ==> i < |names|
  {
  }

  /** tabset selects the first table of that name, keeping the row only when it was selected already. */
  lemma TabsetByOpcode(st: State, op: Op, f: Op, env: Env, ctx: Ctx, name: Text, i: nat)
    requires Seen(st, op, f) && op.byte == 0x7B
    requires ReadString(Past(st, op), f.arg0).Done? && ReadString(Past(st, op), f.arg0).value == name
    ensures var (out, st') := (Step(st, op, env, ctx), ReadString(Past(st, op), f.arg0).st);
            && (IsFirst(TableNames(env.tables), name, i) ==>
                  var row := if ctx.cursor.table == Some(i) then ctx.cursor.row else None;
                  && TableNames(env.tables)[i] == env.tables[i].name
                  && out == Done(st', (Next, ctx.(cursor := Cursor(Some(i), row)))))
            && (Missing(TableNames(env.tables), name) ==> out == Failed(TableNotFound(name)))
  {
    hide Step, FoldOp, ReadString, NameIndex, IsFirst, Missing;
    CursorIs(st, op, f, env, ctx);
    NamesResolve(TableNames(env.tables), name, i);
    assert IsFirst(TableNames(env.tables), name, i) ==> i < |env.tables| by {
      IsFirstInside(TableNames(env.tables), name, i);
    }
  }

  /** The table the cursor selects. */
  predicate Selects(env: Env, cursor: Cursor, table: Table) {
    cursor.table.Some? && cursor.table.value < |env.tables| && env.tables[cursor.table.value] == table
  }

  /** A row tabseek (0x7C) or tabseeku (0x9A) stops at. */
  predicate Hit(b: byte, row: seq<Text>, col: nat, text: Text, v: u32) {
    col < |row| && if b == 0x7C then SameName(row[col], text) else StringToValue(row[col]) % TWO_32 == v
  }

  /** The machine and cursor after a selection of row `r`, a hit or the fallback. */
  predicate Lands(out: Out<(Flow, Ctx)>, st: State, ctx: Ctx, r: nat, hit: bool) {
    out == Done(st.(flags := st.flags.(z := !hit)), (Next, ctx.(cursor := ctx.cursor.(row := Some(r)))))
  }

  lemma HitsMatch(b: byte, row: seq<Text>, col: nat, text: Text, v: u32)
    ensures CellMatches(row, col, if b == 0x7C then TextKey(text) else NumberKey(v)) <==> Hit(b, row, col, text, v)
  {
    hide EqIgnoreAsciiCase, SameName, StringToValue;
    if col < |row| {
      NamesFold(row[col], text);
    }
  }

  lemma TabseekIs(st: State, f: Op, env: Env, cursor: Cursor, table: Table, column: Text, col: nat, text: Text, v: u32)
    requires f.byte in {0x7C, 0x9A} && Selects(env, cursor, table) && NameIndex(table.columns, column, 0) == Some(col)
    requires var r := ReadString(st, f.arg0); r.Done? && r.value == column
    requires f.byte == 0x7C ==> var k := ReadString(ReadString(st, f.arg0).st, f.arg1); k.Done? && k.value == text
    requires f.byte == 0x9A ==> ReadValue(ReadString(st, f.arg0).st, f.arg1) == Ok(v)
    ensures var st1 := ReadString(st, f.arg0).st;
            var st' := if f.byte == 0x7C then ReadString(st1, f.arg1).st else st1;
            var key := if f.byte == 0x7C then TextKey(text) else NumberKey(v);
            Tabseek(st, f, env, cursor) == SelectRow(st', cursor, |table.rows|, SeekRow(table.rows, col, key, 0))
  {
    hide ReadString, ReadValue, NameIndex, SelectRow, SeekRow;
  }

  /** tabseek lands on the first row whose named cell is its own key, or on the last with Zero set. */
  lemma TabseekByOpcode(st: State, op: Op, f: Op, env: Env, ctx: Ctx, table: Table, column: Text, col: nat,
                        text: Text, v: u32, r: nat)
    requires Seen(st, op, f) && op.byte in {0x7C, 0x9A}
    requires Selects(env, ctx.cursor, table) && IsFirst(table.columns, column, col)
    requires var c := ReadString(Past(st, op), f.arg0); c.Done? && c.value == column
    requires op.byte == 0x7C ==>
               var k := ReadString(ReadString(Past(st, op), f.arg0).st, f.arg1); k.Done? && k.value == text
    requires op.byte == 0x9A ==> ReadValue(ReadString(Past(st, op), f.arg0).st, f.arg1) == Ok(v)
    ensures var st1 := ReadString(Past(st, op), f.arg0).st;
            var st' := if op.byte == 0x7C then ReadString(st1, f.arg1).st else st1;
            var (out, rows) := (Step(st, op, env, ctx), table.rows);
            && (r < |rows| && Hit(op.byte, rows[r], col, text, v) &&
                (forall j :: 0 <= j < r ==> !Hit(op.byte, rows[j], col, text, v)) ==>
                  Lands(out, st', ctx, r, true))
            && ((forall j :: 0 <= j < |rows| ==> !Hit(op.byte, rows[j], col, text, v)) ==>
                  if rows == [] then out == Failed(TableRow) else Lands(out, st', ctx, |rows| - 1, false))
  {
    hide Step, FoldOp, ReadString, ReadValue, NameIndex, IsFirst, CellMatches, Hit, Tabseek;
    CursorIs(st, op, f, env, ctx);
    NamesResolve(table.columns, column, col);
    TabseekIs(Past(st, op), f, env, ctx.cursor, table, column, col, text, v);
    var key := if op.byte == 0x7C then TextKey(text) else NumberKey(v);
    SeekRowIsFirst(table.rows, col, key, 0);
    forall j | 0 <= j < |table.rows|
      ensures CellMatches(table.rows[j], col, key) <==> Hit(op.byte, table.rows[j], col, text, v)
    {
      HitsMatch(op.byte, table.rows[j], col, text, v);
    }
  }

  /** tabline selects the row of that number, or the last with Zero set. */
  lemma TablineByOpcode(st: State, op: Op, f: Op, env: Env, ctx: Ctx, table: Table, n: u32)
    requires Seen(st, op, f) && op.byte == 0x83
    requires Selects(env, ctx.cursor, table) && ReadValue(Past(st, op), f.arg0) == Ok(n)
    ensures var out := Step(st, op, env, ctx);
            if n < |table.rows| then Lands(out, Past(st, op), ctx, n, true)
            else if table.rows == [] then out == Failed(TableRow)
            else Lands(out, Past(st, op), ctx, |table.rows| - 1, false)
  {
    hide Step, FoldOp, ReadValue;
    CursorIs(st, op, f, env, ctx);
  }

  lemma NoText()
    ensures StringBytes([]) == []
  {
  }

  /** tabget stores the cell of the named column in the selected row, and nothing before one is selected. */
  lemma TabgetByOpcode(st: State, op: Op, f: Op, env: Env, ctx: Ctx, table: Table, column: Text, col: nat, dest: RegId)
    requires Seen(st, op, f) && op.byte == 0x7D && f.arg0 == Reg(dest) && IsBuffer(dest)
    requires Selects(env, ctx.cursor, table) && IsFirst(table.columns, column, col)
    requires var c := ReadString(Past(st, op), f.arg1); c.Done? && c.value == column
    ensures var (out, st') := (Step(st, op, env, ctx), ReadString(Past(st, op), f.arg1).st);
            match ctx.cursor.row
            case None => out == Done(st'.(s := st'.s[dest.idx := []]), (Next, ctx))
            case Some(r) =>
              if r < |table.rows| && col < |table.rows[r]|
              then out == Done(st'.(s := st'.s[dest.idx := StringBytes(table.rows[r][col])]), (Next, ctx))
              else out == Failed(TableRow)
  {
    hide Step, FoldOp, EnvStep, ReadString, NameIndex, IsFirst, StringBytes;
    StepIs(st, op, f, env, ctx);
    EnvIs(Past(st, op), f, env, ctx.cursor);
    NamesResolve(table.columns, column, col);
    assert StringBytes([]) == [] by {
      NoText();
    }
  }

  /** Without a selected table the row opcodes fail; in one, a name it has no column for does. */
  lemma TableFaults(st: State, op: Op, f: Op, env: Env, ctx: Ctx, table: Table, column: Text)
    requires Seen(st, op, f)
    ensures ctx.cursor.table == None && op.byte in {0x7C, 0x7D, 0x83, 0x9A} ==>
              Step(st, op, env, ctx) == Failed(TableNotSelected)
    ensures Selects(env, ctx.cursor, table) && Missing(table.columns, column) && op.byte == 0x7D
            && (var c := ReadString(Past(st, op), f.arg1); c.Done? && c.value == column) ==>
              Step(st, op, env, ctx) == Failed(TableColumn(column))
    ensures Selects(env, ctx.cursor, table) && Missing(table.columns, column) && op.byte in {0x7C, 0x9A}
            && (var c := ReadString(Past(st, op), f.arg0);
                c.Done? && c.value == column && SeekKey(c.st, f).Done?) ==>
              Step(st, op, env, ctx) == Failed(TableColumn(column))
  {
    hide Step, FoldOp, EnvStep, ReadString, ReadValue, NameIndex, Missing, SeekKey, WriteString;
    StepIs(st, op, f, env, ctx);
    EnvIs(Past(st, op), f, env, ctx.cursor);
    if op.byte in {0x7C, 0x83, 0x9A} {
      CursorIs(st, op, f, env, ctx);
    }
    NamesResolve(table.columns, column, 0);
  }

  /** tabcols counts columns, tabrows the rows and the header; both give 0 with no table selected. */
  lemma SizesByOpcode(st: State, op: Op, f: Op, env: Env, ctx: Ctx, reg: RegId)
    requires Seen(st, op, f) && op.byte in {0xB6, 0xB7} && f.arg0 == Reg(reg) && IsWord(reg)
    ensures var (out, span) := (Step(st, op, env, ctx), Span(BankWidth(reg.bank)));
            && Ran(out, ctx) && out.st.flags == st.flags
            && (ctx.cursor.table == None ==> IntOf(out.st, reg) == 0)
            && (forall table :: Selects(env, ctx.cursor, table) ==>
                  IntOf(out.st, reg) == (if op.byte == 0xB6 then |table.columns| else |table.rows| + 1) % span)
  {
    hide Step, FoldOp, EnvStep, WordAt, StoreWord, Low32;
    StepIs(st, op, f, env, ctx);
    EnvIs(Past(st, op), f, env, ctx.cursor);
    var st0, selected := Past(st, op), SelectedTable(env, ctx.cursor);
    var n := match selected
             case Ok(table) => if op.byte == 0xB6 then |table.columns| else |table.rows| + 1
             case Err(_) => 0;
    WriteThenRead(st0, reg, Low32(n), reg);
    Low32Residue(n, BankWidth(reg.bank));
    SmallMod(0, Span(BankWidth(reg.bank)));
  }

  // ---- results ----

  /** The context with one entry more in its current set. */
  function WithEntry(ctx: Ctx, name: Text, value: ResultData): Ctx {
    var last := |ctx.sets| - 1;
    ctx.(sets := ctx.sets[last := ctx.sets[last] + [(name, value)]])
  }

  lemma ErgIs(st: State, op: Op, f: Op, env: Env, ctx: Ctx)
    requires Seen(st, op, f) && IsErg(op.byte)
    ensures f.byte == op.byte
    ensures var (out, pushed) := (Step(st, op, env, ctx), Erg(Past(st, op), f));
            match pushed
            case Done(st', (name, value)) => out == Done(st', (Next, WithEntry(ctx, name, value)))
            case Failed(e) => out == Failed(e)
  {
    hide Fold, Erg;
  }

  /** The integer ergs: the width each reads and the number it makes of the word. */
  lemma NumbersByOpcode(st: State, op: Op, f: Op, env: Env, ctx: Ctx, name: Text, w: Width, v: u32)
    requires Seen(st, op, f) && op.byte in {0x34, 0x35, 0x36, 0x37, 0x81, 0x82}
    requires w == if op.byte in {0x34, 0x81} then 1 else if op.byte in {0x35, 0x37} then 2 else 4
    requires var n := ReadString(Past(st, op), f.arg0); n.Done? && n.value == name
    requires var r := ReadInt(ReadString(Past(st, op), f.arg0).st, f.arg1, w); r.Done? && r.value == v
    ensures var st' := ReadInt(ReadString(Past(st, op), f.arg0).st, f.arg1, w).st;
            var value := match op.byte
                         case 0x34 => ByteResult(v % 0x100)
                         case 0x35 => WordResult(v % 0x1_0000)
                         case 0x36 => DwordResult(v)
                         case _ => IntResult(Signed(v, w));
            Step(st, op, env, ctx) == Done(st', (Next, WithEntry(ctx, name, value)))
  {
    hide Step, FoldOp, ReadString, ReadInt, Signed;
    ErgIs(st, op, f, env, ctx);
  }

  /** ergr, ergs and ergy of a register. */
  lemma BuffersPushed(st: State, op: Op, f: Op, env: Env, ctx: Ctx, name: Text, reg: RegId)
    requires Seen(st, op, f) && f.arg1 == Reg(reg) && Exists(reg)
    requires var n := ReadString(Past(st, op), f.arg0); n.Done? && n.value == name
    ensures var (out, st') := (Step(st, op, env, ctx), ReadString(Past(st, op), f.arg0).st);
            && (op.byte == 0x38 && reg.bank.F? ==>
                  out == Done(st', (Next, WithEntry(ctx, name, RealResult(st.f[reg.idx])))))
            && (op.byte == 0x39 && reg.bank.S? ==>
                  out == Done(st', (Next, WithEntry(ctx, name, TextResult(CString(st.s[reg.idx]))))))
            && (op.byte == 0x3F && reg.bank.S? ==>
                  out == Done(st', (Next, WithEntry(ctx, name, BinaryResult(st.s[reg.idx])))))
  {
    hide Step, FoldOp, ReadBytes, CString;
    if op.byte in {0x38, 0x39, 0x3F} {
      ErgIs(st, op, f, env, ctx);
      var st1 := ReadString(Past(st, op), f.arg0).st;
      ErgPushesBuffer(st1, f, reg);
    }
  }

  /** enewset starts a set only when the current one holds something; nothing else changes. */
  lemma EnewsetByOpcode(st: State, op: Op, f: Op, env: Env, ctx: Ctx)
    requires Seen(st, op, f) && op.byte == 0x40
    ensures Step(st, op, env, ctx) ==
            Done(Past(st, op), (Next, if ctx.sets[|ctx.sets| - 1] == [] then ctx else ctx.(sets := ctx.sets + [[]])))
  {
    hide Fold;
  }
}
