/** The result, argument and table handlers of exec.rs, which reach outside the machine. */
module ExecContext {
  import opened Wrappers
  import opened Words
  import opened Bytecode
  import opened MachineState
  import opened Text
  import opened Alu
  import opened ResultSets
  import opened ExecBase
  import opened ExecCore

  // ---- results ----

  /** The value an erg opcode stores, by the cast its opcode fixes. */
  function ResultOf(st: State, op: Op): Out<ResultData> {
    match op.byte
    case 0x34 =>
      var (st, v) :- ReadInt(st, op.arg1, 1);
      Done(st, ByteResult(v % 0x100))
    case 0x35 =>
      var (st, v) :- ReadInt(st, op.arg1, 2);
      Done(st, WordResult(v % 0x1_0000))
    case 0x36 =>
      var (st, v) :- ReadInt(st, op.arg1, 4);
      Done(st, DwordResult(v))
    case 0x37 =>
      var (st, v) :- ReadInt(st, op.arg1, 2);
      Done(st, IntResult(Signed(v, 2)))
    case 0x38 =>
      var (st, f) :- Pure(st, ReadFloat(st, op.arg1));
      Done(st, RealResult(f))
    case 0x39 =>
      var (st, text) :- ReadString(st, op.arg1);
      Done(st, TextResult(text))
    case 0x3F =>
      var (st, bytes) :- ReadBytes(st, op.arg1);
      Done(st, BinaryResult(bytes))
    case 0x81 =>
      var (st, v) :- ReadInt(st, op.arg1, 1);
      Done(st, IntResult(Signed(v, 1)))
    case _ =>
      var (st, v) :- ReadInt(st, op.arg1, 4);
      Done(st, IntResult(Signed(v, 4)))
  }

  /** ergb, ergw, ergd, ergi, ergr, ergs, ergy, ergc, ergl: the entry they push. */
  function Erg(st: State, op: Op): Out<Entry> {
    var (st, name) :- ReadString(st, op.arg0);
    var (st, value) :- ResultOf(st, op);
    Done(st, (name, value))
  }

  predicate IsErg(b: byte) {
    0x34 <= b <= 0x39 || b == 0x3F || b == 0x81 || b == 0x82
  }

  /** `enewset` commits the current set only when it holds something. */
  function EnewsetSets(sets: Sets): Sets {
    if Current(sets) != [] then NewSet(sets) else sets
  }

  // ---- arguments ----

  /** The 1-based argument field `pos`, None when absent or empty. */
  function Field(args: seq<byte>, pos: u32): Option<Text> {
    var fields := ArgStrings(args);
    var i := if pos == 0 then TWO_32 - 1 else pos - 1;
    if i < |fields| && fields[i] != [] then Some(fields[i]) else None
  }

  function Parl(st: State, op: Op, args: seq<byte>): Out<Flow> {
    var (st, pos) :- Pure(st, ReadValue(st, op.arg1));
    var field := Field(args, pos);
    var v := if field.Some? then Low32(StringToValue(field.value)) else 0;
    var (st, _) :- Store(Write(st, op.arg0, IntValue(v)));
    Done(WithFlags(st, NO_FLAGS.(z := field.None?)), Next)
  }

  /** `StringToFloat`: any parse failure, or a non-ASCII text, reads as zero. */
  function LenientFloat(text: Text, fpu: FloatUnit): F64 {
    if (exists c <- text :: c as int >= 0x80) || fpu.parse(text).None? then 0 else fpu.parse(text).value
  }

  function Parr(st: State, op: Op, env: Env): Out<Flow> {
    var (st, pos) :- Pure(st, ReadValue(st, op.arg1));
    var field := Field(env.args, pos);
    var f := if field.Some? then LenientFloat(field.value, env.fpu) else 0;
    var (st, _) :- Store(Write(st, op.arg0, FloatValue(f)));
    Done(WithFlags(st, NO_FLAGS.(z := field.None?)), Next)
  }

  function Pars(st: State, op: Op, args: seq<byte>): Out<Flow> {
    var (st, pos) :- Pure(st, ReadValue(st, op.arg1));
    var field := Field(args, pos);
    var (st, _) :- WriteString(st, op.arg0, if field.Some? then field.value else []);
    Done(WithFlags(st, st.flags.(z := field.None?)), Next)
  }

  function Pary(st: State, op: Op, args: seq<byte>): Out<Flow> {
    var (st, _) :- Store(Write(st, op.arg0, BytesValue(args)));
    Done(WithFlags(st, st.flags.(z := args == [])), Next)
  }

  function Parn(st: State, op: Op, args: seq<byte>): Out<Flow> {
    var (st, w) :- Pure(st, ArgWidth(op.arg0));
    Settle(st, op.arg0, Low32(|ArgStrings(args)|), w)
  }

  // ---- tables ----

  /** The first index from `from` on whose name equals `name` up to ASCII case. */
  function NameIndex(names: seq<Text>, name: Text, from: nat): Option<nat>
    requires from <= |names|
    decreases |names| - from
  {
    if from == |names| then None
    else if EqIgnoreAsciiCase(names[from], name) then Some(from)
    else NameIndex(names, name, from + 1)
  }

  function TableNames(tables: seq<Table>): seq<Text> {
    seq(|tables|, i requires 0 <= i < |tables| => tables[i].name)
  }

  function SelectedTable(env: Env, cursor: Cursor): Result<Table, ExecError> {
    if cursor.table.Some? && cursor.table.value < |env.tables| then Ok(env.tables[cursor.table.value])
    else Err(TableNotSelected)
  }

  function ColumnOf(table: Table, column: Text): Result<nat, ExecError> {
    match NameIndex(table.columns, column, 0)
    case Some(i) => Ok(i)
    case None => Err(TableColumn(column))
  }

  function Tabset(st: State, op: Op, env: Env, cursor: Cursor): Out<Cursor> {
    var (st, name) :- ReadString(st, op.arg0);
    match NameIndex(TableNames(env.tables), name, 0)
    case None => Failed(TableNotFound(name))
    case Some(i) =>
      Done(st, Cursor(Some(i), if cursor.table == Some(i) then cursor.row else None))
  }

  /** What a seek compares a cell with: a text key, or a 32-bit value key. */
  datatype Key = TextKey(text: Text) | NumberKey(v: u32)

  predicate CellMatches(row: seq<Text>, col: nat, key: Key) {
    col < |row| &&
    match key
    case TextKey(text) => EqIgnoreAsciiCase(row[col], text)
    case NumberKey(v) => Low32(StringToValue(row[col])) == v
  }

  /** The first row from `from` on whose cell matches. */
  function SeekRow(rows: seq<seq<Text>>, col: nat, key: Key, from: nat): Option<nat>
    requires from <= |rows|
    decreases |rows| - from
  {
    if from == |rows| then None
    else if CellMatches(rows[from], col, key) then Some(from)
    else SeekRow(rows, col, key, from + 1)
  }

  /** The row a seek or line selection settles on, and whether it was a real hit. */
  function Selected(rows: nat, hit: Option<nat>): Result<(nat, bool), ExecError> {
    match hit
    case Some(r) => Ok((r, true))
    case None => if rows == 0 then Err(TableRow) else Ok((rows - 1, false))
  }

  function SelectRow(st: State, cursor: Cursor, rows: nat, hit: Option<nat>): Out<Cursor> {
    var (st, chosen) :- Pure(st, Selected(rows, hit));
    Done(WithFlags(st, st.flags.(z := !chosen.1)), cursor.(row := Some(chosen.0)))
  }

  function SeekKey(st: State, op: Op): Out<Key> {
    if op.byte == 0x7C then
      var (st, text) :- ReadString(st, op.arg1);
      Done(st, TextKey(text))
    else
      var (st, v) :- Pure(st, ReadValue(st, op.arg1));
      Done(st, NumberKey(v))
  }

  /** `tabseek` (0x7C) and `tabseeku` (0x9A). */
  function Tabseek(st: State, op: Op, env: Env, cursor: Cursor): Out<Cursor> {
    var (st, table) :- Pure(st, SelectedTable(env, cursor));
    var (st, column) :- ReadString(st, op.arg0);
    var (st, key) :- SeekKey(st, op);
    var (st, col) :- Pure(st, ColumnOf(table, column));
    SelectRow(st, cursor, |table.rows|, SeekRow(table.rows, col, key, 0))
  }

  function Tabline(st: State, op: Op, env: Env, cursor: Cursor): Out<Cursor> {
    var (st, table) :- Pure(st, SelectedTable(env, cursor));
    var (st, line) :- Pure(st, ReadValue(st, op.arg0));
    SelectRow(st, cursor, |table.rows|, if line < |table.rows| then Some(line) else None)
  }

  /** The cell at the cursor: empty before any row is selected. */
  function CellAt(table: Table, col: nat, row: Option<nat>): Result<Text, ExecError> {
    match row
    case None => Ok([])
    case Some(r) =>
      if r < |table.rows| && col < |table.rows[r]| then Ok(table.rows[r][col]) else Err(TableRow)
  }

  function Tabget(st: State, op: Op, env: Env, cursor: Cursor): Out<Flow> {
    var (st, table) :- Pure(st, SelectedTable(env, cursor));
    var (st, column) :- ReadString(st, op.arg1);
    var (st, col) :- Pure(st, ColumnOf(table, column));
    var (st, cell) :- Pure(st, CellAt(table, col, cursor.row));
    var (st, _) :- WriteString(st, op.arg0, cell);
    Done(st, Next)
  }

  /** `tabcols` (0xB6) and `tabrows` (0xB7), which counts the header row. */
  function TabSize(st: State, op: Op, env: Env, cursor: Cursor): Out<Flow> {
    var n := match SelectedTable(env, cursor)
             case Ok(table) => if op.byte == 0xB6 then |table.columns| else |table.rows| + 1
             case Err(_) => 0;
    var (st, _) :- Store(Write(st, op.arg0, IntValue(Low32(n))));
    Done(st, Next)
  }
}
