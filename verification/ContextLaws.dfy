/** What the argument, result and table opcodes give a job, in terms of what it was given. */
module ContextLaws {
  import opened Wrappers
  import opened Words
  import opened Bytecode
  import opened MachineState
  import opened MachineLaws
  import opened Text
  import opened TextLaws
  import opened Alu
  import opened AluLaws
  import opened ResultSets
  import opened ExecBase
  import opened ExecContext
  import opened ExecLaws
  import opened OpcodeLaws
  import opened TextOpcodeLaws

  // ---- arguments ----

  /** The argument buffer a caller builds from fields without a semicolon. */
  predicate Passes(args: seq<byte>, fields: seq<Text>) {
    && args != [] && fields != []
    && (forall i :: 0 <= i < |fields| ==> FreeOf(fields[i], {';'}))
    && Latin1(args) == Join(fields, ';')
  }

  /** The field an argument position names, counted from 1; none past the end or when empty. */
  function Given(fields: seq<Text>, pos: u32): Option<Text> {
    if 1 <= pos <= |fields| && fields[pos - 1] != [] then Some(fields[pos - 1]) else None
  }

  /** The caller's fields are what the job finds: each at its position, and as many as there are. */
  lemma FieldsAreGiven(args: seq<byte>, fields: seq<Text>, pos: u32)
    requires Passes(args, fields)
    ensures ArgStrings(args) == fields
    ensures |fields| < TWO_32 ==> Field(args, pos) == Given(fields, pos)
  {
    JoinThenSplit(fields, ';', {';'});
  }

  lemma BufferText(st: State, reg: RegId)
    requires IsBuffer(reg)
    ensures ReadString(st, Reg(reg)) == Done(st, CString(st.s[reg.idx]))
  {
  }

  /** `pars` gives the field at its position, if CP1252 can hold it, and sets Zero exactly when there is none. */
  lemma ParsGivesField(st: State, op: Op, args: seq<byte>, fields: seq<Text>, pos: u32, dest: RegId)
    requires Passes(args, fields) && |fields| < TWO_32
    requires IsBuffer(dest) && op.arg0 == Reg(dest) && op.arg1 == Imm(pos)
    ensures var out := Pars(st, op, args);
            && out.Done? && (out.st.flags.z <==> Given(fields, pos).None?)
            && var text := if Given(fields, pos).Some? then Given(fields, pos).value else [];
               (ReadString(out.st, Reg(dest)) == Done(out.st, text) <==> AllStorable(text))
  {
    hide Field, WriteString, CString, StringBytes, AllStorable;
    FieldsAreGiven(args, fields, pos);
    var text := if Given(fields, pos).Some? then Given(fields, pos).value else [];
    StringRegister(st, dest, text);
    BufferText(Pars(st, op, args).st, dest);
    TextSurvives(text);
  }

  /** `parb`, `parw` and `parl` give the number a decimal field spells, modulo the target's width, 0 for none. */
  lemma ParlGivesNumber(st: State, op: Op, args: seq<byte>, fields: seq<Text>, pos: u32, dest: RegId, v: int)
    requires Passes(args, fields) && |fields| < TWO_32 && -TWO_31 <= v <= I64_MAX
    requires IsWord(dest) && op.arg0 == Reg(dest) && op.arg1 == Imm(pos)
    ensures Given(fields, pos) == Some(SignedDecimal(v)) ==>
              var out := Parl(st, op, args);
              out.Done? && IntOf(out.st, dest) == v % Span(BankWidth(dest.bank)) && !out.st.flags.z
    ensures Given(fields, pos) == None ==>
              var out := Parl(st, op, args);
              out.Done? && IntOf(out.st, dest) == 0 && out.st.flags.z
  {
    hide Field, StringToValue, SignedDecimal, WordAt, StoreWord, Low32;
    FieldsAreGiven(args, fields, pos);
    DecimalParses(v);
    WriteThenRead(st, dest, Low32(v), dest);
    Low32Residue(v, BankWidth(dest.bank));
    WriteThenRead(st, dest, 0, dest);
    SmallMod(0, Span(BankWidth(dest.bank)));
  }

  predicate IsPlain(text: Text) {
    forall i :: 0 <= i < |text| ==> text[i] as int < 0x80
  }

  lemma PlainText(text: Text)
    ensures IsPlain(text) <==> !exists c <- text :: c as int >= 0x80
  {
    if !IsPlain(text) {
      var i :| 0 <= i < |text| && text[i] as int >= 0x80;
      assert text[i] in text;
    }
  }

  /** `parr` gives the float an ASCII field spells, and 0 when the unit cannot parse it or there is none. */
  lemma ParrGivesFloat(st: State, op: Op, env: Env, fields: seq<Text>, pos: u32, dest: RegId)
    requires Passes(env.args, fields) && |fields| < TWO_32
    requires dest.bank.F? && Exists(dest) && op.arg0 == Reg(dest) && op.arg1 == Imm(pos)
    ensures var out := Parr(st, op, env);
            var given := Given(fields, pos);
            && out.Done? && (out.st.flags.z <==> given.None?)
            && out.st.f[dest.idx] ==
                 if given.Some? && IsPlain(given.value) && env.fpu.parse(given.value).Some?
                 then env.fpu.parse(given.value).value
                 else 0
  {
    hide Field;
    FieldsAreGiven(env.args, fields, pos);
    if Given(fields, pos).Some? {
      PlainText(Given(fields, pos).value);
    }
  }

  lemma NoArguments(args: seq<byte>)
    ensures args == [] ==> ArgStrings(args) == []
  {
  }

  /** `parn` counts the fields, and none when there are no arguments. */
  lemma ParnCountsFields(st: State, op: Op, args: seq<byte>, fields: seq<Text>, dest: RegId)
    requires IsWord(dest) && op.arg0 == Reg(dest)
    ensures Passes(args, fields) ==>
              Parn(st, op, args).Done? && IntOf(Parn(st, op, args).st, dest) == |fields| % Span(BankWidth(dest.bank))
    ensures args == [] ==> Parn(st, op, args).Done? && IntOf(Parn(st, op, args).st, dest) == 0
  {
    hide ArgStrings, WordAt, StoreWord, UpdateZS, Low32;
    var n := |ArgStrings(args)|;
    WriteThenRead(st, dest, Low32(n), dest);
    Low32Residue(n, BankWidth(dest.bank));
    NoArguments(args);
    if Passes(args, fields) {
      FieldsAreGiven(args, fields, 0);
    }
    SmallMod(0, Span(BankWidth(dest.bank)));
  }

  /** `pary` gives the argument buffer byte for byte, NULs and semicolons included. */
  lemma ParyGivesBuffer(st: State, op: Op, args: seq<byte>, dest: RegId)
    requires IsBuffer(dest) && op.arg0 == Reg(dest)
    ensures var out := Pary(st, op, args);
            out.Done? && ReadBytes(out.st, Reg(dest)) == Done(out.st, args) && (out.st.flags.z <==> args == [])
  {
  }

  // ---- results ----

  /** The width an integer erg reads its value at, and whether it is signed. */
  function ErgWidth(b: byte): Width {
    if b == 0x34 || b == 0x81 then 1 else if b == 0x35 || b == 0x37 then 2 else 4
  }

  /** The number a result holds. */
  function Number(data: ResultData): int
    requires data.ByteResult? || data.WordResult? || data.DwordResult? || data.IntResult?
  {
    match data
    case ByteResult(b) => b
    case WordResult(x) => x
    case DwordResult(d) => d
    case IntResult(i) => i
  }

  predicate IsIntErg(b: byte) {
    b in {0x34, 0x35, 0x36, 0x37, 0x81, 0x82}
  }

  lemma SignedReading(v: u32, w: Width)
    ensures -Half(w) <= Signed(v, w) < Half(w) && Signed(v, w) % Span(w) == v % Span(w)
  {
    var m, x := v % Span(w), Signed(v, w);
    Residue(x, w, if x < 0 then -1 else 0, m);
  }

  /**
   An integer erg pushes the one number of its range congruent to the value read: unsigned for
   ergb, ergw and ergd, signed for ergc, ergi and ergl.
  */
  lemma ErgPushesResidue(st: State, op: Op, v: u32)
    requires IsIntErg(op.byte) && ReadInt(st, op.arg1, ErgWidth(op.byte)).Done?
    requires v == ReadInt(st, op.arg1, ErgWidth(op.byte)).value
    ensures var out := ResultOf(st, op);
            var w := ErgWidth(op.byte);
            && out.Done?
            && (out.value.IntResult? <==> op.byte in {0x37, 0x81, 0x82})
            && (out.value.ByteResult? || out.value.WordResult? || out.value.DwordResult? || out.value.IntResult?)
            && Number(out.value) % Span(w) == v % Span(w)
            && (if out.value.IntResult? then -Half(w) <= Number(out.value) < Half(w)
                else 0 <= Number(out.value) < Span(w))
  {
    hide ReadInt;
    var w := ErgWidth(op.byte);
    SmallMod(v % Span(w), Span(w));
    SignedReading(v, w);
  }

  /** ergs pushes the register's text, ergy its bytes, ergr its float. */
  lemma ErgPushesBuffer(st: State, op: Op, source: RegId)
    requires op.arg1 == Reg(source) && Exists(source)
    ensures op.byte == 0x39 && source.bank.S? ==> ResultOf(st, op) == Done(st, TextResult(CString(st.s[source.idx])))
    ensures op.byte == 0x3F && source.bank.S? ==> ResultOf(st, op) == Done(st, BinaryResult(st.s[source.idx]))
    ensures op.byte == 0x38 && source.bank.F? ==> ResultOf(st, op) == Done(st, RealResult(st.f[source.idx]))
    ensures op.byte in {0x39, 0x3F} && !source.bank.S? ==> ResultOf(st, op) == Failed(InvalidOperand)
  {
    hide CString, WordAt;
  }

  // ---- tables ----

  lemma StoredSize(st: State, reg: RegId, n: nat)
    requires IsWord(reg)
    ensures var r := Write(st, Reg(reg), IntValue(Low32(n)));
            r.Ok? && (n < Span(BankWidth(reg.bank)) ==> IntOf(r.value, reg) == n)
  {
    hide WordAt, StoreWord, Low32;
    WriteThenRead(st, reg, Low32(n), reg);
    Low32Residue(n, BankWidth(reg.bank));
    if n < Span(BankWidth(reg.bank)) {
      SmallMod(n, Span(BankWidth(reg.bank)));
    }
  }

  lemma ColumnInTable(table: Table, name: Text)
    ensures ColumnOf(table, name).Ok? ==> ColumnOf(table, name).value < |table.columns|
  {
    NameIndexIsFirst(table.columns, name, 0);
  }

  /**
   The sizes are bounds for the other table opcodes: tabline hits exactly the lines below
   tabrows less the header, every column a name resolves to is below tabcols, and both are 0
   with no table selected.
  */
  lemma SizesBoundTheTable(st: State, rows: Op, cols: Op, line: Op, env: Env, cursor: Cursor, reg: RegId, n: u32)
    requires rows.byte == 0xB7 && cols.byte == 0xB6 && rows.arg0 == Reg(reg) && cols.arg0 == Reg(reg) && IsWord(reg)
    requires line.arg0 == Imm(n)
    ensures TabSize(st, rows, env, cursor).Done? && TabSize(st, cols, env, cursor).Done?
    ensures var height := IntOf(TabSize(st, rows, env, cursor).st, reg);
            var width := IntOf(TabSize(st, cols, env, cursor).st, reg);
            match SelectedTable(env, cursor)
            case Err(_) => height == 0 && width == 0
            case Ok(table) =>
              && (|table.rows| + 1 < Span(BankWidth(reg.bank)) && table.rows != [] ==>
                    var out := Tabline(st, line, env, cursor);
                    out.Done? && (!out.st.flags.z <==> n < height - 1))
              && (|table.columns| < Span(BankWidth(reg.bank)) ==>
                    forall name :: ColumnOf(table, name).Ok? ==> ColumnOf(table, name).value < width)
  {
    hide WordAt, StoreWord, Low32, NameIndex;
    var w := BankWidth(reg.bank);
    match SelectedTable(env, cursor)
    case Err(_) =>
      StoredSize(st, reg, 0);
    case Ok(table) =>
      StoredSize(st, reg, |table.rows| + 1);
      StoredSize(st, reg, |table.columns|);
      forall name {
        ColumnInTable(table, name);
      }
  }
}
