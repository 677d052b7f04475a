/** What the opcode handlers of exec.rs share: flow, errors, operands and traps. */
module ExecBase {
  import opened Wrappers
  import opened Words
  import opened Bytecode
  import opened MachineState
  import opened Text
  import opened Alu
  import opened ResultSets

  datatype Flow =
    | Next
    | Jumped
    | EndOfJob
    | Exchange(request: seq<byte>, dest: Operand)
    | Wait(seconds: u32)

  datatype ExecError =
    | Unimplemented(b: byte)
    | Machine(e: MachineError)
    | InvalidOperand
    | DivideByZero
    | StackUnderflow
    | Break
    | NonFinite
    | BadFloatString(text: Text)
    | TableNotSelected
    | TableNotFound(name: Text)
    | TableColumn(column: Text)
    | TableRow
    | AtspStack
    | Trapped(bit: u32)

  /** A handler's outcome: the state it leaves and what it yields, or the fault it stops on. */
  datatype Out<+T> = Done(st: State, value: T) | Failed(error: ExecError) {
    predicate IsFailure() {
      Failed?
    }

    function PropagateFailure<U>(): Out<U>
      requires Failed?
    {
      Failed(error)
    }

    function Extract(): (State, T)
      requires Done?
    {
      (st, value)
    }
  }

  /** A computation that cannot change the state. */
  function Pure<T>(st: State, r: Result<T, ExecError>): Out<T> {
    match r
    case Ok(v) => Done(st, v)
    case Err(e) => Failed(e)
  }

  /** A store, whose machine error becomes the handler's. */
  function Store(r: Result<State, MachineError>): Out<()> {
    match r
    case Ok(st) => Done(st, ())
    case Err(e) => Failed(Machine(e))
  }

  /** SGBD tables, as the container decodes them. */
  datatype Table = Table(name: Text, columns: seq<Text>, rows: seq<seq<Text>>)

  /**
   IEEE-754 arithmetic and its text formatting are library behaviour: any functions on
   bit patterns will do.
  */
  datatype FloatUnit = FloatUnit(
    arith: (byte, F64, F64) -> F64,
    finite: F64 -> bool,
    equal: (F64, F64) -> bool,
    less: (F64, F64) -> bool,
    fromInt: int -> F64,
    truncate: F64 -> int,
    widen: u32 -> F64,
    parse: Text -> Option<F64>,
    format: F64 -> Text)

  /** What a job runs with and never changes. */
  datatype Env = Env(args: seq<byte>, tables: seq<Table>, fpu: FloatUnit)

  /** What a job changes besides the machine: its results and the table cursor. */
  datatype Cursor = Cursor(table: Option<nat>, row: Option<nat>)

  datatype Ctx = Ctx(sets: Sets, cursor: Cursor)

  // ---- traps ----

  const TRAP_BIT_UNMAPPED: u32 := 0
  const TRAP_BIT_NO_RESPONSE: u32 := 19

  predicate Masked(mask: u32, bit: u32) {
    BitAt(mask, bit)
  }

  /** A read may record a trap and changes nothing else. */
  predicate OnlyTrap(st: State, st': State) {
    st' == st.(trapBit := st'.trapBit)
  }

  /** Records the trap, and aborts unless the job masks its class. */
  function SetError(st: State, bit: u32): (r: Out<()>)
    ensures r.Done? ==> OnlyTrap(st, r.st)
  {
    if Masked(st.trapMask, bit) then Done(st.(trapBit := Some(bit)), ()) else Failed(Trapped(bit))
  }

  // ---- operand access ----

  /** Operand access may record a trap, but leaves the rest of the control state alone. */
  predicate Steady(st: State, st': State) {
    st'.pc == st.pc && st'.stack == st.stack && st'.flags == st.flags && st'.trapMask == st.trapMask
  }

  function ArgWidth(operand: Operand): Result<Width, ExecError> {
    if operand.Reg? && IsInteger(operand.reg.bank) then Ok(BankWidth(operand.reg.bank)) else Err(InvalidOperand)
  }

  /** As `ArgWidth`, plus the one-byte width of a target indexed without a length. */
  function ArithWidth(operand: Operand): Result<Width, ExecError> {
    if operand.Indexed? && operand.len.None? then Ok(1) else ArgWidth(operand)
  }

  /** An indexed read past the buffer limit records trap 0 and yields no bytes. */
  function ReadSource(st: State, operand: Operand): (r: Out<Value>)
    ensures r.Done? ==> OnlyTrap(st, r.st)
  {
    match Read(st, operand)
    case Ok(v) => Done(st, v)
    case Err(IndexOutOfBounds(_, _)) =>
      var (st, _) :- SetError(st, TRAP_BIT_UNMAPPED);
      Done(st, BytesValue([]))
    case Err(e) => Failed(Machine(e))
  }

  /** An indexed write past the buffer limit records trap 0 and stores nothing. */
  function WriteIndexedDest(st: State, operand: Operand, value: Value, len: nat): (r: Out<()>)
    ensures r.Done? ==> Steady(st, r.st)
  {
    match WriteIndexed(st, operand, value, len)
    case Ok(st) => Done(st, ())
    case Err(IndexOutOfBounds(_, _)) => SetError(st, TRAP_BIT_UNMAPPED)
    case Err(e) => Failed(Machine(e))
  }

  function ByteOr0(bytes: seq<byte>, i: nat): byte {
    if i < |bytes| then bytes[i] else 0
  }

  /** The first `n` bytes as a little-endian word, missing ones zero. */
  function WordOf(bytes: seq<byte>, n: Width): u32 {
    var b0: int := ByteOr0(bytes, 0);
    var b1: int := if n >= 2 then ByteOr0(bytes, 1) else 0;
    var b2: int := if n == 4 then ByteOr0(bytes, 2) else 0;
    var b3: int := if n == 4 then ByteOr0(bytes, 3) else 0;
    b0 + 0x100 * b1 + 0x1_0000 * b2 + 0x100_0000 * b3
  }

  /** `read_int`: an integer operand keeps its own width, a buffer gives its first bytes. */
  function ReadInt(st: State, operand: Operand, n: Width): (r: Out<u32>)
    ensures r.Done? ==> OnlyTrap(st, r.st)
  {
    var (st, value) :- ReadSource(st, operand);
    match value
    case IntValue(v) => Done(st, v)
    case BytesValue(b) => Done(st, WordOf(b, n))
    case FloatValue(_) => Failed(InvalidOperand)
  }

  function ReadBytes(st: State, operand: Operand): (r: Out<seq<byte>>)
    ensures r.Done? ==> OnlyTrap(st, r.st)
  {
    var (st, value) :- ReadSource(st, operand);
    if value.BytesValue? then Done(st, value.b) else Failed(InvalidOperand)
  }

  function ReadString(st: State, operand: Operand): (r: Out<Text>)
    ensures r.Done? ==> OnlyTrap(st, r.st)
  {
    var (st, bytes) :- ReadBytes(st, operand);
    Done(st, CString(bytes))
  }

  function WriteString(st: State, operand: Operand, text: Text): (r: Out<()>)
    ensures r.Done? ==> Steady(st, r.st)
  {
    Store(Write(st, operand, BytesValue(StringBytes(text))))
  }

  function ReadFloat(st: State, operand: Operand): Result<F64, ExecError> {
    match Read(st, operand)
    case Ok(FloatValue(f)) => Ok(f)
    case Ok(_) => Err(InvalidOperand)
    case Err(e) => Err(Machine(e))
  }

  /** `read_value_data`: an integer operand at its own width, nothing else. */
  function ReadValue(st: State, operand: Operand): Result<u32, ExecError> {
    match Read(st, operand)
    case Ok(IntValue(v)) => Ok(v)
    case Ok(_) => Err(InvalidOperand)
    case Err(e) => Err(Machine(e))
  }

  function WithFlags(st: State, f: Flags): State {
    st.(flags := f)
  }
}
