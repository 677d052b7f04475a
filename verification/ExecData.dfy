/** The float, conversion and string-buffer handlers of exec.rs. */
module ExecData {
  import opened Wrappers
  import opened Words
  import opened Bytecode
  import opened MachineState
  import opened Text
  import opened Alu
  import opened ExecBase
  import opened ExecCore

  // ---- floats ----

  function FloatArith(st: State, op: Op, fpu: FloatUnit): Out<Flow> {
    var (st, v0) :- Pure(st, ReadFloat(st, op.arg0));
    var (st, v1) :- Pure(st, ReadFloat(st, op.arg1));
    var result := fpu.arith(op.byte, v0, v1);
    if !fpu.finite(result) then Failed(NonFinite)
    else
      var (st, _) :- Store(Write(st, op.arg0, FloatValue(result)));
      Done(st, Next)
  }

  const FSUB: byte := 0x3C

  function FloatComp(st: State, op: Op, fpu: FloatUnit): Out<Flow> {
    var (st, v0) :- Pure(st, ReadFloat(st, op.arg0));
    var (st, v1) :- Pure(st, ReadFloat(st, op.arg1));
    var carry := st.flags.c || !fpu.finite(fpu.arith(FSUB, v0, v1));
    Done(WithFlags(st, Flags(fpu.equal(v0, v1), fpu.less(v0, v1), carry, false)), Next)
  }

  function TextToFloat(st: State, op: Op, fpu: FloatUnit): Out<Flow> {
    var (st, text) :- ReadString(st, op.arg1);
    match fpu.parse(text)
    case Some(f) =>
      if !fpu.finite(f) then Failed(BadFloatString(text))
      else
        var (st, _) :- Store(Write(st, op.arg0, FloatValue(f)));
        Done(st, Next)
    case None => Failed(BadFloatString(text))
  }

  function FixToFloat(st: State, op: Op, fpu: FloatUnit): Out<Flow> {
    var (st, w) :- Pure(st, ArgWidth(op.arg1));
    var (st, raw) :- ReadInt(st, op.arg1, w);
    var (st, _) :- Store(Write(st, op.arg0, FloatValue(fpu.fromInt(Signed(raw, w)))));
    Done(st, Next)
  }

  function FloatToFix(st: State, op: Op, fpu: FloatUnit): Out<Flow> {
    var (st, f) :- Pure(st, ReadFloat(st, op.arg1));
    if !fpu.finite(f) then Failed(NonFinite)
    else
      var result := Low32(fpu.truncate(f));
      var (st, _) :- Store(Write(st, op.arg0, IntValue(result)));
      Done(WithFlags(st, UpdateZS(st.flags.(v := false), result, 4)), Next)
  }

  function FloatToText(st: State, op: Op, fpu: FloatUnit): Out<Flow> {
    var (st, f) :- Pure(st, ReadFloat(st, op.arg1));
    if !fpu.finite(f) then Failed(NonFinite)
    else
      var (st, _) :- WriteString(st, op.arg0, fpu.format(f));
      Done(st, Next)
  }

  /** `y42flt` (0x9D) widens a single, `y82flt` (0x9E) takes the eight bytes as they are. */
  function BytesToFloat(st: State, op: Op, fpu: FloatUnit): Out<Flow> {
    var (st, bytes) :- ReadBytes(st, op.arg1);
    var width := if op.byte == 0x9D then 4 else 8;
    if |bytes| < width then Failed(InvalidOperand)
    else
      var f: F64 := if op.byte == 0x9D then fpu.widen(WordOf(bytes, 4))
                    else WordOf(bytes, 4) as int + TWO_32 * WordOf(bytes[4..], 4) as int;
      var (st, _) :- Store(Write(st, op.arg0, FloatValue(f)));
      Done(st, Next)
  }

  // ---- text and byte conversions ----

  function A2Fix(st: State, op: Op): Out<Flow> {
    var (st, text) :- ReadString(st, op.arg1);
    var (st, _) :- Store(Write(st, op.arg0, IntValue(Clamp32(StringToValue(text)))));
    Done(WithFlags(st, st.flags.(z := false, s := false, v := false)), Next)
  }

  function A2YOp(st: State, op: Op): Out<Flow> {
    var (st, text) :- ReadString(st, op.arg1);
    var (st, _) :- Store(Write(st, op.arg0, BytesValue(A2Y(text))));
    Done(st, Next)
  }

  function Hex2Y(st: State, op: Op): Out<Flow> {
    var (st, text) :- ReadString(st, op.arg1);
    var decoded := HexToBytes(text);
    var (st, _) :- Store(Write(st, op.arg0, BytesValue(if decoded.Some? then decoded.value else [])));
    Done(WithFlags(st, st.flags.(c := decoded.None?)), Next)
  }

  /** `y2bcd` (0x91) and `y2hex` (0x92). */
  function Y2Text(st: State, op: Op): Out<Flow> {
    var (st, bytes) :- ReadBytes(st, op.arg1);
    var (st, _) :- WriteString(st, op.arg0, if op.byte == 0x91 then BcdText(bytes) else HexText(bytes));
    Done(st, Next)
  }

  /** The width `fix2hex` and `fix2dez` format at: one byte for anything but an integer. */
  function FormatWidth(mode: AddrMode, operand: Operand): Result<Width, ExecError> {
    if operand.Imm? || (operand.Reg? && IsInteger(operand.reg.bank)) then ValueWidth(mode, operand) else Ok(1)
  }

  /** `fix2hex` (0x79) and `fix2dez` (0x7A). */
  function Fix2Text(st: State, op: Op): Out<Flow> {
    var (st, w) :- Pure(st, FormatWidth(Mode1(op), op.arg1));
    var (st, raw) :- ReadInt(st, op.arg1, w);
    var text := if op.byte == 0x7A then SignedDecimal(Signed(raw, w)) else "0x" + Hex(raw, 2 * w as nat);
    var (st, _) :- WriteString(st, op.arg0, text);
    Done(st, Next)
  }

  // ---- string buffers ----

  function Scmp(st: State, op: Op): Out<Flow> {
    var (st, a) :- ReadBytes(st, op.arg0);
    var (st, b) :- ReadBytes(st, op.arg1);
    Done(WithFlags(st, st.flags.(z := a == b)), Next)
  }

  function Scat(st: State, op: Op): Out<Flow> {
    var (st, a) :- ReadBytes(st, op.arg0);
    var (st, b) :- ReadBytes(st, op.arg1);
    var (st, _) :- Store(Write(st, op.arg0, BytesValue(a + b)));
    Done(st, Next)
  }

  function Scut(st: State, op: Op): Out<Flow> {
    var (st, data) :- ReadBytes(st, op.arg0);
    var (st, n) :- Pure(st, ReadValue(st, op.arg1));
    var (st, _) :- Store(Write(st, op.arg0, BytesValue(if n > |data| then [] else data[..|data| - n])));
    Done(st, Next)
  }

  function BufferLen(st: State, operand: Operand): Result<u32, ExecError> {
    match Read(st, operand)
    case Ok(BytesValue(b)) => Ok(Low32(|b|))
    case Ok(_) => Err(InvalidOperand)
    case Err(e) => Err(Machine(e))
  }

  /** `GetDataLen`: a register's width, or a buffer's raw length. */
  function DataLen(st: State, operand: Operand): Result<u32, ExecError> {
    match operand
    case Str(_) => BufferLen(st, operand)
    case Reg(reg) => if reg.bank.S? then BufferLen(st, operand) else ArgWidth(operand)
    case _ => Err(InvalidOperand)
  }

  function Slen(st: State, op: Op): Out<Flow> {
    var (st, w) :- Pure(st, ArgWidth(op.arg0));
    var (st, n) :- Pure(st, DataLen(st, op.arg1));
    Settle(st, op.arg0, n, w)
  }

  function Strlen(st: State, op: Op): Out<Flow> {
    var (st, w) :- Pure(st, ArgWidth(op.arg0));
    var (st, text) :- ReadString(st, op.arg1);
    Settle(st, op.arg0, Low32(|text|), w)
  }

  /** The base register and start of an operand indexed without a length. */
  function BaseAndStart(st: State, operand: Operand): Result<(RegId, u32), ExecError> {
    if !operand.Indexed? || operand.len.Some? then Err(InvalidOperand)
    else
      match operand.index
      case ImmIndex(v) => Ok((operand.base, Low32(v)))
      case RegIndex(reg) =>
        var start :- ReadValue(st, Reg(reg));
        Ok((operand.base, start))
  }

  function Spaste(st: State, op: Op): Out<Flow> {
    var (st, target) :- Pure(st, BaseAndStart(st, op.arg0));
    var (st, dest) :- ReadBytes(st, Reg(target.0));
    var (st, source) :- ReadBytes(st, op.arg1);
    var start := target.1;
    if start >= |dest| then Done(st, Next)
    else
      var (st, _) :- Store(Write(st, Reg(target.0), BytesValue(dest[..start] + source + dest[start..])));
      Done(st, Next)
  }

  /** `data` without its bytes in `[start, start + n)`. */
  function Erase(data: seq<byte>, start: nat, n: nat): seq<byte> {
    if start >= |data| then data else data[..start] + data[Min(start + n, |data|)..]
  }

  function Serase(st: State, op: Op): Out<Flow> {
    var (st, target) :- Pure(st, BaseAndStart(st, op.arg0));
    var (st, data) :- ReadBytes(st, Reg(target.0));
    var (st, n) :- Pure(st, ReadValue(st, op.arg1));
    var (st, _) :- Store(Write(st, Reg(target.0), BytesValue(Erase(data, target.1, n))));
    Done(st, Next)
  }

  function Strcat(st: State, op: Op): Out<Flow> {
    var (st, s) :- ReadString(st, op.arg0);
    var (st, t) :- ReadString(st, op.arg1);
    var (st, _) :- WriteString(st, op.arg0, s + t);
    Done(st, Next)
  }

  function Strcmp(st: State, op: Op): Out<Flow> {
    var (st, a) :- ReadString(st, op.arg0);
    var (st, b) :- ReadString(st, op.arg1);
    Done(WithFlags(st, st.flags.(z := a != b)), Next)
  }
}
