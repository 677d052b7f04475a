/** `step` (exec.rs): one decoded instruction against the machine and the job's context. */
module Executor {
  import opened Wrappers
  import opened Words
  import opened Bytecode
  import opened MachineState
  import opened Alu
  import opened ResultSets
  import opened ExecBase
  import opened ExecCore
  import opened ExecData
  import opened ExecContext

  // ---- the register-plus-increment addressing mode ----

  /** `fold_increment`: the decoder leaves the increment where a length would stand. */
  function Fold(st: State, mode: AddrMode, operand: Operand): Result<Operand, ExecError> {
    if !mode.IdxRegImm? || !operand.Indexed? || operand.len.None? then Ok(operand)
    else
      match (ResolveIndex(st, operand.index), ResolveIndex(st, operand.len.value))
      case (Err(e), _) => Err(Machine(e))
      case (_, Err(e)) => Err(Machine(e))
      case (Ok(index), Ok(increment)) => Ok(Indexed(operand.base, ImmIndex(index + increment), None))
  }

  function FoldOp(st: State, op: Op): Result<Op, ExecError> {
    var arg0 :- Fold(st, Mode0(op), op.arg0);
    var arg1 :- Fold(st, Mode1(op), op.arg1);
    Ok(op.(arg0 := arg0, arg1 := arg1))
  }

  // ---- dispatch ----

  /** The string-buffer and text conversions that need no float unit. */
  function DataStep(st: State, op: Op): Out<Flow> {
    match op.byte
    case 0x20 => Scmp(st, op)
    case 0x21 => Scat(st, op)
    case 0x22 => Scut(st, op)
    case 0x23 => Slen(st, op)
    case 0x24 => Spaste(st, op)
    case 0x25 => Serase(st, op)
    case 0x67 => A2Fix(st, op)
    case 0x79 | 0x7A => Fix2Text(st, op)
    case 0x7E => Strcat(st, op)
    case 0x8C => A2YOp(st, op)
    case 0x8E => Hex2Y(st, op)
    case 0x8F => Strcmp(st, op)
    case 0x90 => Strlen(st, op)
    case 0x91 | 0x92 => Y2Text(st, op)
    case b => Failed(ExecError.Unimplemented(b))
  }

  /** The opcodes that touch nothing but the machine: moves, arithmetic, control, stack. */
  function CoreStep(st: State, op: Op): Out<Flow> {
    match op.byte
    case 0x00 => Move(st, op)
    case 0x01 => Clear(st, op)
    case 0x02 => Comp(st, op)
    case 0x03 => Subb(st, op)
    case 0x04 => Adds(st, op)
    case 0x05 => Mult(st, op)
    case 0x06 => Divs(st, op)
    case 0x07 | 0x08 | 0x09 => BitwiseOp(st, op)
    case 0x0A => Not(st, op)
    case 0x16 => Done(WithFlags(st, st.flags.(c := false)), Next)
    case 0x17 => Done(WithFlags(st, st.flags.(c := true)), Next)
    case 0x18 | 0x19 | 0x1A | 0x1B => Shift(st, op)
    case 0x1C => Done(st, Next)
    case 0x1D => Done(st, EndOfJob)
    case 0x1E => Push(st, op)
    case 0x1F => Pop(st, op)
    case 0x2A => Xsend(st, op)
    case 0x43 => GetMask(st, op)
    case 0x44 => SetMask(st, op)
    case 0x46 => Done(st.(trapBit := None), Next)
    case 0x4B => Failed(Break)
    case 0x50 => Atsp(st, op)
    case 0x51 => Swap(st, op)
    case 0x6B => WaitOp(st, op)
    case _ => DataStep(st, op)
  }

  /** The floats, the job's arguments, and the table reads. */
  function EnvStep(st: State, op: Op, env: Env, cursor: Cursor): Out<Flow> {
    match op.byte
    case 0x3A => TextToFloat(st, op, env.fpu)
    case 0x3B | 0x3C | 0x3D | 0x3E => FloatArith(st, op, env.fpu)
    case 0x55 | 0x56 | 0x57 => Parl(st, op, env.args)
    case 0x58 => Pars(st, op, env.args)
    case 0x68 => FixToFloat(st, op, env.fpu)
    case 0x69 => Parr(st, op, env)
    case 0x7D => Tabget(st, op, env, cursor)
    case 0x7F => Pary(st, op, env.args)
    case 0x80 => Parn(st, op, env.args)
    case 0x87 => FloatToText(st, op, env.fpu)
    case 0x96 => FloatToFix(st, op, env.fpu)
    case 0x9D | 0x9E => BytesToFloat(st, op, env.fpu)
    case 0xA1 => FloatComp(st, op, env.fpu)
    case 0xB6 | 0xB7 => TabSize(st, op, env, cursor)
    case _ => CoreStep(st, op)
  }

  predicate IsCursorOp(b: byte) {
    b in {0x7B, 0x7C, 0x83, 0x9A}
  }

  /** The table selections, which move the cursor. */
  function CursorStep(st: State, op: Op, env: Env, cursor: Cursor): Out<Cursor>
    requires IsCursorOp(op.byte)
  {
    match op.byte
    case 0x7B => Tabset(st, op, env, cursor)
    case 0x83 => Tabline(st, op, env, cursor)
    case _ => Tabseek(st, op, env, cursor)
  }

  const ENEWSET: byte := 0x40
  const ETAG: byte := 0x41

  function Dispatch(st: State, op: Op, env: Env, ctx: Ctx): Out<(Flow, Ctx)> {
    if IsErg(op.byte) then
      var (st, entry) :- Erg(st, op);
      Done(st, (Next, ctx.(sets := PushNamed(ctx.sets, entry.0, entry.1))))
    else if op.byte == ENEWSET then
      Done(st, (Next, ctx.(sets := EnewsetSets(ctx.sets))))
    else if op.byte == ETAG then
      Done(st, (Next, ctx))
    else if IsCursorOp(op.byte) then
      var (st, cursor) :- CursorStep(st, op, env, ctx.cursor);
      Done(st, (Next, ctx.(cursor := cursor)))
    else if IsFlagBranch(op.byte) then
      var (st, flow) :- Branch(st, op, BranchTaken(op.byte, st.flags));
      Done(st, (flow, ctx))
    else if op.byte == 0x47 || op.byte == 0x48 then
      var (st, flow) :- TrapBranch(st, op);
      Done(st, (flow, ctx))
    else
      var (st, flow) :- EnvStep(st, op, env, ctx.cursor);
      Done(st, (flow, ctx))
  }

  /** The entries an instruction pushes: an erg's one, read from the machine it runs on. */
  function Emits(st: State, op: Op): seq<Entry> {
    if !IsErg(op.byte) then []
    else
      var st := st.(pc := op.offset + op.len);
      match FoldOp(st, op)
      case Err(_) => []
      case Ok(folded) =>
        match Erg(st, folded)
        case Done(_, entry) => [entry]
        case Failed(_) => []
  }

  /** One instruction: the counter is advanced past it before its handler runs. */
  function Step(st: State, op: Op, env: Env, ctx: Ctx): Out<(Flow, Ctx)> {
    var st := st.(pc := op.offset + op.len);
    var (st, op) :- Pure(st, FoldOp(st, op));
    Dispatch(st, op, env, ctx)
  }
}
