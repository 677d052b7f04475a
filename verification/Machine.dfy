/** The machine as the source keeps it (machine.rs): registers and buffers changed in place. */
module Machine {
  import opened Wrappers
  import opened Words
  import opened Bytecode
  import opened MachineState
  import opened MachineLaws
  import opened ExecBase

  /** Exchanging ends inwards reverses the slice. */
  lemma MirrorIsReversed(grown: seq<byte>, data: seq<byte>, start: nat, len: nat)
    requires |data| == |grown| && start + len <= |grown|
    requires forall k :: start <= k < start + len / 2 || start + len - len / 2 <= k < start + len ==>
               data[k] == grown[2 * start + len - 1 - k]
    requires forall k :: 0 <= k < |data| &&
                         !(start <= k < start + len / 2 || start + len - len / 2 <= k < start + len) ==>
               data[k] == grown[k]
    ensures data == grown[..start] + Reversed(grown[start..start + len]) + grown[start + len..]
  {
    var slice := grown[start..start + len];
    forall k | start <= k < start + len
      ensures data[k] == Reversed(slice)[k - start]
    {
      ReversedAt(slice, k - start);
    }
  }

  /** A slice reversed by exchanging its ends inwards. */
  method ReverseSlice(bytes: seq<byte>, start: nat, len: nat) returns (data: seq<byte>)
    requires start + len <= |bytes|
    ensures data == bytes[..start] + Reversed(bytes[start..start + len]) + bytes[start + len..]
  {
    data := bytes;
    for i := 0 to len / 2
      invariant |data| == |bytes|
      invariant forall k :: start <= k < start + i || start + len - i <= k < start + len ==>
                  data[k] == bytes[2 * start + len - 1 - k]
      invariant forall k :: 0 <= k < |data| && !(start <= k < start + i || start + len - i <= k < start + len) ==>
                  data[k] == bytes[k]
    {
      var lo, hi := start + i, start + len - 1 - i;
      data := data[lo := data[hi]][hi := data[lo]];
    }
    MirrorIsReversed(bytes, data, start, len);
  }

  /** `v` without its `i` low bytes. */
  function Shifted8(v: nat, i: nat): nat {
    if i == 0 then v else Shifted8(v, i - 1) / 0x100
  }

  lemma {:induction false} ShiftedLater(v: nat, i: nat)
    requires i > 0
    ensures Shifted8(v / 0x100, i - 1) == Shifted8(v, i)
  {
    if i > 1 {
      ShiftedLater(v, i - 1);
    }
  }

  lemma {:induction false} LeBytesSnoc(v: nat, i: nat)
    ensures LeBytes(v, i + 1) == LeBytes(v, i) + [Shifted8(v, i) % 0x100]
  {
    if i > 0 {
      LeBytesSnoc(v / 0x100, i - 1);
      ShiftedLater(v, i);
    }
  }

  /** Writing the byte after those already stored. */
  lemma NextByte(was: seq<byte>, at: nat, stored: seq<byte>, next: byte)
    requires at + |stored| < |was|
    ensures (was[..at] + stored + was[at + |stored|..])[at + |stored| := next]
         == was[..at] + (stored + [next]) + was[at + |stored| + 1..]
  {
  }

  lemma StoreIsLe(was: RegFile, at: nat, n: Width, v: u32)
    requires at + n <= 32
    ensures StoreWord(was, at, n, v) == was[..at] + LeBytes(v, n) + was[at + n..]
  {
    var q1 := v / 0x100;
    var q2 := q1 / 0x100;
    assert LeBytes(v, n) == [v % 0x100] + LeBytes(q1, n - 1);
    if n >= 2 {
      assert LeBytes(q1, n - 1) == [q1 % 0x100] + LeBytes(q2, n - 2);
    }
    if n == 4 {
      assert LeBytes(q2, 2) == [q2 % 0x100, q2 / 0x100 % 0x100];
    }
  }

  class Machine {
    const regs: array<byte>
    const s: array<seq<byte>>
    const f: array<F64>
    var flags: Flags
    var dataStack: seq<byte>
    var pc: nat
    var trapBit: Option<u32>
    var trapMask: u32

    ghost predicate Valid() {
      && regs.Length == 32 && s.Length == 16 && f.Length == 8
      && (regs as object) != (f as object) && (regs as object) != (s as object) && (s as object) != (f as object)
    }

    ghost function Repr(): set<object> {
      {this, regs, s, f}
    }

    /** The state this machine is in. */
    ghost function Model(): State
      requires Valid()
      reads Repr()
    {
      State(regs[..], s[..], f[..], flags, dataStack, pc, trapBit, trapMask)
    }

    /** A specified outcome came about: the same value in the specified state, or the same fault. */
    ghost predicate Does<T(!new)>(spec: Out<T>, r: Result<T, ExecError>)
      requires Valid()
      reads Repr()
    {
      match spec
      case Done(st, v) => r == Ok(v) && Model() == st
      case Failed(e) => r == Err(e)
    }

    /** A store came about, or failed and left the machine alone. */
    ghost predicate Stores(spec: Result<State, MachineError>, r: Result<(), MachineError>, before: State)
      requires Valid()
      reads Repr()
    {
      match spec
      case Ok(st) => r == Ok(()) && Model() == st
      case Err(e) => r == Err(e) && Model() == before
    }

    constructor ()
      ensures Valid() && fresh(Repr())
      ensures Model() == Init()
    {
      regs := new byte[32](_ => 0);
      s := new seq<byte>[16](_ => []);
      f := new F64[8](_ => 0);
      flags := NO_FLAGS;
      dataStack, pc, trapBit, trapMask := [], 0, None, 0;
    }

    method ReadReg(reg: RegId) returns (r: Result<Value, MachineError>)
      requires Valid()
      ensures r == MachineState.ReadReg(Model(), reg)
    {
      if !Exists(reg) {
        return Err(OutOfRange(reg));
      }
      var n := reg.idx;
      match reg.bank {
        case B => return Ok(IntValue(regs[n]));
        case I => return Ok(IntValue(regs[2 * n] as int + 0x100 * regs[2 * n + 1] as int));
        case L =>
          return Ok(IntValue(regs[4 * n] as int + 0x100 * regs[4 * n + 1] as int + 0x1_0000 * regs[4 * n + 2] as int
                             + 0x100_0000 * regs[4 * n + 3] as int));
        case S => return Ok(BytesValue(s[n]));
        case F => return Ok(FloatValue(f[n]));
      }
    }

    /** The bytes of an integer store, least significant first, into the shared file. */
    method StoreLe(at: nat, n: Width, v: u32)
      requires Valid() && at + n <= 32
      modifies regs
      ensures Model() == old(Model()).(regs := StoreWord(old(regs[..]), at, n, v))
    {
      hide StoreWord, LeBytes;
      ghost var was := regs[..];
      var rest: nat := v;
      for i := 0 to n as int
        invariant regs[..] == was[..at] + LeBytes(v, i) + was[at + i..]
        invariant rest == Shifted8(v, i)
      {
        LeBytesSnoc(v, i);
        NextByte(was, at, LeBytes(v, i), rest % 0x100);
        regs[at + i] := rest % 0x100;
        rest := rest / 0x100;
      }
      StoreIsLe(was, at, n, v);
    }

    method WriteReg(reg: RegId, value: Value) returns (r: Result<(), MachineError>)
      requires Valid()
      modifies regs, s, f
      ensures Stores(MachineState.WriteReg(old(Model()), reg, value), r, old(Model()))
    {
      match value {
        case IntValue(v) =>
          if !IsInteger(reg.bank) {
            return Err(Unsupported);
          }
          if !Exists(reg) {
            return Err(OutOfRange(reg));
          }
          StoreLe(reg.idx * BankWidth(reg.bank), BankWidth(reg.bank), v);
        case BytesValue(bytes) =>
          if !reg.bank.S? {
            return Err(Unsupported);
          }
          if !Exists(reg) {
            return Err(OutOfRange(reg));
          }
          s[reg.idx] := bytes;
        case FloatValue(x) =>
          if !reg.bank.F? {
            return Err(Unsupported);
          }
          if !Exists(reg) {
            return Err(OutOfRange(reg));
          }
          f[reg.idx] := x;
      }
      return Ok(());
    }

    method ResolveIndex(arg: IndexArg) returns (r: Result<nat, MachineError>)
      requires Valid()
      ensures r == MachineState.ResolveIndex(Model(), arg)
    {
      match arg {
        case ImmIndex(v) => return Ok(v);
        case RegIndex(reg) =>
          var value :- ReadReg(reg);
          if !value.IntValue? {
            return Err(Unsupported);
          }
          return Ok(value.v);
      }
    }

    method Read(operand: Operand) returns (r: Result<Value, MachineError>)
      requires Valid()
      ensures r == MachineState.Read(Model(), operand)
    {
      match operand {
        case Imm(v) => return Ok(IntValue(v));
        case Str(bytes) => return Ok(BytesValue(bytes));
        case Reg(reg) => r := ReadReg(reg);
        case NoOperand => return Err(Unsupported);
        case Indexed(base, index, len) => r := ReadIndexed(base, index, len);
      }
    }

    method ReadIndexed(base: RegId, index: IndexArg, len: Option<IndexArg>) returns (r: Result<Value, MachineError>)
      requires Valid()
      ensures r == MachineState.ReadIndexed(Model(), base, index, len)
    {
      if !base.bank.S? {
        return Err(Unsupported);
      }
      if !Exists(base) {
        return Err(OutOfRange(base));
      }
      var data := s[base.idx];
      var at :- ResolveIndex(index);
      match len {
        case None =>
          if at + 1 > ARRAY_MAX_SIZE {
            return Err(IndexOutOfBounds(at, 0));
          }
          return Ok(BytesValue(if at <= |data| then data[at..] else []));
        case Some(arg) =>
          var n :- ResolveIndex(arg);
          if at + n > ARRAY_MAX_SIZE {
            return Err(IndexOutOfBounds(at, n));
          }
          var bytes := seq(n, _ => 0);
          if at < |data| {
            var take := Min(|data| - at, n);
            bytes := data[at..at + take] + bytes[take..];
          }
          assert bytes == ZeroExtended(data, at, n);
          return Ok(BytesValue(bytes));
      }
    }

    method Write(operand: Operand, value: Value) returns (r: Result<(), MachineError>)
      requires Valid()
      modifies regs, s, f
      ensures Stores(MachineState.Write(old(Model()), operand, value), r, old(Model()))
    {
      match operand {
        case Reg(reg) => r := WriteReg(reg, value);
        case Indexed(_, _, _) => r := WriteIndexed(operand, value, 1);
        case _ => return Err(Unsupported);
      }
    }

    method WriteIndexed(operand: Operand, value: Value, len: nat) returns (r: Result<(), MachineError>)
      requires Valid()
      modifies s
      ensures Stores(MachineState.WriteIndexed(old(Model()), operand, value, len), r, old(Model()))
    {
      hide LeBytes;
      if !operand.Indexed? || !operand.base.bank.S? {
        return Err(Unsupported);
      }
      var bytes: seq<byte> := [];
      match value {
        case IntValue(v) => bytes := LeBytes(v, len);
        case BytesValue(b) => bytes := b;
        case FloatValue(_) => return Err(Unsupported);
      }
      var at :- ResolveIndex(operand.index);
      if at + |bytes| > ARRAY_MAX_SIZE {
        return Err(IndexOutOfBounds(at, |bytes|));
      }
      if !Exists(operand.base) {
        return Err(OutOfRange(operand.base));
      }
      var i := operand.base.idx;
      var data := s[i];
      if |data| < at + |bytes| {
        data := data + seq(at + |bytes| - |data|, _ => 0);
      }
      s[i] := data[..at] + bytes + data[at + |bytes|..];
      return Ok(());
    }

    /** The in-place reversal of a buffer's slice; the used length stays. */
    method SwapSlice(base: RegId, start: nat, len: nat) returns (r: Result<(), MachineError>)
      requires Valid()
      modifies s
      ensures Stores(SwapBuffer(old(Model()), base, start, len), r, old(Model()))
    {
      if !base.bank.S? {
        return Err(Unsupported);
      }
      if !Exists(base) {
        return Err(OutOfRange(base));
      }
      var data := s[base.idx];
      var used := |data|;
      if |data| < start + len {
        data := data + seq(start + len - |data|, _ => 0);
      }
      data := ReverseSlice(data, start, len);
      s[base.idx] := data[..used];
      return Ok(());
    }
  }
}
