/**
 The BEST/2 machine's state as a value, and operand access over it (machine.rs). The
 B, I and L banks are little-endian views of one 32-byte register file.
*/
module MachineState {
  import opened Wrappers
  import opened Words
  import opened Bytecode

  /** An IEEE-754 double by its 64 bits; the model never looks inside. */
  type F64 = x: int | 0 <= x < TWO_64

  type RegFile = r: seq<byte> | |r| == 32 witness seq(32, _ => 0)
  type Buffers = s: seq<seq<byte>> | |s| == 16 witness seq(16, _ => [])
  type Floats = f: seq<F64> | |f| == 8 witness seq(8, _ => 0)

  datatype Flags = Flags(z: bool, s: bool, c: bool, v: bool)

  datatype State = State(
    regs: RegFile,
    s: Buffers,
    f: Floats,
    flags: Flags,
    stack: seq<byte>,
    pc: nat,
    trapBit: Option<u32>,
    trapMask: u32)

  datatype Value = IntValue(v: u32) | FloatValue(f: F64) | BytesValue(b: seq<byte>)

  datatype MachineError =
    | OutOfRange(reg: RegId)
    | IndexOutOfBounds(index: nat, len: nat)
    | Unsupported

  const ARRAY_MAX_SIZE: nat := 1023

  const NO_FLAGS := Flags(false, false, false, false)

  function Init(): State {
    State(seq(32, _ => 0), seq(16, _ => []), seq(8, _ => 0), NO_FLAGS, [], 0, None, 0)
  }

  // ---- registers ----

  /** The width of an integer bank's registers. */
  function BankWidth(bank: RegBank): Width
    requires bank.B? || bank.I? || bank.L?
  {
    match bank
    case B => 1
    case I => 2
    case L => 4
  }

  predicate IsInteger(bank: RegBank) {
    bank.B? || bank.I? || bank.L?
  }

  /** The little-endian number in `n` bytes of the register file at `at`. */
  function WordAt(regs: RegFile, at: nat, n: Width): u32
    requires at + n <= 32
  {
    if n == 1 then regs[at]
    else if n == 2 then regs[at] as int + 0x100 * regs[at + 1] as int
    else
      regs[at] as int + 0x100 * regs[at + 1] as int + 0x1_0000 * regs[at + 2] as int
      + 0x100_0000 * regs[at + 3] as int
  }

  /** The register file with the low `n` bytes of `v` stored at `at`. */
  function StoreWord(regs: RegFile, at: nat, n: Width, v: u32): RegFile
    requires at + n <= 32
  {
    if n == 1 then regs[at := v % 0x100]
    else if n == 2 then regs[at := v % 0x100][at + 1 := (v / 0x100) % 0x100]
    else
      regs[at := v % 0x100][at + 1 := v / 0x100 % 0x100]
          [at + 2 := v / 0x100 / 0x100 % 0x100][at + 3 := v / 0x100 / 0x100 / 0x100 % 0x100]
  }

  function ReadReg(st: State, reg: RegId): Result<Value, MachineError> {
    if !Exists(reg) then Err(OutOfRange(reg))
    else
      match reg.bank
      case S => Ok(BytesValue(st.s[reg.idx]))
      case F => Ok(FloatValue(st.f[reg.idx]))
      case _ =>
        var n := BankWidth(reg.bank);
        Ok(IntValue(WordAt(st.regs, reg.idx * n, n)))
  }

  /** Operand stores leave control state alone: program counter, stack, flags and traps. */
  predicate Keeps(st: State, st': State) {
    && st'.pc == st.pc && st'.stack == st.stack && st'.flags == st.flags
    && st'.trapBit == st.trapBit && st'.trapMask == st.trapMask
  }

  function WriteReg(st: State, reg: RegId, value: Value): (r: Result<State, MachineError>)
    ensures r.Ok? ==> Keeps(st, r.value)
  {
    match value
    case IntValue(v) =>
      if !IsInteger(reg.bank) then Err(Unsupported)
      else if !Exists(reg) then Err(OutOfRange(reg))
      else
        var n := BankWidth(reg.bank);
        Ok(st.(regs := StoreWord(st.regs, reg.idx * n, n, v)))
    case BytesValue(b) =>
      if !reg.bank.S? then Err(Unsupported)
      else if !Exists(reg) then Err(OutOfRange(reg))
      else Ok(st.(s := st.s[reg.idx := b]))
    case FloatValue(f) =>
      if !reg.bank.F? then Err(Unsupported)
      else if !Exists(reg) then Err(OutOfRange(reg))
      else Ok(st.(f := st.f[reg.idx := f]))
  }

  // ---- indexed access to the string buffers ----

  function ResolveIndex(st: State, arg: IndexArg): Result<nat, MachineError> {
    match arg
    case ImmIndex(v) => Ok(v)
    case RegIndex(reg) =>
      match ReadReg(st, reg)
      case Ok(IntValue(v)) => Ok(v)
      case Ok(_) => Err(Unsupported)
      case Err(e) => Err(e)
  }

  /** `n` bytes of `data` from `at`, reading zero past its end. */
  function ZeroExtended(data: seq<byte>, at: nat, n: nat): seq<byte> {
    var have := if at < |data| then Min(|data| - at, n) else 0;
    (if have > 0 then data[at..at + have] else []) + seq(n - have, _ => 0)
  }

  function ReadIndexed(st: State, base: RegId, index: IndexArg, len: Option<IndexArg>): Result<Value, MachineError> {
    if !base.bank.S? then Err(Unsupported)
    else if !Exists(base) then Err(OutOfRange(base))
    else
      var data := st.s[base.idx];
      var at :- ResolveIndex(st, index);
      match len
      case None =>
        if at + 1 > ARRAY_MAX_SIZE then Err(IndexOutOfBounds(at, 0))
        else Ok(BytesValue(if at <= |data| then data[at..] else []))
      case Some(arg) =>
        var n :- ResolveIndex(st, arg);
        if at + n > ARRAY_MAX_SIZE then Err(IndexOutOfBounds(at, n))
        else Ok(BytesValue(ZeroExtended(data, at, n)))
  }

  function Read(st: State, operand: Operand): Result<Value, MachineError> {
    match operand
    case Imm(v) => Ok(IntValue(v))
    case Str(bytes) => Ok(BytesValue(bytes))
    case Reg(reg) => ReadReg(st, reg)
    case NoOperand => Err(Unsupported)
    case Indexed(base, index, len) => ReadIndexed(st, base, index, len)
  }

  /** `data` grown with zeros to at least `n` bytes. */
  function Grown(data: seq<byte>, n: nat): seq<byte> {
    if |data| < n then data + seq(n - |data|, _ => 0) else data
  }

  /** `data` with `bytes` stored over `[at, at + |bytes|)`, growing it as needed. */
  function Overlay(data: seq<byte>, at: nat, bytes: seq<byte>): seq<byte> {
    var grown := Grown(data, at + |bytes|);
    grown[..at] + bytes + grown[at + |bytes|..]
  }

  /** What an indexed store writes: `len` little-endian bytes, or a buffer's own bytes. */
  function StoredBytes(value: Value, len: nat): Result<seq<byte>, MachineError> {
    match value
    case IntValue(v) => Ok(LeBytes(v, len))
    case BytesValue(b) => Ok(b)
    case FloatValue(_) => Err(Unsupported)
  }

  function WriteIndexed(st: State, operand: Operand, value: Value, len: nat): (r: Result<State, MachineError>)
    ensures r.Ok? ==> Keeps(st, r.value)
  {
    if !operand.Indexed? || !operand.base.bank.S? then Err(Unsupported)
    else
      var bytes :- StoredBytes(value, len);
      var at :- ResolveIndex(st, operand.index);
      if at + |bytes| > ARRAY_MAX_SIZE then Err(IndexOutOfBounds(at, |bytes|))
      else if !Exists(operand.base) then Err(OutOfRange(operand.base))
      else
        var i := operand.base.idx;
        Ok(st.(s := st.s[i := Overlay(st.s[i], at, bytes)]))
  }

  function Write(st: State, operand: Operand, value: Value): (r: Result<State, MachineError>)
    ensures r.Ok? ==> Keeps(st, r.value)
  {
    match operand
    case Reg(reg) => WriteReg(st, reg, value)
    case Indexed(_, _, _) => WriteIndexed(st, operand, value, 1)
    case _ => Err(Unsupported)
  }

  function Reversed(s: seq<byte>): (r: seq<byte>)
    ensures |r| == |s|
  {
    if s == [] then [] else Reversed(s[1..]) + [s[0]]
  }

  /** `data` with `[at, at + n)` of its zero-extension reversed, cut back to its length. */
  function SwapSlice(data: seq<byte>, at: nat, n: nat): (r: seq<byte>)
    ensures |r| == |data|
  {
    var grown := Grown(data, at + n);
    (grown[..at] + Reversed(grown[at..at + n]) + grown[at + n..])[..|data|]
  }

  function SwapBuffer(st: State, base: RegId, at: nat, n: nat): (r: Result<State, MachineError>)
    ensures r.Ok? ==> Keeps(st, r.value)
  {
    if !base.bank.S? then Err(Unsupported)
    else if !Exists(base) then Err(OutOfRange(base))
    else Ok(st.(s := st.s[base.idx := SwapSlice(st.s[base.idx], at, n)]))
  }
}

/** Laws of the register file and of the string buffers. */
module MachineLaws {
  import opened Wrappers
  import opened Words
  import Arithmetic
  import opened Bytecode
  import opened MachineState

  // ---- the overlapping integer banks ----

  /** The file bytes a register occupies. */
  function Low(reg: RegId): nat
    requires IsInteger(reg.bank)
  {
    reg.idx * BankWidth(reg.bank)
  }

  function IntOf(st: State, reg: RegId): u32
    requires IsInteger(reg.bank) && Exists(reg)
  {
    WordAt(st.regs, Low(reg), BankWidth(reg.bank))
  }

  /** A fresh machine: every register zero or empty, nothing on the stack, no trap recorded and none masked. */
  lemma FreshMachine(reg: RegId)
    requires Exists(reg)
    ensures IsInteger(reg.bank) ==> IntOf(Init(), reg) == 0
    ensures reg.bank.S? ==> Init().s[reg.idx] == []
    ensures reg.bank.F? ==> Init().f[reg.idx] == 0
    ensures Init().flags == Flags(false, false, false, false) && Init().stack == [] && Init().pc == 0
    ensures Init().trapBit == None && Init().trapMask == 0
  {
  }

  /** The banks agree in every state: an L is its two I's, an I its two B's. */
  lemma BanksOverlap(st: State, k: nat)
    requires k < 8
    ensures IntOf(st, RegId(L, k)) == IntOf(st, RegId(I, 2 * k)) + 0x1_0000 * IntOf(st, RegId(I, 2 * k + 1))
    ensures IntOf(st, RegId(I, 2 * k)) == IntOf(st, RegId(B, 4 * k)) + 0x100 * IntOf(st, RegId(B, 4 * k + 1))
    ensures IntOf(st, RegId(I, 2 * k + 1)) == IntOf(st, RegId(B, 4 * k + 2)) + 0x100 * IntOf(st, RegId(B, 4 * k + 3))
  {
  }

  lemma DigitsOf(v: u32)
    ensures var (q1, q2, q3) := (v / 0x100, v / 0x100 / 0x100, v / 0x100 / 0x100 / 0x100);
            && v % 0x1_0000 == v % 0x100 + 0x100 * (q1 % 0x100)
            && v == v % 0x100 + 0x100 * (q1 % 0x100) + 0x1_0000 * (q2 % 0x100) + 0x100_0000 * (q3 % 0x100)
  {
    var q1, q2, q3 := v / 0x100, v / 0x100 / 0x100, v / 0x100 / 0x100 / 0x100;
    assert v == 0x100 * q1 + v % 0x100;
    assert q1 == 0x100 * q2 + q1 % 0x100;
    assert q2 == 0x100 * q3 + q2 % 0x100;
    var low := v % 0x100 + 0x100 * (q1 % 0x100);
    assert v == 0x1_0000 * q2 + low && 0 <= low < 0x1_0000;
    Arithmetic.DivUnique(v, 0x1_0000, q2, low);
  }

  lemma StoredWord(regs: RegFile, at: nat, n: Width, v: u32)
    requires at + n <= 32
    ensures WordAt(StoreWord(regs, at, n, v), at, n) == v % Span(n)
  {
    DigitsOf(v);
  }

  /**
   A register write reads back truncated to its width, and changes exactly the bytes it
   names: every other byte register, and every wider register not overlapping it, keeps
   its value.
  */
  lemma WriteThenRead(st: State, reg: RegId, v: u32, other: RegId)
    requires IsInteger(reg.bank) && Exists(reg) && IsInteger(other.bank) && Exists(other)
    ensures WriteReg(st, reg, IntValue(v)).Ok?
    ensures var st' := WriteReg(st, reg, IntValue(v)).value;
            && IntOf(st', reg) == v % Span(BankWidth(reg.bank))
            && (Low(other) + BankWidth(other.bank) <= Low(reg) || Low(reg) + BankWidth(reg.bank) <= Low(other) ==>
                  IntOf(st', other) == IntOf(st, other))
            && st'.s == st.s && st'.f == st.f
  {
    var n, at := BankWidth(reg.bank), Low(reg);
    var st' := WriteReg(st, reg, IntValue(v)).value;
    forall i | 0 <= i < 32 && !(at <= i < at + n)
      ensures st'.regs[i] == st.regs[i]
    {
    }
    StoredWord(st.regs, at, n, v);
  }

  // ---- string buffers as zero-extended memories ----

  /** The byte at `i` of the memory a buffer stands for: zero from its used length on. */
  function Mem(data: seq<byte>, i: nat): byte {
    if i < |data| then data[i] else 0
  }

  lemma GrownMem(data: seq<byte>, n: nat, i: nat)
    ensures Mem(Grown(data, n), i) == Mem(data, i)
  {
  }

  /** An index is its number, or what its integer register holds; other registers are no index. */
  lemma IndexIs(st: State, reg: RegId, v: nat)
    ensures ResolveIndex(st, ImmIndex(v)) == Ok(v)
    ensures IsInteger(reg.bank) && Exists(reg) ==> ResolveIndex(st, RegIndex(reg)) == Ok(IntOf(st, reg))
    ensures !IsInteger(reg.bank) && Exists(reg) ==> ResolveIndex(st, RegIndex(reg)) == Err(Unsupported)
  {
    hide WordAt;
  }

  /** A read without a length goes to the end of the used bytes, or faults from the limit on. */
  lemma IndexedReadToEnd(st: State, base: RegId, index: IndexArg, at: nat)
    requires base.bank.S? && Exists(base) && ResolveIndex(st, index) == Ok(at)
    ensures var (r, data) := (Read(st, Indexed(base, index, None)), st.s[base.idx]);
            if at >= 1023 then r == Err(IndexOutOfBounds(at, 0))
            else r == Ok(BytesValue(if at < |data| then data[at..] else []))
  {
  }

  /** A length-mode indexed read returns exactly the zero-extended span, or a bounds fault. */
  lemma IndexedReadSpan(st: State, base: RegId, index: IndexArg, len: IndexArg)
    requires base.bank.S? && Exists(base) && ResolveIndex(st, index).Ok? && ResolveIndex(st, len).Ok?
    ensures var (at, n) := (ResolveIndex(st, index).value, ResolveIndex(st, len).value);
            var r := Read(st, Indexed(base, index, Some(len)));
            if at + n > 1023 then r == Err(IndexOutOfBounds(at, n))
            else r.Ok? && r.value.BytesValue? && |r.value.b| == n &&
                 forall k :: 0 <= k < n ==> r.value.b[k] == Mem(st.s[base.idx], at + k)
  {
  }

  /** A store updates exactly its span of the memory and never shrinks the used length. */
  lemma OverlaySpan(data: seq<byte>, at: nat, bytes: seq<byte>, i: nat)
    ensures |Overlay(data, at, bytes)| == Max(|data|, at + |bytes|)
    ensures Mem(Overlay(data, at, bytes), i) == if at <= i < at + |bytes| then bytes[i - at] else Mem(data, i)
  {
  }

  /**
   An indexed write is that store on the one buffer it names, or a bounds fault: of a buffer's
   own bytes, or of an integer's `len` little-endian ones.
  */
  lemma IndexedWriteSpan(st: State, operand: Operand, value: Value, len: nat)
    requires operand.Indexed? && operand.base.bank.S? && Exists(operand.base) && ResolveIndex(st, operand.index).Ok?
    requires !value.FloatValue?
    ensures var at := ResolveIndex(st, operand.index).value;
            var bytes := if value.IntValue? then LeBytes(value.v, len) else value.b;
            var r := WriteIndexed(st, operand, value, len);
            if at + |bytes| > 1023 then r == Err(IndexOutOfBounds(at, |bytes|))
            else
              && r.Ok? && Keeps(st, r.value) && r.value.regs == st.regs && r.value.f == st.f
              && (forall k :: 0 <= k < 16 && k != operand.base.idx ==> r.value.s[k] == st.s[k])
              && |r.value.s[operand.base.idx]| == Max(|st.s[operand.base.idx]|, at + |bytes|)
              && forall i: nat :: Mem(r.value.s[operand.base.idx], i) ==
                   if at <= i < at + |bytes| then bytes[i - at] else Mem(st.s[operand.base.idx], i)
  {
    hide Overlay, Mem, LeBytes, ResolveIndex;
    var at := ResolveIndex(st, operand.index).value;
    var bytes := if value.IntValue? then LeBytes(value.v, len) else value.b;
    forall i: nat {
      OverlaySpan(st.s[operand.base.idx], at, bytes, i);
    }
    OverlaySpan(st.s[operand.base.idx], at, bytes, 0);
  }

  /** A plain store through an index takes an integer's low byte, and a buffer whole. */
  lemma PlainStore(st: State, operand: Operand, v: u32, bytes: seq<byte>, at: nat)
    requires operand.Indexed? && operand.base.bank.S? && Exists(operand.base)
    requires ResolveIndex(st, operand.index) == Ok(at)
    ensures Write(st, operand, IntValue(v)) ==
            if at + 1 > 1023 then Err(IndexOutOfBounds(at, 1))
            else Ok(st.(s := st.s[operand.base.idx := Overlay(st.s[operand.base.idx], at, [v % 0x100])]))
    ensures Write(st, operand, BytesValue(bytes)) ==
            if at + |bytes| > 1023 then Err(IndexOutOfBounds(at, |bytes|))
            else Ok(st.(s := st.s[operand.base.idx := Overlay(st.s[operand.base.idx], at, bytes)]))
    ensures Write(st, operand, FloatValue(0)) == Err(Unsupported)
  {
    hide Overlay, ResolveIndex;
    assert LeBytes(v, 1) == [v % 0x100];
  }

  lemma {:induction false} ReversedAt(s: seq<byte>, k: nat)
    requires k < |s|
    ensures Reversed(s)[k] == s[|s| - 1 - k]
  {
    if k < |s| - 1 {
      ReversedAt(s[1..], k);
    }
  }

  /** Swap mirrors its span of the memory into the used bytes and keeps the used length. */
  lemma SwapSpan(data: seq<byte>, at: nat, n: nat, i: nat)
    requires i < |data|
    ensures SwapSlice(data, at, n)[i] == if at <= i < at + n then Mem(data, 2 * at + n - 1 - i) else data[i]
  {
    var grown := Grown(data, at + n);
    if at <= i < at + n {
      ReversedAt(grown[at..at + n], i - at);
      GrownMem(data, at + n, 2 * at + n - 1 - i);
    }
  }

  /**
   Swapping twice restores the buffer exactly when the bytes an overrunning slice pushes
   past the used length are zeros; a slice inside the used bytes pushes none.
  */
  lemma SwapTwice(data: seq<byte>, at: nat, n: nat)
    ensures SwapSlice(SwapSlice(data, at, n), at, n) == data
            <==> forall i :: at <= i < |data| && i < 2 * at + n - |data| ==> data[i] == 0
    ensures at + n <= |data| ==> SwapSlice(SwapSlice(data, at, n), at, n) == data
  {
    var once := SwapSlice(data, at, n);
    var twice := SwapSlice(once, at, n);
    forall i | 0 <= i < |data|
      ensures twice[i] == if at <= i < at + n && i < 2 * at + n - |data| then 0 else data[i]
    {
      SwapSpan(once, at, n, i);
      if at <= i < at + n && 2 * at + n - 1 - i < |data| {
        SwapSpan(data, at, n, 2 * at + n - 1 - i);
      }
      if !(at <= i < at + n) {
        SwapSpan(data, at, n, i);
      }
    }
    if forall i :: at <= i < |data| && i < 2 * at + n - |data| ==> data[i] == 0 {
      assert twice == data;
    }
    if twice == data {
      forall i | at <= i < |data| && i < 2 * at + n - |data|
        ensures data[i] == 0
      {
        assert twice[i] == data[i];
      }
    }
  }
}
