/**
 What the float opcodes compute, for any float unit: exactly when they fault, what branches
 read after a comparison, and which conversions undo each other when the unit's own do.
*/
module FloatLaws {
  import opened Wrappers
  import opened Words
  import opened Arithmetic
  import opened Bytecode
  import opened MachineState
  import opened MachineLaws
  import opened Text
  import opened TextLaws
  import opened Alu
  import opened AluLaws
  import opened ExecBase
  import opened ExecData
  import opened OpcodeLaws
  import opened TextOpcodeLaws

  predicate IsFloat(reg: RegId) {
    reg.bank.F? && Exists(reg)
  }

  /** Arithmetic never leaves a non-finite number: it faults exactly then, and else changes one register only. */
  lemma ArithmeticStaysFinite(st: State, op: Op, fpu: FloatUnit, a: RegId, b: RegId)
    requires IsFloat(a) && IsFloat(b) && op.arg0 == Reg(a) && op.arg1 == Reg(b)
    ensures var x := fpu.arith(op.byte, st.f[a.idx], st.f[b.idx]);
            var out := FloatArith(st, op, fpu);
            && (out.Failed? <==> !fpu.finite(x)) && (out.Failed? ==> out.error == NonFinite)
            && (out.Done? ==> out.st.f[a.idx] == x && fpu.finite(out.st.f[a.idx]) &&
                              out.st == st.(f := st.f[a.idx := x]))
  {
  }

  /** The unit's comparison is one: equal numbers are not less. */
  ghost predicate Ordered(fpu: FloatUnit) {
    forall x, y :: fpu.equal(x, y) ==> !fpu.less(x, y)
  }

  /**
   After `fcomp`, jz decides equality, jl less and jg neither, for any ordered unit; Carry only
   ever turns on, exactly when the difference is not finite.
  */
  lemma FloatCompareThenBranch(st: State, op: Op, fpu: FloatUnit, a: RegId, b: RegId)
    requires IsFloat(a) && IsFloat(b) && op.arg0 == Reg(a) && op.arg1 == Reg(b) && Ordered(fpu)
    ensures var (x, y) := (st.f[a.idx], st.f[b.idx]);
            var out := FloatComp(st, op, fpu);
            && out == Done(st.(flags := out.st.flags), Next)
            && (BranchTaken(JZ, out.st.flags) <==> fpu.equal(x, y))
            && (BranchTaken(JL, out.st.flags) <==> fpu.less(x, y))
            && (BranchTaken(JG, out.st.flags) <==> !fpu.less(x, y) && !fpu.equal(x, y))
            && (BranchTaken(JC, out.st.flags) <==> st.flags.c || !fpu.finite(fpu.arith(FSUB, x, y)))
  {
  }

  lemma SignedRange(v: u32, w: Width)
    requires v < Span(w)
    ensures -TWO_31 <= Signed(v, w) < TWO_31
    ensures Signed(v, w) % Span(w) == v
  {
    SignedOf(v, w);
    var x := Signed(v, w);
    Residue(x, w, if x < 0 then -1 else 0, v);
  }

  /** The unit represents every 32-bit integer exactly. */
  ghost predicate HoldsWords(fpu: FloatUnit) {
    forall x: int :: -TWO_31 <= x < TWO_31 ==> fpu.finite(fpu.fromInt(x)) && fpu.truncate(fpu.fromInt(x)) == x
  }

  /** `fix2flt` then `flt2fix` restores a register of any width, if the unit holds 32-bit integers. */
  lemma IntegerThroughFloat(st: State, toFloat: Op, toFix: Op, fpu: FloatUnit, reg: RegId, f: RegId, back: RegId)
    requires IsWord(reg) && IsFloat(f) && IsWord(back) && back.bank == reg.bank && HoldsWords(fpu)
    requires toFloat.arg0 == Reg(f) && toFloat.arg1 == Reg(reg) && toFix.arg0 == Reg(back) && toFix.arg1 == Reg(f)
    ensures var mid := FixToFloat(st, toFloat, fpu);
            mid.Done? && var out := FloatToFix(mid.st, toFix, fpu); out.Done? && IntOf(out.st, back) == IntOf(st, reg)
  {
    hide ReadInt, WordAt, StoreWord, UpdateZS, Low32, Signed;
    var w, v := BankWidth(reg.bank), IntOf(st, reg);
    RegisterWord(st, reg);
    var x := Signed(v, w);
    SignedRange(v, w);
    var mid := FixToFloat(st, toFloat, fpu).st;
    assert mid.f[f.idx] == fpu.fromInt(x);
    WriteThenRead(mid, back, Low32(x), back);
    Low32Residue(x, w);
  }

  /** `flt2a` then `a2flt` restores a finite float whose text the unit parses back, if the text is storable. */
  lemma FloatThroughText(st: State, toText: Op, toFloat: Op, fpu: FloatUnit, f: RegId, buffer: RegId, back: RegId)
    requires IsFloat(f) && IsBuffer(buffer) && IsFloat(back) && fpu.finite(st.f[f.idx])
    requires fpu.parse(fpu.format(st.f[f.idx])) == Some(st.f[f.idx]) && AllStorable(fpu.format(st.f[f.idx]))
    requires toText.arg0 == Reg(buffer) && toText.arg1 == Reg(f)
    requires toFloat.arg0 == Reg(back) && toFloat.arg1 == Reg(buffer)
    ensures var mid := FloatToText(st, toText, fpu);
            mid.Done? && var out := TextToFloat(mid.st, toFloat, fpu);
            out.Done? && out.st.f[back.idx] == st.f[f.idx]
  {
    hide WriteString, ReadString, CString, StringBytes, AllStorable;
    var text := fpu.format(st.f[f.idx]);
    StringRegister(st, buffer, text);
    TextSurvives(text);
  }

  lemma FirstBytes(data: seq<byte>, n: Width)
    requires |data| >= n
    ensures WordOf(data, n) == WordOf(data[..n], n)
  {
  }

  lemma SplitValue(b: seq<byte>)
    requires |b| == 8
    ensures LeValue(b) == LeValue(b[..4]) + TWO_32 * LeValue(b[4..])
  {
    var hi := b[4..];
    assert b[1..][1..][1..][1..] == hi;
    var lo := b[..4];
    assert lo[1..][1..][1..][1..] == [];
    assert lo[1..] == b[1..4] && lo[1..][1..] == b[2..4] && lo[1..][1..][1..] == b[3..4];
    LeValueHead(b);
    LeValueHead(b[1..]);
    LeValueHead(b[1..][1..]);
    LeValueHead(b[1..][1..][1..]);
    LeValueHead(lo);
    LeValueHead(lo[1..]);
    LeValueHead(lo[1..][1..]);
    LeValueHead(lo[1..][1..][1..]);
  }

  lemma TwoWords(bits: F64, data: seq<byte>)
    requires LeBytes(bits, 8) <= data
    ensures WordOf(data, 4) as int + TWO_32 * WordOf(data[4..], 4) as int == bits
  {
    hide WordOf;
    var b := LeBytes(bits, 8);
    assert data[..8] == b;
    FirstBytes(data, 4);
    FirstBytes(data[4..], 4);
    assert data[..4] == b[..4] && data[4..][..4] == b[4..];
    WordIsLeValue(b[..4], 4);
    WordIsLeValue(b[4..], 4);
    Pow2Adds(32, 32);
    Pow2Width(4);
    LeValueOfBytes(bits, 8);
    SplitValue(b);
  }

  /** `y82flt` reads the little-endian bits of a float back, and faults exactly on fewer than eight bytes. */
  lemma RawBytesAreTheFloat(st: State, op: Op, fpu: FloatUnit, f: RegId, source: RegId, bits: F64)
    requires IsFloat(f) && IsBuffer(source) && op.byte == 0x9E && op.arg0 == Reg(f) && op.arg1 == Reg(source)
    ensures BytesToFloat(st, op, fpu).Done? <==> |st.s[source.idx]| >= 8
    ensures LeBytes(bits, 8) <= st.s[source.idx] ==>
              BytesToFloat(st, op, fpu).Done? && BytesToFloat(st, op, fpu).st.f[f.idx] == bits
  {
    hide LeBytes, LeValue, WordOf;
    var data := st.s[source.idx];
    if LeBytes(bits, 8) <= data {
      TwoWords(bits, data);
    }
  }

  /** `y42flt` widens the single whose little-endian bits it reads, and faults exactly on fewer than four bytes. */
  lemma SingleBytesAreWidened(st: State, op: Op, fpu: FloatUnit, f: RegId, source: RegId, bits: u32)
    requires IsFloat(f) && IsBuffer(source) && op.byte == 0x9D && op.arg0 == Reg(f) && op.arg1 == Reg(source)
    ensures BytesToFloat(st, op, fpu).Done? <==> |st.s[source.idx]| >= 4
    ensures LeBytes(bits, 4) <= st.s[source.idx] ==>
              BytesToFloat(st, op, fpu).Done? && BytesToFloat(st, op, fpu).st.f[f.idx] == fpu.widen(bits)
  {
    hide LeBytes, WordOf;
    var data := st.s[source.idx];
    if LeBytes(bits, 4) <= data {
      FirstBytes(data, 4);
      PushedWord(bits, 4);
      assert data[..4] == LeBytes(bits, 4);
    }
  }
}
