/** What the arithmetic, compare and stack opcodes leave in the machine. */
module OpcodeLaws {
  import opened Wrappers
  import opened Words
  import opened Arithmetic
  import opened Bytecode
  import opened MachineState
  import opened MachineLaws
  import opened Alu
  import opened AluLaws
  import opened ExecBase
  import opened ExecCore

  /** An integer register of the file. */
  predicate IsWord(reg: RegId) {
    IsInteger(reg.bank) && Exists(reg)
  }

  lemma RegisterWord(st: State, reg: RegId)
    requires IsWord(reg)
    ensures forall n: Width :: ReadInt(st, Reg(reg), n) == Done(st, IntOf(st, reg))
    ensures IntOf(st, reg) < Span(BankWidth(reg.bank))
  {
  }

  /** What operands read as: a buffer as a number is its first bytes, zero past its end. */
  lemma OperandsRead(st: State, w: Width, reg: RegId, v: u32, bytes: seq<byte>)
    requires Exists(reg)
    ensures ReadInt(st, Imm(v), w) == Done(st, v) && ReadValue(st, Imm(v)) == Ok(v)
    ensures ReadBytes(st, Str(bytes)) == Done(st, bytes)
    ensures IsWord(reg) ==>
              && ReadInt(st, Reg(reg), w) == Done(st, IntOf(st, reg)) && ReadValue(st, Reg(reg)) == Ok(IntOf(st, reg))
              && ReadBytes(st, Reg(reg)) == Failed(InvalidOperand)
    ensures reg.bank.S? ==>
              var data := st.s[reg.idx];
              && ReadBytes(st, Reg(reg)) == Done(st, data) && ReadValue(st, Reg(reg)) == Err(InvalidOperand)
              && ReadInt(st, Reg(reg), w) ==
                 Done(st, Mem(data, 0) as int + (if w >= 2 then 0x100 * Mem(data, 1) as int else 0)
                          + if w == 4 then 0x1_0000 * Mem(data, 2) as int + 0x100_0000 * Mem(data, 3) as int else 0)
    ensures reg.bank.F? ==>
              && ReadFloat(st, Reg(reg)) == Ok(st.f[reg.idx])
              && ReadInt(st, Reg(reg), w) == Failed(InvalidOperand) && ReadBytes(st, Reg(reg)) == Failed(InvalidOperand)
    ensures !reg.bank.F? ==> ReadFloat(st, Reg(reg)) == Err(InvalidOperand)
    ensures ReadInt(st, NoOperand, w) == Failed(Machine(Unsupported))
  {
  }

  /** A bounds fault is trap 0: masked, a read gives nothing and a store keeps everything; unmasked, it aborts. */
  lemma BoundsFaultIsATrap(st: State, operand: Operand, value: Value, n: nat, at: nat, len: nat)
    ensures Read(st, operand) == Err(IndexOutOfBounds(at, len)) ==>
              ReadSource(st, operand) == if BitAt(st.trapMask, 0) then Done(st.(trapBit := Some(0)), BytesValue([]))
                                         else Failed(Trapped(0))
    ensures WriteIndexed(st, operand, value, n) == Err(IndexOutOfBounds(at, len)) ==>
              WriteIndexedDest(st, operand, value, n) == if BitAt(st.trapMask, 0) then Done(st.(trapBit := Some(0)), ())
                                                         else Failed(Trapped(0))
  {
    hide Read, WriteIndexed, BitAt;
  }

  lemma SmallMod(v: nat, n: nat)
    requires v < n
    ensures v % n == v
  {
  }

  // ---- move and bitwise ----

  /**
   A move into an integer register stores what the other operand reads, modulo the width, with
   Zero and Sign telling of what was stored and Carry and Overflow clear.
  */
  lemma MoveStoresSource(st: State, op: Op, dest: RegId)
    requires op.arg0 == Reg(dest) && IsWord(dest) && ReadInt(st, op.arg1, BankWidth(dest.bank)).Done?
    ensures var w := BankWidth(dest.bank);
            var v := ReadInt(st, op.arg1, w).value;
            var out := Move(st, op);
            && out.Done? && out.value == Next && IntOf(out.st, dest) == v % Span(w)
            && Tells(out.st.flags, IntOf(out.st, dest), w) && !out.st.flags.c && !out.st.flags.v
  {
    hide ReadInt, WordAt, StoreWord;
    var w := BankWidth(dest.bank);
    var r1 := ReadInt(st, op.arg1, w);
    WriteThenRead(r1.st, dest, r1.value, dest);
    SmallMod(r1.value % Span(w), Span(w));
  }

  /** A move through an index stores a buffer's bytes, or an integer's low byte, at the index. */
  lemma MoveIntoBuffer(st: State, op: Op, at: nat)
    requires op.arg0.Indexed? && op.arg0.base.bank.S? && Exists(op.arg0.base)
    requires var r1 := ReadSource(st, op.arg1);
             && r1.Done? && !r1.value.FloatValue? && ResolveIndex(r1.st, op.arg0.index) == Ok(at)
             && at + (if r1.value.IntValue? then 1 else |r1.value.b|) <= 1023
    ensures var value := ReadSource(st, op.arg1).value;
            var bytes := if value.IntValue? then [value.v % 0x100] else value.b;
            var out := Move(st, op);
            && out.Done? && out.value == Next && !out.st.flags.c && !out.st.flags.v
            && (value.IntValue? ==> Tells(out.st.flags, value.v % 0x100, 1))
            && (value.BytesValue? ==> !out.st.flags.z && !out.st.flags.s)
            && forall i: nat :: Mem(out.st.s[op.arg0.base.idx], i) ==
                 if at <= i < at + |bytes| then bytes[i - at] else Mem(st.s[op.arg0.base.idx], i)
  {
    hide ReadSource, ResolveIndex, UpdateZS, Overlay, Mem;
    var r1 := ReadSource(st, op.arg1);
    IndexedWriteSpan(r1.st, op.arg0, r1.value, 1);
    if r1.value.IntValue? {
      assert LeBytes(r1.value.v, 1) == [r1.value.v % 0x100];
      UpdateTells(NO_FLAGS, r1.value.v, 1);
    }
  }

  /** A move between float registers copies the float; any other source is refused. */
  lemma MoveCopiesFloat(st: State, op: Op, dest: RegId, source: RegId)
    requires op.arg0 == Reg(dest) && dest.bank.F? && Exists(dest) && op.arg1 == Reg(source) && Exists(source)
    ensures if source.bank.F? then Move(st, op).Done? && Move(st, op).st.f == st.f[dest.idx := st.f[source.idx]]
            else Move(st, op) == Failed(InvalidOperand)
  {
  }

  /** `clear` leaves its register zero or empty and Zero alone set, and touches nothing it does not name. */
  lemma ClearZeroes(st: State, op: Op, reg: RegId)
    requires op.arg0 == Reg(reg) && Exists(reg)
    ensures var out := Clear(st, op);
            && out.Done? && out.st.flags == Flags(true, false, false, false)
            && (IsInteger(reg.bank) ==> IntOf(out.st, reg) == 0 && out.st.s == st.s && out.st.f == st.f)
            && (reg.bank.S? ==> out.st.s == st.s[reg.idx := []] && out.st.regs == st.regs && out.st.f == st.f)
            && (reg.bank.F? ==> out.st.f == st.f[reg.idx := 0] && out.st.regs == st.regs && out.st.s == st.s)
            && forall other: RegId :: IsWord(other) && IsInteger(reg.bank) &&
                 (Low(other) + BankWidth(other.bank) <= Low(reg) || Low(reg) + BankWidth(reg.bank) <= Low(other))
                 ==> IntOf(out.st, other) == IntOf(st, other)
  {
    hide WordAt, StoreWord;
    if IsInteger(reg.bank) {
      WriteThenRead(st, reg, 0, reg);
      forall other: RegId | IsWord(other) {
        WriteThenRead(st, reg, 0, other);
      }
    }
  }

  /** What the bitwise opcodes make of two bits. */
  predicate Combined(b: byte, x: bool, y: bool) {
    if b == 0x07 then x && y else if b == 0x08 then x || y else x != y
  }

  lemma BitwiseBit(b: byte, v0: u32, v1: u32, k: nat)
    requires k < 32
    ensures BitAt(Bitwise(b, v0, v1), k) <==> Combined(b, BitAt(v0, k), BitAt(v1, k))
  {
    hide BitAt, ZipBits;
    if b == 0x07 {
      ZippedBit((x, y) => x && y, v0, v1, 32, k);
    } else if b == 0x08 {
      ZippedBit((x, y) => x || y, v0, v1, 32, k);
    } else {
      ZippedBit((x, y) => x != y, v0, v1, 32, k);
    }
  }

  /** The common ending: the result modulo the width, Zero and Sign telling of it, Overflow clear. */
  lemma SettleWord(st: State, reg: RegId, v: u32)
    requires IsWord(reg)
    ensures var w := BankWidth(reg.bank);
            var out := Settle(st, Reg(reg), v, w);
            && out.Done? && out.value == Next && IntOf(out.st, reg) == v % Span(w)
            && Tells(out.st.flags, v % Span(w), w) && !out.st.flags.v && out.st.flags.c == st.flags.c
            && out.st == st.(regs := out.st.regs, flags := out.st.flags)
  {
    hide WordAt, StoreWord, UpdateZS;
    WriteThenRead(st, reg, v, reg);
    UpdateTells(st.flags.(v := false), v, BankWidth(reg.bank));
  }

  /** and, or and xor work bit by bit on the register and any other operand. */
  lemma BitwiseWorksBitByBit(st: State, op: Op, reg: RegId, k: nat)
    requires op.byte in {0x07, 0x08, 0x09} && op.arg0 == Reg(reg) && IsWord(reg) && k < 8 * BankWidth(reg.bank)
    requires ReadInt(st, op.arg1, BankWidth(reg.bank)).Done?
    ensures var v1 := ReadInt(st, op.arg1, BankWidth(reg.bank)).value;
            var out := BitwiseOp(st, op);
            && out.Done? && out.value == Next && Tells(out.st.flags, IntOf(out.st, reg), BankWidth(reg.bank))
            && !out.st.flags.v && out.st.flags.c == st.flags.c
            && (BitAt(IntOf(out.st, reg), k) <==> Combined(op.byte, BitAt(IntOf(st, reg), k), BitAt(v1, k)))
  {
    hide ReadInt, WordAt, StoreWord, UpdateZS, BitAnd, BitOr, BitXor, BitAt;
    var w := BankWidth(reg.bank);
    RegisterWord(st, reg);
    var r1 := ReadInt(st, op.arg1, w);
    var v := Bitwise(op.byte, IntOf(st, reg), r1.value);
    SettleWord(r1.st, reg, v);
    LowBit(v, k, w);
    BitwiseBit(op.byte, IntOf(st, reg), r1.value, k);
  }

  /** The complement's bits are the opposite ones. */
  lemma {:induction false} ComplementBits(a: nat, n: nat, k: nat)
    requires a < Pow2(n) && k < n
    ensures BitAt(Pow2(n) - 1 - a, k) <==> !BitAt(a, k)
    decreases n
  {
    var b, half := Pow2(n) - 1 - a, Pow2(n - 1) - 1 - a / 2;
    assert b / 2 == half && b % 2 == 1 - a % 2;
    if k == 0 {
      FirstBit(a);
      FirstBit(b);
    } else {
      HalfBit(a, k - 1);
      HalfBit(b, k - 1);
      ComplementBits(a / 2, n - 1, k - 1);
    }
  }

  /** `not` flips every bit of the register. */
  lemma NotFlipsBits(st: State, op: Op, reg: RegId, k: nat)
    requires op.arg0 == Reg(reg) && IsWord(reg) && k < 8 * BankWidth(reg.bank)
    ensures var out := Not(st, op);
            && out.Done? && out.value == Next && Tells(out.st.flags, IntOf(out.st, reg), BankWidth(reg.bank))
            && !out.st.flags.v && out.st.flags.c == st.flags.c
            && (BitAt(IntOf(out.st, reg), k) <==> !BitAt(IntOf(st, reg), k))
  {
    hide ReadInt, WordAt, StoreWord, UpdateZS, BitAt;
    var w, a := BankWidth(reg.bank), IntOf(st, reg);
    RegisterWord(st, reg);
    SettleWord(st, reg, BitNot(a));
    LowBit(BitNot(a), k, w);
    Pow2Width(4);
    ComplementBits(a, 32, k);
  }

  lemma NotRestores(a: u32, w: Width)
    requires a < Span(w)
    ensures BitNot(BitNot(a) % Span(w)) % Span(w) == a
  {
    var n := Span(w);
    var k := TWO_32 / n - 1;
    assert BitNot(a) == n * k + (n - 1 - a);
    Residue(BitNot(a), w, k, n - 1 - a);
    assert BitNot(n - 1 - a) == n * k + a;
    Residue(BitNot(n - 1 - a), w, k, a);
  }

  /** `not` twice restores a register at every width. */
  lemma NotTwiceRestores(st: State, op: Op, reg: RegId)
    requires op.arg0 == Reg(reg) && IsWord(reg)
    ensures var mid := Not(st, op);
            mid.Done? && var out := Not(mid.st, op); out.Done? && IntOf(out.st, reg) == IntOf(st, reg)
  {
    hide ReadInt, WordAt, StoreWord, UpdateZS, BitNot;
    var a := IntOf(st, reg);
    RegisterWord(st, reg);
    WriteThenRead(st, reg, BitNot(a), reg);
    var mid := Not(st, op).st;
    RegisterWord(mid, reg);
    WriteThenRead(mid, reg, BitNot(IntOf(mid, reg)), reg);
    NotRestores(a, BankWidth(reg.bank));
  }

  // ---- compare ----

  /** What an arithmetic target reads always fits its width, unlike the other operand. */
  lemma TargetFits(st: State, operand: Operand, w: Width)
    requires ArithWidth(operand) == Ok(w) && ReadInt(st, operand, w).Done?
    ensures ReadInt(st, operand, w).value < Span(w)
  {
  }

  /**
   `comp` stores nothing, and the branches after it decide the unsigned order of its operands
   if and only if arg1 fits arg0's width or the borrow a wider one causes happens to be right;
   and the order of their signed readings if and only if arg1 does not read as the width's
   minimum or both do. At the minimum jg is never taken.
  */
  lemma CompareThenBranch(st: State, op: Op, w: Width)
    requires ArithWidth(op.arg0) == Ok(w)
    requires var r0 := ReadInt(st, op.arg0, w); r0.Done? && ReadInt(r0.st, op.arg1, w).Done?
    ensures var r0 := ReadInt(st, op.arg0, w);
            var r1 := ReadInt(r0.st, op.arg1, w);
            var (v0, v1) := (r0.value, r1.value);
            var (low, fits) := (v1 % Span(w), v1 < Span(w));
            var out := Comp(st, op);
            && out == Done(r1.st.(flags := out.st.flags), Next)
            && ((BranchTaken(JZ, out.st.flags) <==> v0 == v1) <==> fits || v0 != low)
            && ((BranchTaken(JC, out.st.flags) <==> v0 < v1) <==> fits || Borrows(v0, v1, w))
            && ((BranchTaken(JAE, out.st.flags) <==> v0 >= v1) <==> fits || Borrows(v0, v1, w))
            && ((BranchTaken(JA, out.st.flags) <==> v0 > v1) <==> fits || v0 == low || Borrows(v0, v1, w))
            && ((BranchTaken(JBE, out.st.flags) <==> v0 <= v1) <==> fits || v0 == low || Borrows(v0, v1, w))
            && (SignedVerdictsRight(out.st.flags, v0, v1, w) <==> low != Half(w) || v0 == low)
            && (low == Half(w) ==> !BranchTaken(JG, out.st.flags))
  {
    hide ReadInt, SubFlags, Borrows, SignedVerdictsRight, BranchTaken;
    var r0 := ReadInt(st, op.arg0, w);
    var r1 := ReadInt(r0.st, op.arg1, w);
    TargetFits(st, op.arg0, w);
    SmallMod(r0.value, Span(w));
    UnsignedBranches(r1.st.flags, r0.value, r1.value, w);
    SignedBranches(r1.st.flags, r0.value, r1.value, w);
  }

  lemma SplitOfDifference(x: int, w: Width)
    ensures x == Span(w) * (x / Span(w)) + x % Span(w)
  {
  }

  lemma DifferenceResidue(v0: u32, v1: u32, w: Width)
    ensures Difference(v0, v1) % Span(w) == (v0 - v1) % Span(w)
  {
    var x := v0 - v1;
    SplitOfDifference(x, w);
    WrappedDifference(v0, v1, w, x / Span(w), x % Span(w));
  }

  /** `subb` leaves `comp`'s flags, and in arg0 the difference modulo its width. */
  lemma SubtractIsCompareAndStore(st: State, op: Op, reg: RegId)
    requires op.arg0 == Reg(reg) && IsWord(reg)
    requires ReadInt(st, op.arg1, BankWidth(reg.bank)).Done?
    ensures Subb(st, op).Done? && Comp(st, op).Done?
    ensures Subb(st, op).st.flags == Comp(st, op).st.flags
    ensures var w := BankWidth(reg.bank);
            var r1 := ReadInt(st, op.arg1, w);
            && Subb(st, op).value == Next && Subb(st, op).st.flags == SubFlags(r1.st.flags, IntOf(st, reg), r1.value, w)
            && IntOf(Subb(st, op).st, reg) == (IntOf(st, reg) - r1.value) % Span(w)
  {
    hide ReadInt, SubFlags, Difference, Low32;
    var w := BankWidth(reg.bank);
    RegisterWord(st, reg);
    var r1 := ReadInt(st, op.arg1, w);
    var v0, v1 := IntOf(st, reg), r1.value;
    WriteThenRead(r1.st, reg, Low32(Difference(v0, v1)), reg);
    Low32Residue(Difference(v0, v1), w);
    DifferenceResidue(v0, v1, w);
  }

  /** `adds` stores the sum modulo the width, whatever the width of the other operand. */
  lemma AddsStoresSum(st: State, op: Op, reg: RegId)
    requires op.arg0 == Reg(reg) && IsWord(reg)
    requires ReadInt(st, op.arg1, BankWidth(reg.bank)).Done?
    ensures var w := BankWidth(reg.bank);
            var r1 := ReadInt(st, op.arg1, w);
            var out := Adds(st, op);
            && out.Done? && out.value == Next && out.st.flags == AddFlags(r1.st.flags, IntOf(st, reg), r1.value, w)
            && IntOf(out.st, reg) == (IntOf(st, reg) as int + r1.value as int) % Span(w)
  {
    hide ReadInt, AddFlags, Low32, WordAt, StoreWord;
    var w := BankWidth(reg.bank);
    RegisterWord(st, reg);
    var r1 := ReadInt(st, op.arg1, w);
    var sum := IntOf(st, reg) as int + r1.value as int;
    WriteThenRead(r1.st, reg, Low32(sum), reg);
    Low32Residue(sum, w);
  }

  lemma ByteToEnd(st: State, operand: Operand, at: nat)
    requires operand.Indexed? && operand.len.None? && operand.base.bank.S? && Exists(operand.base)
    requires ResolveIndex(st, operand.index) == Ok(at) && at < 1023
    ensures ReadInt(st, operand, 1) == Done(st, Mem(st.s[operand.base.idx], at))
  {
    var data := st.s[operand.base.idx];
    IndexedReadToEnd(st, operand.base, operand.index, at);
    assert at < |data| ==> data[at..][0] == data[at];
  }

  lemma OneByte(v: u32)
    ensures LeBytes(v, 1) == [v % 0x100]
  {
  }

  lemma SameIndex(st: State, st': State, index: IndexArg)
    requires OnlyTrap(st, st')
    ensures ResolveIndex(st', index) == ResolveIndex(st, index)
  {
  }

  /** `adds` to a byte of a buffer: the low byte of the sum goes back there and nowhere else. */
  lemma AddsIntoBuffer(st: State, op: Op, at: nat, v: u32)
    requires op.arg0.Indexed? && op.arg0.len.None? && op.arg0.base.bank.S? && Exists(op.arg0.base)
    requires ResolveIndex(st, op.arg0.index) == Ok(at) && at < 1023
    requires ReadInt(st, op.arg1, 1).Done? && ReadInt(st, op.arg1, 1).value == v
    ensures var (was, out) := (st.s[op.arg0.base.idx], Adds(st, op));
            && out.Done? && out.value == Next && out.st.flags == AddFlags(st.flags, Mem(was, at), v, 1)
            && out.st == ReadInt(st, op.arg1, 1).st.(s := st.s[op.arg0.base.idx := out.st.s[op.arg0.base.idx]],
                                                     flags := out.st.flags)
            && |out.st.s[op.arg0.base.idx]| == Max(|was|, at + 1)
            && forall i: nat :: Mem(out.st.s[op.arg0.base.idx], i) ==
                 if i == at then (Mem(was, at) as int + v as int) % 0x100 else Mem(was, i)
  {
    hide ReadInt, ResolveIndex, AddFlags, Overlay, Mem, Low32, LeBytes;
    var was := st.s[op.arg0.base.idx];
    var sum := Low32(Mem(was, at) as int + v as int);
    var st1 := ReadInt(st, op.arg1, 1).st;
    ByteToEnd(st, op.arg0, at);
    SameIndex(st, st1, op.arg0.index);
    IndexedWriteSpan(st1, op.arg0, IntValue(sum), 1);
    Low32Residue(Mem(was, at) as int + v as int, 1);
    assert LeBytes(sum, 1) == [sum % 0x100] by {
      OneByte(sum);
    }
    assert AddFlags(st.flags, Mem(was, at), v, 1) == Adds(st, op).st.flags;
  }

  // ---- mult and divs ----

  /** Two registers of one bank, so of one width and disjoint. */
  predicate Pair(op: Op, low: RegId, high: RegId) {
    op.arg0 == Reg(low) && op.arg1 == Reg(high) && IsWord(low) && IsWord(high) && low.bank == high.bank && low != high
  }

  lemma Apart(low: RegId, high: RegId)
    requires IsWord(low) && IsWord(high) && low.bank == high.bank && low != high
    ensures var w := BankWidth(low.bank); Low(low) + w <= Low(high) || Low(high) + w <= Low(low)
  {
  }

  /** The machine after `low` and `high` are stored in that order. */
  lemma StorePair(st: State, low: RegId, high: RegId, a: u32, b: u32, f: Flags)
    requires IsWord(low) && IsWord(high) && low.bank == high.bank && low != high
    ensures WriteReg(st, low, IntValue(a)).Ok?
    ensures var st1 := WithFlags(WriteReg(st, low, IntValue(a)).value, f);
            && WriteReg(st1, high, IntValue(b)).Ok?
            && var st2 := WriteReg(st1, high, IntValue(b)).value;
               && IntOf(st2, low) == a % Span(BankWidth(low.bank))
               && IntOf(st2, high) == b % Span(BankWidth(low.bank)) && st2.flags == f
  {
    hide StoreWord, WordAt;
    WriteThenRead(st, low, a, high);
    var st1 := WithFlags(WriteReg(st, low, IntValue(a)).value, f);
    WriteThenRead(st1, high, b, low);
    Apart(low, high);
    assert IntOf(st1, low) == a % Span(BankWidth(low.bank));
  }

  /**
   `mult` on two registers of a width: at widths 1 and 2 high:low is the exact signed
   product; at width 4 low is the product modulo 2^32 and high is zero, so that is exact if
   and only if the product is neither negative nor wider.
  */
  lemma MultLeavesProduct(st: State, op: Op, low: RegId, high: RegId)
    requires Pair(op, low, high)
    ensures var w := BankWidth(low.bank);
            var (a, b) := (IntOf(st, low), IntOf(st, high));
            var out := Mult(st, op);
            && out.Done? && out.value == Next
            && Tells(out.st.flags, IntOf(out.st, low), w) && !out.st.flags.v && out.st.flags.c == st.flags.c
            && (if w != 4 then
                  Signed(IntOf(out.st, low) + Span(w) * IntOf(out.st, high), 2 * w) == Signed(a, w) * Signed(b, w)
                else
                  && IntOf(out.st, low) == (a as int * b as int) % TWO_32 && IntOf(out.st, high) == 0
                  && (IntOf(out.st, low) + TWO_32 * IntOf(out.st, high) == Signed(a, 4) * Signed(b, 4)
                      <==> 0 <= Signed(a, 4) * Signed(b, 4) < TWO_32))
  {
    hide Product, ProductHigh, Signed, UpdateZS;
    hide WordAt, StoreWord, WriteReg;
    var w := BankWidth(low.bank);
    var a, b := IntOf(st, low), IntOf(st, high);
    RegisterWord(st, low);
    RegisterWord(st, high);
    var p := Product(a, b, w);
    StorePair(st, low, high, p, ProductHigh(p, w), UpdateZS(st.flags.(v := false), p, w));
    UpdateTells(st.flags.(v := false), p, w);
    if w == 4 {
      WideProductLosesHighWord(a, b);
    } else {
      ProductIsExact(a, b, w);
    }
  }

  lemma NarrowDivision(a: u32, b: u32)
    requires a < 0x1_0000 && b < 0x1_0000 && !DivFaults(a, b)
    ensures Low32(TruncDiv(Signed(a, 4), Signed(b, 4))) <= a
    ensures Low32(TruncRem(Signed(a, 4), Signed(b, 4))) < b
  {
    hide Signed;
    SignedOf(a, 4);
    SignedOf(b, 4);
    var x, y: int := a, b;
    assert Signed(a, 4) == x && Signed(b, 4) == y;
    QuotientParts(x, y);
    assert TruncDiv(x, y) == x / y && TruncRem(x, y) == x % y;
    SmallMod(x / y, TWO_32);
    SmallMod(x % y, TWO_32);
  }

  /** A quotient or remainder of registers narrower than 32 bits fits them. */
  lemma PartFits(a: u32, b: u32, w: Width)
    requires a < Span(w) && b < Span(w) && !DivFaults(a, b)
    ensures var q := Low32(TruncDiv(Signed(a, 4), Signed(b, 4)));
            var r := Low32(TruncRem(Signed(a, 4), Signed(b, 4)));
            q % Span(w) == q && r % Span(w) == r
  {
    hide Signed, Low32, TruncDiv, TruncRem;
    var q := Low32(TruncDiv(Signed(a, 4), Signed(b, 4)));
    var r := Low32(TruncRem(Signed(a, 4), Signed(b, 4)));
    if w != 4 {
      NarrowDivision(a, b);
    }
    SmallMod(q, Span(w));
    SmallMod(r, Span(w));
  }

  /**
   `divs` on two registers of a width fails exactly on a zero divisor or MIN / -1; else it
   leaves the truncated quotient in low and the remainder in high, under the 32-bit
   reading the code gives both operands at every width.
  */
  lemma DivsLeavesParts(st: State, op: Op, low: RegId, high: RegId)
    requires Pair(op, low, high)
    ensures var (n, d) := (Signed(IntOf(st, low), 4), Signed(IntOf(st, high), 4));
            var out := Divs(st, op);
            && (out.Failed? <==> d == 0 || (n == -TWO_31 && d == -1))
            && (out.Failed? ==> out.error == DivideByZero)
            && (out.Done? ==>
                  && out.value == Next && Tells(out.st.flags, IntOf(out.st, low), BankWidth(low.bank))
                  && !out.st.flags.v && out.st.flags.c == st.flags.c
                  && var (q, r) := (Signed(IntOf(out.st, low), 4), Signed(IntOf(out.st, high), 4));
                     d * q + r == n && Magnitude(r) < Magnitude(d) && (r != 0 ==> (r < 0 <==> n < 0)))
  {
    hide Signed, UpdateZS, TruncDiv, TruncRem, Low32, Magnitude;
    hide WordAt, StoreWord, WriteReg;
    var w := BankWidth(low.bank);
    var a, b := IntOf(st, low), IntOf(st, high);
    RegisterWord(st, low);
    RegisterWord(st, high);
    if !DivFaults(a, b) {
      var q := Low32(TruncDiv(Signed(a, 4), Signed(b, 4)));
      var r := Low32(TruncRem(Signed(a, 4), Signed(b, 4)));
      StorePair(st, low, high, q, r, UpdateZS(st.flags.(v := false), q, w));
      UpdateTells(st.flags.(v := false), q, w);
      PartFits(a, b, w);
      DivisionReconstructs(a, b);
    }
  }

  /** The low bytes of a word are those of its residue. */
  lemma LowBytes(v: u32, w: Width)
    ensures LeBytes(v, w) == LeBytes(v % Span(w), w)
    ensures LeValue(LeBytes(v, w)) == v % Span(w)
  {
    hide LeValue;
    var q := v / 0x100;
    var r: nat := v % Span(w);
    assert LeBytes(v, w) == [v % 0x100] + LeBytes(q, w - 1);
    assert LeBytes(r, w) == [r % 0x100] + LeBytes(r / 0x100, w - 1);
    if w == 2 {
      assert LeBytes(q, 1) == [q % 0x100] && LeBytes(r / 0x100, 1) == [r / 0x100 % 0x100];
      DigitsOf(v);
      DivUnique(r, 0x100, q % 0x100, v % 0x100);
    } else if w == 4 {
      SmallMod(v, Span(w));
    } else {
      SmallMod(r, 0x100);
    }
    Pow2Width(w);
    LeValueOfBytes(r, w);
  }

  /** The second result of `mult` or `divs`, stored through an indexed arg1. */
  lemma SecondIntoBuffer(st: State, operand: Operand, v: u32, w: Width, at: nat)
    requires operand.Indexed? && operand.base.bank.S? && Exists(operand.base)
    requires ResolveIndex(st, operand.index) == Ok(at) && at + w <= 1023
    ensures var out := StoreSecond(st, operand, v, w);
            && out.Done? && out.st.regs == st.regs
            && var data := out.st.s[operand.base.idx];
               |data| >= at + w && LeValue(data[at..at + w]) == v % Span(w)
  {
    hide LeBytes, LeValue, ResolveIndex;
    LowBytes(v, w);
    var was := st.s[operand.base.idx];
    OverlaySpan(was, at, LeBytes(v, w), at);
    var data := Overlay(was, at, LeBytes(v, w));
    assert data[at..at + w] == LeBytes(v, w);
  }

  /** An indexed arg1 whose index register `low` does not overlap. */
  predicate IndexedApart(op: Op, low: RegId) {
    && op.arg0 == Reg(low) && IsWord(low)
    && op.arg1.Indexed? && op.arg1.base.bank.S? && Exists(op.arg1.base)
    && match op.arg1.index
       case ImmIndex(_) => true
       case RegIndex(reg) =>
         IsWord(reg) && (Low(reg) + BankWidth(reg.bank) <= Low(low) || Low(low) + BankWidth(low.bank) <= Low(reg))
  }

  /** The machine after `low` is stored, with the index where it was. */
  lemma StoreLow(st: State, op: Op, low: RegId, v: u32, f: Flags)
    requires IndexedApart(op, low)
    ensures WriteReg(st, low, IntValue(v)).Ok?
    ensures var st1 := WithFlags(WriteReg(st, low, IntValue(v)).value, f);
            && IntOf(st1, low) == v % Span(BankWidth(low.bank))
            && ResolveIndex(st1, op.arg1.index) == ResolveIndex(st, op.arg1.index)
  {
    hide StoreWord, WordAt;
    WriteThenRead(st, low, v, low);
    if op.arg1.index.RegIndex? {
      WriteThenRead(st, low, v, op.arg1.index.reg);
    }
  }

  /** `mult` by a buffer's word: the high half goes back into the buffer, with the same laws. */
  lemma MultIntoBuffer(st: State, op: Op, low: RegId, at: nat)
    requires IndexedApart(op, low)
    requires var w := BankWidth(low.bank);
             ReadInt(st, op.arg1, w).Done? && ResolveIndex(st, op.arg1.index) == Ok(at) && at + w <= 1023
    ensures var w := BankWidth(low.bank);
            var (a, b) := (IntOf(st, low), ReadInt(st, op.arg1, w).value);
            var out := Mult(st, op);
            && out.Done? && |out.st.s[op.arg1.base.idx]| >= at + w
            && var high := LeValue(out.st.s[op.arg1.base.idx][at..at + w]);
               if w != 4 then Signed(IntOf(out.st, low) + Span(w) * high, 2 * w) == Signed(a, w) * Signed(b, w)
               else IntOf(out.st, low) == (a as int * b as int) % TWO_32 && high == 0
  {
    hide Product, ProductHigh, Signed, UpdateZS, ReadInt;
    hide WordAt, StoreWord, WriteReg, StoreSecond, ResolveIndex, LeValue;
    var w := BankWidth(low.bank);
    var a, b := IntOf(st, low), ReadInt(st, op.arg1, w).value;
    RegisterWord(st, low);
    var p := Product(a, b, w);
    var st0 := ReadInt(st, op.arg1, w).st;
    var f := UpdateZS(st.flags.(v := false), p, w);
    SameIndex(st, st0, op.arg1.index);
    StoreLow(st0, op, low, p, f);
    SecondIntoBuffer(WithFlags(WriteReg(st0, low, IntValue(p)).value, f), op.arg1, ProductHigh(p, w), w, at);
    if w == 4 {
      WideProductLosesHighWord(a, b);
      SmallMod(0, Span(w));
    } else {
      ProductIsExact(a, b, w);
    }
  }

  lemma IndexedWordFits(st: State, operand: Operand, w: Width)
    requires operand.Indexed? && ReadInt(st, operand, w).Done?
    ensures ReadInt(st, operand, w).value < Span(w)
  {
  }

  /** `divs` by a buffer's word: the remainder goes back into the buffer, with the same laws. */
  lemma DivsIntoBuffer(st: State, op: Op, low: RegId, at: nat)
    requires IndexedApart(op, low)
    requires var w := BankWidth(low.bank);
             ReadInt(st, op.arg1, w).Done? && ResolveIndex(st, op.arg1.index) == Ok(at) && at + w <= 1023
    ensures var w := BankWidth(low.bank);
            var (n, d) := (Signed(IntOf(st, low), 4), Signed(ReadInt(st, op.arg1, w).value, 4));
            var out := Divs(st, op);
            && (out.Failed? <==> d == 0 || (n == -TWO_31 && d == -1))
            && (out.Done? ==>
                  && |out.st.s[op.arg1.base.idx]| >= at + w
                  && var (q, high) := (Signed(IntOf(out.st, low), 4), LeValue(out.st.s[op.arg1.base.idx][at..at + w]));
                     high < Span(w) && d * q + Signed(high, 4) == n && Magnitude(Signed(high, 4)) < Magnitude(d))
  {
    hide Signed, UpdateZS, TruncDiv, TruncRem, Low32, Magnitude;
    hide ReadInt, WordAt, StoreWord, WriteReg, StoreSecond, ResolveIndex, LeValue;
    var w := BankWidth(low.bank);
    var a, b := IntOf(st, low), ReadInt(st, op.arg1, w).value;
    RegisterWord(st, low);
    IndexedWordFits(st, op.arg1, w);
    if !DivFaults(a, b) {
      var q := Low32(TruncDiv(Signed(a, 4), Signed(b, 4)));
      var r := Low32(TruncRem(Signed(a, 4), Signed(b, 4)));
      var st0 := ReadInt(st, op.arg1, w).st;
      var f := UpdateZS(st.flags.(v := false), q, w);
      SameIndex(st, st0, op.arg1.index);
      StoreLow(st0, op, low, q, f);
      SecondIntoBuffer(WithFlags(WriteReg(st0, low, IntValue(q)).value, f), op.arg1, r, w, at);
      PartFits(a, b, w);
      DivisionReconstructs(a, b);
    }
  }

  /** An immediate second operand is no place for a second result: only the low half or quotient stays. */
  lemma MultAndDivsByImmediate(st: State, op: Op, low: RegId, b: u32)
    requires op.arg0 == Reg(low) && IsWord(low) && op.arg1 == Imm(b)
    ensures var (w, a) := (BankWidth(low.bank), IntOf(st, low));
            && Mult(st, op).Done?
            && IntOf(Mult(st, op).st, low) == (Signed(a, w) * Signed(b, w)) % Span(w)
            && (Divs(st, op).Failed? <==> DivFaults(a, b))
            && (Divs(st, op).Done? && b < Span(w) ==>
                  Signed(IntOf(Divs(st, op).st, low), 4) == TruncDiv(Signed(a, 4), Signed(b, 4)))
  {
    hide Signed, UpdateZS, TruncDiv, TruncRem, Low32, WordAt, StoreWord, WriteReg;
    var w, a := BankWidth(low.bank), IntOf(st, low);
    RegisterWord(st, low);
    WriteThenRead(st, low, Product(a, b, w), low);
    Low32Residue(Signed(a, w) * Signed(b, w), w);
    if !DivFaults(a, b) {
      WriteThenRead(st, low, Low32(TruncDiv(Signed(a, 4), Signed(b, 4))), low);
      DivisionReconstructs(a, b);
      if b < Span(w) {
        PartFits(a, b, w);
      }
    }
  }

  // ---- shifts ----

  lemma SignedOfResidue(v: u32, w: Width)
    ensures Signed(v % Span(w), w) == Signed(v, w)
  {
    SmallMod(v % Span(w), Span(w));
  }

  /**
   A shift of a register by a non-negative count, however large: lsl and asl leave the value
   times 2^n modulo the width, lsr its floor quotient, asr the floor quotient of its signed
   reading; Carry is the last bit shifted out.
  */
  lemma ShiftsAreArithmetic(st: State, op: Op, reg: RegId, n: nat)
    requires op.arg0 == Reg(reg) && IsWord(reg) && op.byte in {0x18, 0x19, 0x1A, 0x1B}
    requires var r := ReadInt(st, op.arg1, BankWidth(reg.bank)); r.Done? && Signed(r.value, 4) == n
    ensures var out := Shift(st, op);
            var (w, v) := (BankWidth(reg.bank), IntOf(st, reg));
            && out.Done? && out.value == Next
            && Tells(out.st.flags, IntOf(out.st, reg), w) && !out.st.flags.v
            && match op.byte
               case 0x18 =>
                 && Signed(IntOf(out.st, reg), w) == Signed(v, w) / Pow2(n)
                 && (out.st.flags.c <==> n > 0 && (Signed(v, w) / Pow2(n - 1)) % 2 == 1)
               case 0x1A => IntOf(out.st, reg) == v / Pow2(n) && (out.st.flags.c <==> n > 0 && BitAt(v, n - 1))
               case _ =>
                 && IntOf(out.st, reg) == (v * Pow2(n)) % Span(w)
                 && (out.st.flags.c <==> (v * Pow2(n) / Span(w)) % 2 == 1)
  {
    hide ReadInt, WordAt, StoreWord, Signed, Pow2, BitAt, UpdateZS, ShiftLeft, ShiftRight, ShiftArithmetic;
    var w, v := BankWidth(reg.bank), IntOf(st, reg);
    RegisterWord(st, reg);
    var shifted := ShiftBy(op.byte, v, n, w, st.flags.c);
    WriteThenRead(ReadInt(st, op.arg1, w).st, reg, shifted.value, reg);
    UpdateTells(st.flags.(c := shifted.carry, v := false), shifted.value, w);
    if op.byte == 0x18 {
      ShiftArithmeticDivides(v, n, w, st.flags.c);
      SignedOfResidue(shifted.value, w);
    } else if op.byte == 0x1A {
      ShiftRightDivides(v, n, w, st.flags.c);
      DivShrinks(v, Pow2(n));
      SmallMod(v / Pow2(n), Span(w));
    } else {
      ShiftLeftMultiplies(v, n, w, st.flags.c);
    }
  }

  /** A shift by a negative count leaves the register and Carry as they are. */
  lemma NegativeShiftKeeps(st: State, op: Op, reg: RegId)
    requires op.arg0 == Reg(reg) && IsWord(reg)
    requires var r := ReadInt(st, op.arg1, BankWidth(reg.bank)); r.Done? && Signed(r.value, 4) < 0
    ensures var out := Shift(st, op);
            && out.Done? && IntOf(out.st, reg) == IntOf(st, reg)
            && out.value == Next && out.st.flags.c == st.flags.c && !out.st.flags.v
            && Tells(out.st.flags, IntOf(st, reg), BankWidth(reg.bank))
  {
    hide ReadInt, WordAt, StoreWord, Signed, UpdateZS;
    var w, v := BankWidth(reg.bank), IntOf(st, reg);
    UpdateTells(st.flags.(v := false), v, w);
    RegisterWord(st, reg);
    WriteThenRead(ReadInt(st, op.arg1, w).st, reg, v, reg);
    SmallMod(v, Span(w));
  }

  // ---- the byte stack ----

  /** The lowest digit of a little-endian number, and its last one. */
  lemma LeValueHead(b: seq<byte>)
    requires b != []
    ensures LeValue(b) == b[0] as int + 0x100 * LeValue(b[1..])
    ensures |b| == 1 ==> LeValue(b) == b[0]
  {
  }

  lemma WordIsLeValue(b: seq<byte>, w: Width)
    requires |b| == w
    ensures WordOf(b, w) == LeValue(b)
  {
    LeValueHead(b);
    if w >= 2 {
      LeValueHead(b[1..]);
    }
    if w == 4 {
      LeValueHead(b[1..][1..]);
      LeValueHead(b[1..][1..][1..]);
    }
  }

  lemma PushedWord(v: u32, w: Width)
    requires v < Span(w)
    ensures WordOf(LeBytes(v, w), w) == v
  {
    hide LeBytes, LeValue, WordOf;
    WordIsLeValue(LeBytes(v, w), w);
    Pow2Width(w);
    LeValueOfBytes(v, w);
  }

  /** The push or pop of a register. */
  function StackOp(b: byte, reg: RegId): Op {
    Op(b, 0x20, Reg(reg), NoOperand, 3, 0)
  }

  function PushAll(st: State, regs: seq<RegId>): Out<()>
    decreases regs
  {
    if regs == [] then Done(st, ())
    else
      var (st, _) :- Push(st, StackOp(0x1E, regs[0]));
      PushAll(st, regs[1..])
  }

  /** Pops in the reverse order. */
  function PopAll(st: State, regs: seq<RegId>): Out<()> {
    if regs == [] then Done(st, ())
    else
      var (st, _) :- PopAll(st, regs[1..]);
      var (st, _) :- Pop(st, StackOp(0x1F, regs[0]));
      Done(st, ())
  }

  predicate Covers(reg: RegId, i: nat) {
    IsWord(reg) && Low(reg) <= i < Low(reg) + BankWidth(reg.bank)
  }

  predicate Covered(regs: seq<RegId>, i: nat) {
    exists k :: 0 <= k < |regs| && Covers(regs[k], i)
  }

  lemma PushOne(st: State, reg: RegId)
    requires IsWord(reg)
    ensures Push(st, StackOp(0x1E, reg)) ==
            Done(st.(stack := st.stack + LeBytes(IntOf(st, reg), BankWidth(reg.bank))), Next)
  {
  }

  /** Popping a word off the stack stores it in the register and restores what was under it. */
  lemma PopOne(st: State, reg: RegId, under: seq<byte>, v: u32)
    requires IsWord(reg) && v < Span(BankWidth(reg.bank)) && st.stack == under + LeBytes(v, BankWidth(reg.bank))
    ensures var out := Pop(st, StackOp(0x1F, reg));
            && out.Done? && out.st.stack == under
            && out.st.regs == StoreWord(st.regs, Low(reg), BankWidth(reg.bank), v)
            && out.value == Next && IntOf(out.st, reg) == v && Tells(out.st.flags, v, BankWidth(reg.bank))
            && !out.st.flags.v && out.st.flags.c == st.flags.c
  {
    hide LeBytes, WordOf, UpdateZS, StoreWord, WordAt;
    var w := BankWidth(reg.bank);
    SettleWord(st.(stack := under), reg, v);
    SmallMod(v, Span(w));
    PushedWord(v, w);
    assert st.stack[|st.stack| - w..] == LeBytes(v, w);
    assert st.stack[..|st.stack| - w] == under;
  }

  lemma WordDigits(b0: byte, b1: byte, b2: byte, b3: byte)
    ensures var v := b0 as int + 0x100 * b1 as int + 0x1_0000 * b2 as int + 0x100_0000 * b3 as int;
            v % 0x100 == b0 && v / 0x100 % 0x100 == b1 && v / 0x100 / 0x100 % 0x100 == b2 &&
            v / 0x100 / 0x100 / 0x100 % 0x100 == b3
  {
    var q3: int := b3;
    var q2 := b2 as int + 0x100 * q3;
    var q1 := b1 as int + 0x100 * q2;
    var v := b0 as int + 0x100 * q1;
    DivUnique(v, 0x100, q1, b0);
    DivUnique(q1, 0x100, q2, b1);
    DivUnique(q2, 0x100, q3, b2);
  }

  /** Storing a register's own word copies its bytes. */
  lemma StoreCopies(from: RegFile, to: RegFile, at: nat, n: Width)
    requires at + n <= 32
    ensures var file := StoreWord(to, at, n, WordAt(from, at, n));
            forall i :: 0 <= i < 32 ==> file[i] == if at <= i < at + n then from[i] else to[i]
  {
    if n == 4 {
      WordDigits(from[at], from[at + 1], from[at + 2], from[at + 3]);
    } else if n == 2 {
      WordDigits(from[at], from[at + 1], 0, 0);
    } else {
      WordDigits(from[at], 0, 0, 0);
    }
  }

  lemma CoveredSplit(regs: seq<RegId>, i: nat)
    requires regs != [] && IsWord(regs[0])
    ensures Covered(regs, i) <==> Low(regs[0]) <= i < Low(regs[0]) + BankWidth(regs[0].bank) || Covered(regs[1..], i)
  {
  }

  /**
   The stack is last-in, first-out across widths: whatever happens to the registers between
   pushing any list of them and popping it in reverse, as long as the stack is as the
   pushes left it, every byte of a popped register is back to its value before the pushes,
   every other byte is left alone, and so is the stack below.
  */
  lemma {:induction false} PopsRestorePushes(st: State, regs: seq<RegId>, mid: State)
    requires forall k :: 0 <= k < |regs| ==> IsWord(regs[k])
    requires PushAll(st, regs).Done? ==> mid.stack == PushAll(st, regs).st.stack
    ensures PushAll(st, regs).Done? && PopAll(mid, regs).Done?
    ensures var out := PopAll(mid, regs).st;
            && out.stack == st.stack
            && forall i :: 0 <= i < 32 ==> out.regs[i] == if Covered(regs, i) then st.regs[i] else mid.regs[i]
    decreases regs
  {
    hide Push, Pop, StoreWord, WordAt, LeBytes, Covers;
    if regs != [] {
      var reg, rest := regs[0], regs[1..];
      var n := BankWidth(reg.bank);
      PushOne(st, reg);
      RegisterWord(st, reg);
      var st1 := Push(st, StackOp(0x1E, reg)).st;
      PopsRestorePushes(st1, rest, mid);
      var mid1 := PopAll(mid, rest).st;
      PopOne(mid1, reg, st.stack, IntOf(st, reg));
      StoreCopies(st.regs, mid1.regs, Low(reg), n);
      forall i | 0 <= i < 32
        ensures PopAll(mid, regs).st.regs[i] == if Covered(regs, i) then st.regs[i] else mid.regs[i]
      {
        CoveredSplit(regs, i);
      }
    }
  }

  /**
   `atsp` at position d + w returns the w-byte value lying under d later bytes and leaves
   the stack alone.
  */
  lemma AtspReadsUnder(st: State, op: Op, reg: RegId, under: seq<byte>, v: u32, later: seq<byte>)
    requires op.arg0 == Reg(reg) && IsWord(reg) && v < Span(BankWidth(reg.bank))
    requires st.stack == under + LeBytes(v, BankWidth(reg.bank)) + later
    requires ReadValue(st, op.arg1) == Ok(|later| + BankWidth(reg.bank) as nat)
    ensures var out := Atsp(st, op);
            && out.Done? && out.value == Next && out.st.stack == st.stack && IntOf(out.st, reg) == v
            && Tells(out.st.flags, v, BankWidth(reg.bank))
  {
    hide LeBytes, WordOf, UpdateZS, StoreWord, WordAt, ReadValue;
    var w := BankWidth(reg.bank);
    PushedWord(v, w);
    var visible := st.stack[..|st.stack| - |later|];
    assert visible == under + LeBytes(v, w);
    assert visible[|visible| - w..] == LeBytes(v, w);
    WriteThenRead(st, reg, v, reg);
    SmallMod(v, Span(w));
    UpdateTells(st.flags, v, w);
  }

  /** And it faults exactly when that field does not lie wholly on the stack. */
  lemma AtspFaults(st: State, op: Op, reg: RegId, pos: u32)
    requires op.arg0 == Reg(reg) && IsWord(reg) && ReadValue(st, op.arg1) == Ok(pos)
    ensures Atsp(st, op) == Failed(AtspStack) <==> !(BankWidth(reg.bank) <= pos <= |st.stack|)
    ensures Atsp(st, op).Failed? ==> Atsp(st, op).error == AtspStack
  {
  }

  // ---- traps ----

  /** The mask `settmr` stores decides which recorded traps abort, and `gettmr` reads it back. */
  lemma SettmrGovernsTraps(st: State, settmr: Op, gettmr: Op, reg: RegId, mask: u32, bit: u32)
    requires ReadValue(st, settmr.arg0) == Ok(mask) && gettmr.arg0 == Reg(reg) && IsWord(reg)
    ensures var out := SetMask(st, settmr);
            && out == Done(st.(trapMask := mask), Next)
            && (SetError(out.st, bit).Failed? <==> !BitAt(mask, bit))
            && var read := GetMask(out.st, gettmr);
               && read.Done? && read.value == Next && IntOf(read.st, reg) == mask % Span(BankWidth(reg.bank))
               && Tells(read.st.flags, IntOf(read.st, reg), BankWidth(reg.bank))
  {
    hide ReadValue, WordAt, StoreWord, BitAt, UpdateZS;
    WriteThenRead(st.(trapMask := mask), reg, mask, reg);
    UpdateTells(st.flags, mask, BankWidth(reg.bank));
  }

  /** What `jt` tests: `jt` and `jnt` of the same operands take opposite ways. */
  predicate JumpsOn(st: State, op: Op) {
    TrapBranch(st, op).Done? && TrapBranch(st, op).value.Jumped?
  }

  /**
   After a masked trap is recorded, jt jumps on exactly its own bit, an unmapped trap answering
   to 32; with none recorded it never jumps; and jnt jumps exactly when jt does not.
  */
  lemma JtFindsTheRecordedTrap(st: State, jt: Op, bit: u32, test: u32)
    requires jt.byte == 0x47 && jt.arg0.Imm? && jt.arg1 == Imm(test) && test > 0
    ensures JumpsOn(st.(trapBit := None), jt) == false
    ensures SetError(st, bit).Done? ==> (JumpsOn(SetError(st, bit).st, jt) <==> test == bit || (bit == 0 && test == 32))
    ensures JumpsOn(st, jt.(byte := 0x48)) <==> !JumpsOn(st, jt)
  {
    hide Signed, BitAt;
  }

  /** Without a test bit jt finds no trap a mask can let pass: those have bits below 32. */
  lemma JtWithoutTestFindsNone(st: State, jt: Op, bit: u32)
    requires jt.byte == 0x47 && jt.arg0.Imm? && (jt.arg1 == Imm(0) || jt.arg1 == NoOperand)
    ensures SetError(st, bit).Done? ==> !JumpsOn(SetError(st, bit).st, jt)
  {
    hide Signed, BitAt;
    if bit >= 32 {
      ShiftedAway(st.trapMask, bit, 4);
      NoBit(st.trapMask, bit);
    }
  }
}
