/** The integer arithmetic of exec.rs as functions of operand values and width. */
module Alu {
  import opened Words
  import opened Arithmetic
  import opened MachineState

  predicate SignBit(v: u32, w: Width) {
    v % Span(w) >= Half(w)
  }

  /** `Flags.UpdateFlags`: Zero and Sign of the low `w` bytes. */
  function UpdateZS(f: Flags, v: u32, w: Width): Flags {
    f.(z := v % Span(w) == 0, s := SignBit(v, w))
  }

  /** `Flags.SetCarry`: the bit just above the width. */
  function SetCarry(f: Flags, v: nat, w: Width): Flags {
    f.(c := (v / Span(w)) % 2 == 1)
  }

  /** `Flags.SetOverflow`: like-signed operands with a differently signed result. */
  function SetOverflow(f: Flags, v0: u32, v1: u32, result: u32, w: Width): Flags {
    f.(v := SignBit(v0, w) == SignBit(v1, w) && SignBit(v0, w) != SignBit(result, w))
  }

  function Low32(v: int): u32 {
    v % TWO_32
  }

  /** The 64-bit wrapping difference `comp` and `subb` compute. */
  function Difference(v0: u32, v1: u32): nat {
    (v0 as int - v1 as int) % TWO_64
  }

  function SubFlags(f: Flags, v0: u32, v1: u32, w: Width): Flags {
    var diff := Difference(v0, v1);
    SetCarry(SetOverflow(UpdateZS(f, Low32(diff), w), v0, Low32(-(v1 as int)), Low32(diff), w), diff, w)
  }

  function AddFlags(f: Flags, v0: u32, v1: u32, w: Width): Flags {
    var sum: nat := v0 as int + v1 as int;
    SetCarry(SetOverflow(UpdateZS(f, Low32(sum), w), v0, v1, Low32(sum), w), sum, w)
  }

  /** The signed product in 32 bits, each operand sign-extended by its width. */
  function Product(v0: u32, v1: u32, w: Width): u32 {
    Low32(Signed(v0, w) * Signed(v1, w))
  }

  /** What is left of the product above the width. */
  function ProductHigh(product: u32, w: Width): u32 {
    product / Span(w)
  }

  function Magnitude(n: int): (m: int)
    ensures m >= 0
  {
    if n < 0 then -n else n
  }

  /** Rust's division, which truncates towards zero. */
  function TruncDiv(n: int, d: int): int
    requires d != 0
  {
    if (n < 0) == (d < 0) then Magnitude(n) / Magnitude(d) else -(Magnitude(n) / Magnitude(d))
  }

  function TruncRem(n: int, d: int): int
    requires d != 0
  {
    if n < 0 then -(Magnitude(n) % Magnitude(d)) else Magnitude(n) % Magnitude(d)
  }

  /** Zero divisor, or the one quotient a signed 32-bit word cannot hold. */
  predicate DivFaults(v0: u32, v1: u32) {
    Signed(v1, 4) == 0 || (Signed(v0, 4) == -TWO_31 && Signed(v1, 4) == -1)
  }

  /** A shift's result and the Carry it leaves. */
  datatype Shifted = Shifted(value: u32, carry: bool)

  predicate BitAt(v: nat, k: nat) {
    (v / Pow2(k)) % 2 == 1
  }

  function ShiftLeft(v: u32, shift: int, w: Width, carry: bool): Shifted {
    var bits := 8 * w;
    if shift < 0 then Shifted(v, carry)
    else if shift == 0 then Shifted(v, false)
    else
      var c := if shift > bits then false else BitAt(v, bits - shift);
      Shifted(if shift >= bits then 0 else Low32(v * Pow2(shift)), c)
  }

  function ShiftRight(v: u32, shift: int, w: Width, carry: bool): Shifted {
    var bits := 8 * w;
    if shift < 0 then Shifted(v, carry)
    else if shift == 0 then Shifted(v, false)
    else
      var c := if shift > bits then false else BitAt(v, shift - 1);
      Shifted(if shift >= bits then 0 else Low32(v / Pow2(shift)), c)
  }

  function ShiftArithmetic(v: u32, shift: int, w: Width, carry: bool): Shifted {
    var bits := 8 * w;
    if shift < 0 then Shifted(v, carry)
    else if shift == 0 then Shifted(v, false)
    else
      var c := if shift > bits then SignBit(v, w) else BitAt(v, shift - 1);
      var r := if shift < bits then Low32(Signed(v, w) / Pow2(shift))
               else if SignBit(v, w) then 0xFFFF_FFFF else 0;
      Shifted(r, c)
  }

  /** The `n`-bit number whose every bit combines the bits of `a` and `b`. */
  function ZipBits(combine: (bool, bool) -> bool, a: nat, b: nat, n: nat): (r: nat)
    ensures r < Pow2(n)
  {
    if n == 0 then 0
    else (if combine(a % 2 == 1, b % 2 == 1) then 1 else 0) + 2 * ZipBits(combine, a / 2, b / 2, n - 1)
  }

  function BitAnd(a: u32, b: u32): u32 {
    Pow2Width(4);
    ZipBits((x, y) => x && y, a, b, 32)
  }

  function BitOr(a: u32, b: u32): u32 {
    Pow2Width(4);
    ZipBits((x, y) => x || y, a, b, 32)
  }

  function BitXor(a: u32, b: u32): u32 {
    Pow2Width(4);
    ZipBits((x, y) => x != y, a, b, 32)
  }

  function BitNot(a: u32): u32 {
    0xFFFF_FFFF - a
  }

  // ---- the branch opcodes ----

  const JUMP: byte := 0x0B
  const JC: byte := 0x0E
  const JAE: byte := 0x0F
  const JZ: byte := 0x10
  const JNZ: byte := 0x11
  const JG: byte := 0x5A
  const JGE: byte := 0x5B
  const JL: byte := 0x5C
  const JLE: byte := 0x5D
  const JA: byte := 0x5E
  const JBE: byte := 0x5F

  predicate IsFlagBranch(b: byte) {
    b == JUMP || 0x0E <= b <= 0x15 || 0x5A <= b <= 0x5F
  }

  /** The flag condition a branch opcode tests; false for any other opcode. */
  predicate BranchTaken(b: byte, f: Flags) {
    match b
    case 0x0B => true
    case 0x0E => f.c
    case 0x0F => !f.c
    case 0x10 => f.z
    case 0x11 => !f.z
    case 0x12 => f.v
    case 0x13 => !f.v
    case 0x14 => f.s
    case 0x15 => !f.s
    case 0x5A => f.s == f.v && !f.z
    case 0x5B => f.z || f.s == f.v
    case 0x5C => !f.z && f.s != f.v
    case 0x5D => f.s != f.v || f.z
    case 0x5E => !f.c && !f.z
    case 0x5F => f.c || f.z
    case _ => false
  }
}

/** What the arithmetic means. */
module AluLaws {
  import opened Words
  import opened Arithmetic
  import opened MachineState
  import opened Alu

  // ---- comparison and the branches that read it ----

  /** A number's residue, and the parity of its quotient, from any split of it. */
  lemma Residue(n: int, w: Width, q: int, r: int)
    requires n == Span(w) * q + r && 0 <= r < Span(w)
    ensures n % Span(w) == r && n / Span(w) == q
  {
    DivUnique(n, Span(w), q, r);
  }

  /** How many words of a width fit 32 bits. */
  function Words32(w: Width): int {
    if w == 1 then 0x100_0000 else if w == 2 then 0x1_0000 else 1
  }

  lemma Low32Residue(v: int, w: Width)
    ensures Low32(v) % Span(w) == v % Span(w)
  {
    var q, k := v / TWO_32, Low32(v) / Span(w);
    assert Low32(v) == Span(w) * k + Low32(v) % Span(w);
    assert TWO_32 == Span(w) * Words32(w);
    assert TWO_32 * q == Span(w) * (Words32(w) * q) by {
      if w == 1 {
      } else if w == 2 {
      } else {
      }
    }
    Residue(v, w, Words32(w) * q + k, Low32(v) % Span(w));
  }

  lemma SplitOf(v: u32, w: Width)
    ensures v == Span(w) * (v / Span(w)) + v % Span(w)
  {
  }

  /** Half the number of words of a width that fit 64 bits. */
  function HalfWraps(w: Width): int {
    if w == 1 then 0x80_0000_0000_0000 else if w == 2 then 0x8000_0000_0000 else 0x8000_0000
  }

  lemma WrapsFill(w: Width)
    ensures Span(w) * (2 * HalfWraps(w)) == TWO_64
  {
  }

  lemma Distribute(n: int, a: int, b: int)
    ensures n * a + n * b == n * (a + b)
  {
  }

  lemma SameParityShifted(q: int, h: int)
    ensures (q + 2 * h) % 2 == q % 2
  {
  }

  /** The 64-bit wrap of a difference keeps its residue and the parity of its quotient. */
  lemma WrappedDifference(v0: u32, v1: u32, w: Width, q: int, r: int)
    requires v0 - v1 == Span(w) * q + r && 0 <= r < Span(w)
    ensures Difference(v0, v1) % Span(w) == r
    ensures (Difference(v0, v1) / Span(w)) % 2 == 1 <==> q % 2 == 1
  {
    hide HalfWraps, Span;
    var h := if v0 >= v1 then 0 else HalfWraps(w);
    assert Difference(v0, v1) == v0 - v1 + if v0 >= v1 then 0 else TWO_64;
    WrapsFill(w);
    Distribute(Span(w), q, 2 * h);
    Residue(Difference(v0, v1), w, q + 2 * h, r);
    SameParityShifted(q, h);
  }

  /** The raw difference of any two words at width `w`: its residue, and the parity of its quotient. */
  lemma DifferenceParts(v0: u32, v1: u32, w: Width)
    ensures var (r0, r1) := (v0 % Span(w), v1 % Span(w));
            && Low32(Difference(v0, v1)) % Span(w) == (if r0 >= r1 then r0 - r1 else r0 - r1 + Span(w))
            && ((Difference(v0, v1) / Span(w)) % 2 == 1
                <==> (v0 / Span(w) - v1 / Span(w) - if r0 < r1 then 1 else 0) % 2 == 1)
  {
    hide Low32;
    var n, r0, r1 := Span(w), v0 % Span(w), v1 % Span(w);
    var q := v0 / n - v1 / n - if r0 < r1 then 1 else 0;
    var r := if r0 >= r1 then r0 - r1 else r0 - r1 + n;
    Low32Residue(Difference(v0, v1), w);
    SplitOf(v0, w);
    SplitOf(v1, w);
    assert v0 - v1 == n * q + r by {
      if w == 1 {
      } else if w == 2 {
      } else {
      }
    }
    WrappedDifference(v0, v1, w, q, r);
  }

  /** The negated second operand, whose sign `SetOverflow` is given. */
  lemma NegatedParts(v: u32, w: Width)
    ensures Low32(-(v as int)) % Span(w) == if v % Span(w) == 0 then 0 else Span(w) - v % Span(w)
  {
    hide Low32;
    var x: int, n := v, Span(w);
    var q, r := x / n, x % n;
    SplitOf(v, w);
    Low32Residue(-x, w);
    if r == 0 {
      assert -x == n * -q;
      Residue(-x, w, -q, 0);
    } else {
      assert -x == n * (-q - 1) + (n - r);
      Residue(-x, w, -q - 1, n - r);
    }
  }

  /** The sum of any two words at width `w`: its residue, and the parity of its quotient. */
  lemma SumParts(v0: u32, v1: u32, w: Width)
    ensures var sum := v0 as int + v1 as int;
            var low := v0 % Span(w) + v1 % Span(w);
            && Low32(sum) % Span(w) == (if low < Span(w) then low else low - Span(w))
            && sum / Span(w) == v0 / Span(w) + v1 / Span(w) + if low < Span(w) then 0 else 1
  {
    hide Low32;
    var n := Span(w);
    var sum, low := v0 as int + v1 as int, v0 % n + v1 % n;
    var q := v0 / n + v1 / n + if low < n then 0 else 1;
    SplitOf(v0, w);
    SplitOf(v1, w);
    assert sum == n * q + if low < n then low else low - n;
    Low32Residue(sum, w);
    Residue(sum, w, q, if low < n then low else low - n);
  }

  /** Zero and Sign tell of the residue `m` of a result at width `w`. */
  predicate Tells(f: Flags, m: int, w: Width) {
    (f.z <==> m == 0) && (f.s <==> m >= Half(w))
  }

  lemma UpdateTells(f: Flags, v: u32, w: Width)
    ensures Tells(UpdateZS(f, v, w), v % Span(w), w)
    ensures UpdateZS(f, v, w).c == f.c && UpdateZS(f, v, w).v == f.v
  {
  }

  lemma SubtractTells(f: Flags, v0: u32, v1: u32, w: Width)
    ensures Tells(SubFlags(f, v0, v1, w), (v0 - v1) % Span(w), w)
  {
    hide Low32, Difference;
    var n, r0, r1 := Span(w), v0 % Span(w), v1 % Span(w);
    DifferenceParts(v0, v1, w);
    SplitOf(v0, w);
    SplitOf(v1, w);
    var below := r0 < r1;
    Distribute(n, v0 / n, -(v1 / n));
    Distribute(n, v0 / n - v1 / n, if below then -1 else 0);
    Residue(v0 - v1, w, v0 / n - v1 / n - if below then 1 else 0, if below then r0 - r1 + n else r0 - r1);
  }

  lemma AddTells(f: Flags, v0: u32, v1: u32, w: Width)
    ensures Tells(AddFlags(f, v0, v1, w), (v0 as int + v1 as int) % Span(w), w)
  {
    hide Low32;
    Low32Residue(v0 as int + v1 as int, w);
  }

  /** What Carry reads of a comparison: the parity of the borrow, which a wide operand inflates. */
  predicate Borrows(v0: u32, v1: u32, w: Width) {
    (v1 / Span(w) + if v0 < v1 % Span(w) then 1 else 0) % 2 == 1
  }

  lemma SameParityNegated(x: int)
    ensures (0 - x) % 2 == 1 <==> x % 2 == 1
  {
  }

  lemma UnsignedFlags(f: Flags, v0: u32, v1: u32, w: Width)
    requires v0 < Span(w)
    ensures SubFlags(f, v0, v1, w).z <==> v0 == v1 % Span(w)
    ensures SubFlags(f, v0, v1, w).c <==> Borrows(v0, v1, w)
  {
    hide Low32, Difference;
    DifferenceParts(v0, v1, w);
    Residue(v0, w, 0, v0);
    SameParityNegated(v1 / Span(w) + if v0 < v1 % Span(w) then 1 else 0);
  }

  lemma BorrowOfFitting(v0: u32, v1: u32, w: Width)
    requires v1 < Span(w)
    ensures Borrows(v0, v1, w) <==> v0 < v1
    ensures v1 % Span(w) == v1
  {
    Residue(v1, w, 0, v1);
  }

  /**
   After a comparison whose first operand fits the width, as arg0 always does: the unsigned
   branches are right for every second operand that fits it too. A wider one, which is not
   masked, is always the larger, and then jz and jnz are right exactly when the low parts
   differ, jc and jae exactly when the borrow is odd, ja and jbe in either case.
  */
  lemma UnsignedBranches(f: Flags, v0: u32, v1: u32, w: Width)
    requires v0 < Span(w)
    ensures var after := SubFlags(f, v0, v1, w);
            var fits := v1 < Span(w);
            var equal := v0 == v1 % Span(w);
            && (after.z <==> equal) && (after.c <==> Borrows(v0, v1, w))
            && ((BranchTaken(JZ, after) <==> v0 == v1) <==> fits || !equal)
            && ((BranchTaken(JNZ, after) <==> v0 != v1) <==> fits || !equal)
            && ((BranchTaken(JC, after) <==> v0 < v1) <==> fits || Borrows(v0, v1, w))
            && ((BranchTaken(JAE, after) <==> v0 >= v1) <==> fits || Borrows(v0, v1, w))
            && ((BranchTaken(JA, after) <==> v0 > v1) <==> fits || equal || Borrows(v0, v1, w))
            && ((BranchTaken(JBE, after) <==> v0 <= v1) <==> fits || equal || Borrows(v0, v1, w))
  {
    hide SubFlags, Borrows;
    UnsignedFlags(f, v0, v1, w);
    if v1 < Span(w) {
      BorrowOfFitting(v0, v1, w);
    }
  }

  /** In general Zero decides equality modulo the width. */
  lemma ZeroDecidesCongruence(f: Flags, v0: u32, v1: u32, w: Width)
    ensures SubFlags(f, v0, v1, w).z <==> v0 % Span(w) == v1 % Span(w)
  {
    hide Low32, Difference;
    DifferenceParts(v0, v1, w);
  }

  /** Wide operands misjudged: B0 = 0 equals 0x100, and B0 = 5 is not below 0x107. */
  lemma WideOperandsMisjudged(f: Flags)
    ensures BranchTaken(JZ, SubFlags(f, 0, 0x100, 1))
    ensures !BranchTaken(JC, SubFlags(f, 5, 0x107, 1)) && BranchTaken(JA, SubFlags(f, 5, 0x107, 1))
  {
    UnsignedBranches(f, 0, 0x100, 1);
    UnsignedBranches(f, 5, 0x107, 1);
  }

  /** Every signed branch verdict agrees with the order of the operands' signed readings. */
  predicate SignedVerdictsRight(f: Flags, v0: u32, v1: u32, w: Width) {
    var (a, b) := (Signed(v0, w), Signed(v1, w));
    && (BranchTaken(JG, f) <==> a > b) && (BranchTaken(JGE, f) <==> a >= b)
    && (BranchTaken(JL, f) <==> a < b) && (BranchTaken(JLE, f) <==> a <= b)
  }

  lemma SignedOf(v: u32, w: Width)
    requires v < Span(w)
    ensures Signed(v, w) == if v >= Half(w) then v - Span(w) else v
    ensures SignBit(v, w) <==> v >= Half(w)
  {
    Residue(v, w, 0, v);
  }

  /**
   After a comparison of any two words, jg, jge, jl and jle read the order of their signed
   readings at the width, except that a second operand reading as the width's minimum is its
   own negation: then every first operand but one reading the same is judged less.
  */
  lemma SignedBranches(f: Flags, v0: u32, v1: u32, w: Width)
    ensures var after := SubFlags(f, v0, v1, w);
            var (r0, r1) := (v0 % Span(w), v1 % Span(w));
            && (SignedVerdictsRight(after, v0, v1, w) <==> r1 != Half(w) || r0 == r1)
            && (r1 == Half(w) ==> !BranchTaken(JG, after) && (BranchTaken(JL, after) <==> r0 != r1))
  {
    hide Low32, Difference;
    DifferenceParts(v0, v1, w);
    NegatedParts(v1, w);
  }

  lemma CarryOfSum(f: Flags, v0: u32, v1: u32, w: Width)
    ensures var after := AddFlags(f, v0, v1, w);
            var carried := if v0 % Span(w) + v1 % Span(w) < Span(w) then 0 else 1;
            && (after.c <==> (v0 / Span(w) + v1 / Span(w) + carried) % 2 == 1)
            && (v0 < Span(w) && v1 < Span(w) ==> (after.c <==> v0 as int + v1 as int >= Span(w)))
  {
    hide Low32, Span;
    SumParts(v0, v1, w);
    if v0 < Span(w) && v1 < Span(w) {
      Residue(v0, w, 0, v0);
      Residue(v1, w, 0, v1);
    }
  }

  lemma SignsOfSum(f: Flags, v0: u32, v1: u32, w: Width)
    ensures var after := AddFlags(f, v0, v1, w);
            var sum := Signed(v0, w) + Signed(v1, w);
            && (after.v <==> !(-Half(w) <= sum < Half(w)))
            && (after.s != after.v <==> sum < 0)
  {
    hide Low32;
    SumParts(v0, v1, w);
  }

  /**
   After `adds` of any two words: Carry is the parity of the sum's quotient, so the carry out
   of the width when both fit it; Overflow reads the signed sum against its range.
  */
  lemma AdditionFlags(f: Flags, v0: u32, v1: u32, w: Width)
    ensures var after := AddFlags(f, v0, v1, w);
            var sum := Signed(v0, w) + Signed(v1, w);
            var carried := if v0 % Span(w) + v1 % Span(w) < Span(w) then 0 else 1;
            && (after.c <==> (v0 / Span(w) + v1 / Span(w) + carried) % 2 == 1)
            && (v0 < Span(w) && v1 < Span(w) ==> (after.c <==> v0 as int + v1 as int >= Span(w)))
            && (after.v <==> !(-Half(w) <= sum < Half(w)))
            && (after.s != after.v <==> sum < 0)
  {
    hide AddFlags, Signed;
    CarryOfSum(f, v0, v1, w);
    SignsOfSum(f, v0, v1, w);
  }

  // ---- multiplication and division ----

  lemma MulMonotone(x: nat, y: nat, h: nat)
    requires x <= h && y <= h
    ensures 0 <= x * y <= h * h
  {
    assert x * y <= h * y;
    assert h * y <= h * h;
  }

  lemma ProductBound(a: int, b: int, h: int)
    requires -h <= a < h && -h <= b < h
    ensures -(h * h) <= a * b <= h * h
  {
    var x: int, y: int := Magnitude(a), Magnitude(b);
    MulMonotone(x, y, h);
    if a < 0 && b < 0 {
      assert a * b == x * y;
    } else if a < 0 {
      assert a * b == -(x * y);
    } else if b < 0 {
      assert a * b == -(x * y);
    }
  }

  lemma ByteHalves(product: int)
    requires -0x4000 <= product <= 0x4000
    ensures var p := Low32(product);
            Signed(p % 0x100 + 0x100 * (p / 0x100 % 0x100), 2) == product
  {
    var r := if product < 0 then product + 0x1_0000 else product;
    var hi, lo := r / 0x100, r % 0x100;
    assert r == 0x100 * hi + lo && 0 <= hi < 0x100;
    var p := Low32(product);
    assert p == if product < 0 then product + TWO_32 else product;
    var q := if product < 0 then hi + 0xFF_FF00 else hi;
    DivUnique(p, 0x100, q, lo);
    DivUnique(q, 0x100, if product < 0 then 0xFF_FF else 0, hi);
    SignedOf(r, 2);
  }

  lemma WordHalves(product: int)
    requires -0x4000_0000 <= product <= 0x4000_0000
    ensures var p := Low32(product);
            Signed(p % 0x1_0000 + 0x1_0000 * (p / 0x1_0000 % 0x1_0000), 4) == product
  {
    var p := Low32(product);
    assert p == if product < 0 then product + TWO_32 else product;
    var hi, lo := p / 0x1_0000, p % 0x1_0000;
    assert p == 0x1_0000 * hi + lo;
    DivUnique(hi, 0x1_0000, 0, hi);
    SignedOf(p, 4);
  }

  lemma HalvesRebuild(product: int, w: Width)
    requires w != 4 && -(Half(w) * Half(w)) <= product <= Half(w) * Half(w)
    ensures var p := Low32(product);
            Signed(p % Span(w) + Span(w) * (ProductHigh(p, w) % Span(w)), 2 * w) == product
  {
    if w == 1 {
      ByteHalves(product);
    } else {
      WordHalves(product);
    }
  }

  /** At widths 1 and 2 the two stored halves are the exact signed product. */
  lemma ProductIsExact(v0: u32, v1: u32, w: Width)
    requires w != 4
    ensures var p := Product(v0, v1, w);
            Signed(p % Span(w) + Span(w) * (ProductHigh(p, w) % Span(w)), 2 * w) == Signed(v0, w) * Signed(v1, w)
  {
    var product := Signed(v0, w) * Signed(v1, w);
    ProductBound(Signed(v0, w), Signed(v1, w), Half(w));
    HalvesRebuild(product, w);
  }

  lemma LowFits(x: int)
    ensures Low32(x) == x <==> 0 <= x < TWO_32
    ensures Low32(x) / TWO_32 == 0
  {
  }

  lemma SameResidue(x: int, k: int)
    ensures (x + TWO_32 * k) % TWO_32 == x % TWO_32
  {
    DivUnique(x + TWO_32 * k, TWO_32, x / TWO_32 + k, x % TWO_32);
  }

  /**
   At width 4 the product is kept modulo 2^32 and its high half is always zero, so the two
   halves are the exact signed product if and only if that is no negative and no wider number.
  */
  lemma WideProductLosesHighWord(v0: u32, v1: u32)
    ensures Product(v0, v1, 4) == (v0 as int * v1 as int) % TWO_32
    ensures ProductHigh(Product(v0, v1, 4), 4) == 0
    ensures Product(v0, v1, 4) + TWO_32 * ProductHigh(Product(v0, v1, 4), 4) == Signed(v0, 4) * Signed(v1, 4)
            <==> 0 <= Signed(v0, 4) * Signed(v1, 4) < TWO_32
  {
    LowFits(Signed(v0, 4) * Signed(v1, 4));
    var a, b := Signed(v0, 4), Signed(v1, 4);
    SignedOf(v0, 4);
    SignedOf(v1, 4);
    var i, j := if a < 0 then 1 else 0, if b < 0 then 1 else 0;
    var x, y: int := v0, v1;
    assert x * y == a * b + TWO_32 * (i * y + j * x - TWO_32 * i * j);
    SameResidue(a * b, i * y + j * x - TWO_32 * i * j);
  }

  lemma SignedSplit(n: int, d: int, k: int, r: int)
    requires Magnitude(n) == Magnitude(d) * k + r
    ensures n == d * (if (n < 0) == (d < 0) then k else -k) + if n < 0 then -r else r
  {
    if d < 0 {
      assert d * k == -(Magnitude(d) * k);
      assert d * -k == Magnitude(d) * k;
    } else {
      assert d * -k == -(d * k);
    }
  }

  lemma AtLeastDouble(y: int, k: int)
    requires y >= 2 && k >= 0
    ensures y * k >= 2 * k
  {
    assert (y - 2) * k >= 0;
  }

  lemma QuotientParts(x: int, y: int)
    requires x >= 0 && y > 0
    ensures x == y * (x / y) + x % y && 0 <= x % y < y
    ensures 0 <= x / y <= x && (x / y == x ==> y == 1 || x == 0)
  {
    var k := x / y;
    DivShrinks(x, y);
    if y >= 2 {
      AtLeastDouble(y, k);
    }
  }

  lemma TruncParts(n: int, d: int)
    requires d != 0
    ensures var (q, r) := (TruncDiv(n, d), TruncRem(n, d));
            && d * q + r == n && Magnitude(r) < Magnitude(d) && (r != 0 ==> (r < 0 <==> n < 0))
            && -Magnitude(n) <= q <= Magnitude(n)
            && (q == Magnitude(n) ==> n == 0 || (d == 1 && n > 0) || (d == -1 && n < 0))
  {
    var x, y := Magnitude(n), Magnitude(d);
    QuotientParts(x, y);
    SignedSplit(n, d, x / y, x % y);
  }

  lemma SignedLow32(v: int)
    requires -TWO_31 <= v < TWO_31
    ensures Signed(Low32(v), 4) == v
  {
  }

  /**
   A division that does not fault leaves the quotient and remainder of the 32-bit signed
   operands: they reconstruct the dividend, the remainder is smaller than the divisor and
   takes the dividend's sign, and both fit a signed 32-bit word.
  */
  lemma DivisionReconstructs(v0: u32, v1: u32)
    requires !DivFaults(v0, v1)
    ensures var (n, d) := (Signed(v0, 4), Signed(v1, 4));
            var (q, r) := (TruncDiv(n, d), TruncRem(n, d));
            && d * q + r == n && Magnitude(r) < Magnitude(d) && (r != 0 ==> (r < 0 <==> n < 0))
            && Signed(Low32(q), 4) == q && Signed(Low32(r), 4) == r
  {
    var n, d := Signed(v0, 4), Signed(v1, 4);
    SignedOf(v0, 4);
    SignedOf(v1, 4);
    TruncParts(n, d);
    SignedLow32(TruncDiv(n, d));
    SignedLow32(TruncRem(n, d));
  }

  // ---- shifts ----

  /** The bit just above the width after a shift by at most the width. */
  lemma CarriedBit(v: u32, n: nat, w: Width)
    requires n <= 8 * w
    ensures v * Pow2(n) / Span(w) == v / Pow2(8 * w - n)
  {
    hide Pow2;
    Pow2Width(w);
    Pow2Adds(8 * w - n, n);
    QuotientOfMultiple(v, Pow2(8 * w - n), Pow2(n));
  }

  lemma Reassociate(a: int, b: int, c: int)
    ensures a * (b * c) == c * (a * b)
  {
  }

  lemma Pow2Zero()
    ensures Pow2(0) == 1 && Pow2(1) == 2
  {
  }

  /** From the width on, the shifted value is a multiple of the span, even past it. */
  lemma ShiftedOut(v: u32, n: nat, w: Width)
    requires n >= 8 * w
    ensures (v * Pow2(n)) % Span(w) == 0
    ensures n > 8 * w ==> (v * Pow2(n) / Span(w)) % 2 == 0
  {
    hide Pow2;
    var m := n - 8 * w;
    Pow2Width(w);
    Pow2Adds(m, 8 * w);
    var k := v * Pow2(m);
    Reassociate(v, Pow2(m), Span(w));
    ModOfMultiple(Span(w), k);
    if m > 0 {
      Pow2Adds(m - 1, 1);
      Pow2Zero();
      Reassociate(v, Pow2(m - 1), 2);
      ModOfMultiple(2, v * Pow2(m - 1));
    }
  }

  /**
   For every count from 0 on, lsl and asl multiply by 2^n modulo the width, and Carry is
   the bit that landed just above it.
  */
  lemma ShiftLeftMultiplies(v: u32, n: nat, w: Width, carry: bool)
    requires v < Span(w)
    ensures var r := ShiftLeft(v, n, w, carry);
            && r.value % Span(w) == (v * Pow2(n)) % Span(w)
            && (r.carry <==> (v * Pow2(n) / Span(w)) % 2 == 1)
  {
    hide Pow2, Low32;
    Low32Residue(v * Pow2(n), w);
    if n == 0 {
      Pow2Zero();
      DivShrinks(v, Span(w));
    } else if n <= 8 * w {
      CarriedBit(v, n, w);
    }
    if n >= 8 * w {
      ShiftedOut(v, n, w);
      Residue(0, w, 0, 0);
    }
  }

  lemma Pow2Grows(a: nat, b: nat)
    requires a <= b
    ensures Pow2(a) <= Pow2(b)
  {
    Pow2Adds(a, b - a);
    MulAtLeast(Pow2(a), Pow2(b - a));
  }

  /** From the width on, nothing of the word is left. */
  lemma ShiftedAway(v: u32, n: nat, w: Width)
    requires v < Span(w) && n >= 8 * w
    ensures v / Pow2(n) == 0
  {
    hide Pow2;
    Pow2Width(w);
    Pow2Grows(8 * w, n);
    DivShrinks(v, Pow2(n));
  }

  lemma DivByOne(v: int)
    ensures v / 1 == v
  {
  }

  lemma SmallWord(v: int)
    requires 0 <= v < TWO_32
    ensures Low32(v) == v
  {
  }

  lemma NoBit(v: u32, k: nat)
    requires v / Pow2(k) == 0
    ensures !BitAt(v, k)
  {
  }

  /** lsr is floor division by 2^n, and Carry the bit dropped last. */
  lemma ShiftRightDivides(v: u32, n: nat, w: Width, carry: bool)
    requires v < Span(w)
    ensures var r := ShiftRight(v, n, w, carry);
            && r.value == v / Pow2(n)
            && (r.carry <==> n > 0 && BitAt(v, n - 1))
  {
    hide Pow2, BitAt, Low32;
    if n == 0 {
      Pow2Zero();
      DivByOne(v);
    } else if n < 8 * w {
      DivShrinks(v, Pow2(n));
      SmallWord(v / Pow2(n));
    } else {
      ShiftedAway(v, n, w);
      if n > 8 * w {
        ShiftedAway(v, n - 1, w);
        NoBit(v, n - 1);
      }
    }
  }

  lemma AllOnes(w: Width)
    ensures Signed(0xFFFF_FFFF, w) == -1
  {
  }

  lemma SignedOfLow32(x: int, w: Width)
    requires -Half(w) <= x < Half(w)
    ensures Signed(Low32(x), w) == x
  {
    Low32Residue(x, w);
    Residue(x, w, if x < 0 then -1 else 0, if x < 0 then x + Span(w) else x);
  }

  /** A signed word's quotient stays in range, and is its sign once the count reaches the width. */
  lemma SignedQuotient(x: int, n: nat, w: Width)
    requires -Half(w) <= x < Half(w)
    ensures -Half(w) <= x / Pow2(n) < Half(w)
    ensures n >= 8 * w ==> x / Pow2(n) == if x < 0 then -1 else 0
  {
    hide Pow2;
    Pow2Width(w);
    var d := Pow2(n);
    if n >= 8 * w {
      Pow2Grows(8 * w, n);
      DivUnique(x, d, if x < 0 then -1 else 0, if x < 0 then x + d else x);
    } else {
      var q := x / d;
      assert x == d * q + x % d;
      MulAtLeast(d, q);
      MulAtLeast(d, q + 1);
    }
  }

  lemma SameParityOfDifference(q: int, h: int)
    ensures (q - 2 * h) % 2 == q % 2
  {
  }

  lemma SameParity(v: int, s: int, d: int, h: int)
    requires d > 0 && s == v - d * (2 * h)
    ensures (v / d) % 2 == (s / d) % 2
  {
    var q, r := v / d, v % d;
    assert v == d * q + r;
    var e := 2 * h;
    assert d * (q - e) == d * q - d * e;
    DivUnique(s, d, q - e, r);
    SameParityOfDifference(q, h);
  }

  /** Below the width, a word and its signed reading have the same bits. */
  lemma SignedBit(v: u32, k: nat, w: Width)
    requires v < Span(w) && k < 8 * w
    ensures BitAt(v, k) <==> (Signed(v, w) / Pow2(k)) % 2 == 1
  {
    hide Pow2;
    SignedOf(v, w);
    if v >= Half(w) {
      Pow2Width(w);
      Pow2Zero();
      Pow2Adds(k, 8 * w - k);
      Pow2Adds(1, 8 * w - k - 1);
      SameParity(v, Signed(v, w), Pow2(k), Pow2(8 * w - k - 1));
    }
  }

  /** Arithmetic shift right: floor division of the signed value, Carry its bit dropped last. */
  lemma ShiftArithmeticDivides(v: u32, n: nat, w: Width, carry: bool)
    requires v < Span(w)
    ensures var r := ShiftArithmetic(v, n, w, carry);
            && Signed(r.value, w) == Signed(v, w) / Pow2(n)
            && (r.carry <==> n > 0 && (Signed(v, w) / Pow2(n - 1)) % 2 == 1)
  {
    hide Pow2, Low32, Signed;
    var x := Signed(v, w);
    SignedOf(v, w);
    SignedQuotient(x, n, w);
    SignedOfLow32(x / Pow2(n), w);
    if n == 0 {
      Pow2Zero();
      DivByOne(x);
    } else if n <= 8 * w {
      SignedBit(v, n - 1, w);
    } else {
      SignedQuotient(x, n - 1, w);
    }
    AllOnes(w);
    SignedOf(0, w);
  }

  // ---- bits ----

  lemma HalfBit(v: nat, k: nat)
    ensures BitAt(v, k + 1) <==> BitAt(v / 2, k)
  {
    hide Pow2;
    var p, h := Pow2(k), v / 2;
    Pow2Adds(1, k);
    Pow2Zero();
    var q, r := h / p, h % p;
    assert h == p * q + r;
    DivUnique(v, 2 * p, q, 2 * r + v % 2);
  }

  lemma FirstBit(v: nat)
    ensures BitAt(v, 0) <==> v % 2 == 1
  {
    Pow2Zero();
    DivByOne(v);
  }

  /** A zipped number has exactly the combined bits, and none from its width on. */
  lemma {:induction false} ZippedBit(combine: (bool, bool) -> bool, a: nat, b: nat, n: nat, k: nat)
    requires k < n
    ensures BitAt(ZipBits(combine, a, b, n), k) <==> combine(BitAt(a, k), BitAt(b, k))
  {
    hide BitAt;
    var r := ZipBits(combine, a, b, n);
    if k == 0 {
      FirstBit(a);
      FirstBit(b);
      FirstBit(r);
    } else {
      HalfBit(a, k - 1);
      HalfBit(b, k - 1);
      HalfBit(r, k - 1);
      ZippedBit(combine, a / 2, b / 2, n - 1, k - 1);
      assert r / 2 == ZipBits(combine, a / 2, b / 2, n - 1);
    }
  }

  lemma MulTwice(a: int, b: int, q: int)
    ensures (a * (2 * b)) * q == a * (2 * (b * q))
  {
  }

  /** Truncation to a width keeps the bits below it. */
  lemma LowBit(v: u32, k: nat, w: Width)
    requires k < 8 * w
    ensures BitAt(v % Span(w), k) <==> BitAt(v, k)
  {
    hide Pow2;
    var q := v / Span(w);
    var h := Pow2(8 * w - k - 1) * q;
    SplitOf(v, w);
    Pow2Width(w);
    Pow2Zero();
    Pow2Adds(k, 8 * w - k);
    Pow2Adds(1, 8 * w - k - 1);
    Reassociate(Pow2(k), 2 * Pow2(8 * w - k - 1), q);
    Reassociate(q, Pow2(k), 2 * Pow2(8 * w - k - 1));
    MulTwice(Pow2(k), Pow2(8 * w - k - 1), q);
    SameParity(v, v % Span(w), Pow2(k), h);
  }
}
