/** An assembler for the instruction format, and its inverse laws with the decoder. */
module Assemble {
  import opened Wrappers
  import opened Words
  import opened Bytecode
  import opened Decode
  import Arithmetic

  function Le16(v: nat): seq<byte> {
    [v % 0x100, (v / 0x100) % 0x100]
  }

  function Le32(v: nat): seq<byte> {
    Le16(v % 0x1_0000) + Le16(v / 0x1_0000)
  }

  predicate IndexFits(arg: IndexArg, imm: bool) {
    match arg
    case ImmIndex(v) => imm && v < 0x1_0000
    case RegIndex(reg) => !imm && Exists(reg)
  }

  function IndexBytes(arg: IndexArg): seq<byte> {
    match arg
    case ImmIndex(v) => Le16(v)
    case RegIndex(reg) => [Selector(reg)]
  }

  /** `operand` is one that addressing mode `mode` can encode. */
  predicate Fits(mode: AddrMode, operand: Operand) {
    match operand
    case NoOperand => mode.ModeNone?
    case Imm(v) => (mode.Imm8? && v < 0x100) || (mode.Imm16? && v < 0x1_0000) || mode.Imm32?
    case Str(bytes) => mode.ImmStr? && |bytes| < 0x1_0000
    case Reg(reg) => (mode.RegS? || mode.RegAb? || mode.RegI? || mode.RegL?) && Exists(reg)
    case Indexed(base, index, len) =>
      && IsIndexed(mode) && Exists(base) && IndexFits(index, IndexIsImm(mode))
      && (len.Some? <==> HasTrailer(mode))
      && (len.Some? ==> IndexFits(len.value, TrailerIsImm(mode)))
  }

  function TrailerBytes(len: Option<IndexArg>): seq<byte> {
    if len.Some? then IndexBytes(len.value) else []
  }

  function OperandBytes(mode: AddrMode, operand: Operand): seq<byte> {
    match operand
    case NoOperand => []
    case Imm(v) => if mode.Imm8? then [v % 0x100] else if mode.Imm16? then Le16(v) else Le32(v)
    case Str(bytes) => Le16(|bytes|) + bytes
    case Reg(reg) => [Selector(reg)]
    case Indexed(base, index, len) =>
      [Selector(base)] + IndexBytes(index) + TrailerBytes(len)
  }

  function OpBytes(op: Op): seq<byte> {
    [op.byte, op.modeByte] + (OperandBytes(Mode0(op), op.arg0) + OperandBytes(Mode1(op), op.arg1))
  }

  /** An instruction the format can express, with its true length. */
  predicate WellFormed(op: Op) {
    && IsOpcode(op.byte)
    && Fits(Mode0(op), op.arg0)
    && Fits(Mode1(op), op.arg1)
    && op.len == |OpBytes(op)|
  }

  // ---- one operand ----

  predicate At(code: seq<byte>, pos: nat, bytes: seq<byte>) {
    pos + |bytes| <= |code| && code[pos..pos + |bytes|] == bytes
  }

  lemma AtSplit(code: seq<byte>, pos: nat, a: seq<byte>, b: seq<byte>)
    ensures At(code, pos, a + b) <==> At(code, pos, a) && At(code, pos + |a|, b)
  {
    if At(code, pos, a + b) {
      var s := code[pos..pos + |a + b|];
      assert a == s[..|a|] == code[pos..pos + |a|];
      assert b == s[|a|..] == code[pos + |a|..pos + |a| + |b|];
    }
    if At(code, pos, a) && At(code, pos + |a|, b) {
      assert code[pos..pos + |a + b|] == code[pos..pos + |a|] + code[pos + |a|..pos + |a| + |b|];
    }
  }

  lemma AtEmpty(code: seq<byte>, pos: nat)
    ensures At(code, pos, []) <==> pos <= |code|
  {
  }

  lemma AtReach(code: seq<byte>, pos: nat, bytes: seq<byte>)
    ensures At(code, pos, bytes) ==> pos + |bytes| <= |code|
  {
  }

  lemma LeSizes()
    ensures forall v :: |Le16(v)| == 2
    ensures forall v :: |Le32(v)| == 4
  {
  }

  lemma U16Sound(code: seq<byte>, pos: nat)
    requires U16(code, pos).Ok?
    ensures U16(code, pos).value.1 == pos + 2 && At(code, pos, Le16(U16(code, pos).value.0))
  {
  }

  lemma U16Complete(code: seq<byte>, pos: nat, v: u16)
    requires At(code, pos, Le16(v))
    ensures U16(code, pos) == Ok((v, pos + 2))
  {
  }

  lemma U32Sound(code: seq<byte>, pos: nat)
    requires U32(code, pos).Ok?
    ensures U32(code, pos).value.1 == pos + 4 && At(code, pos, Le32(U32(code, pos).value.0))
  {
    hide Le16, At;
    var v := U32(code, pos).value.0;
    var lo, hi := U16(code, pos).value.0, U16(code, pos + 2).value.0;
    U16Sound(code, pos);
    U16Sound(code, pos + 2);
    Arithmetic.DivUnique(v, 0x1_0000, hi, lo);
    LeSizes();
    AtSplit(code, pos, Le16(v % 0x1_0000), Le16(v / 0x1_0000));
  }

  lemma U32Complete(code: seq<byte>, pos: nat, v: u32)
    requires At(code, pos, Le32(v))
    ensures U32(code, pos) == Ok((v, pos + 4))
  {
    AtSplit(code, pos, Le16(v % 0x1_0000), Le16(v / 0x1_0000));
    U16Complete(code, pos, v % 0x1_0000);
    U16Complete(code, pos + 2, v / 0x1_0000);
  }

  lemma RegSound(code: seq<byte>, pos: nat)
    requires RegAt(code, pos).Ok?
    ensures var (reg, end) := RegAt(code, pos).value;
            end == pos + 1 && Exists(reg) && At(code, pos, [Selector(reg)])
  {
  }

  lemma RegComplete(code: seq<byte>, pos: nat, reg: RegId)
    requires Exists(reg) && At(code, pos, [Selector(reg)])
    ensures RegAt(code, pos) == Ok((reg, pos + 1))
  {
  }

  lemma IndexSound(code: seq<byte>, pos: nat, imm: bool)
    requires IndexAt(code, pos, imm).Ok?
    ensures var (arg, end) := IndexAt(code, pos, imm).value;
            end == pos + |IndexBytes(arg)| && IndexFits(arg, imm) && At(code, pos, IndexBytes(arg))
  {
    hide U16, RegAt, At;
    if imm {
      U16Sound(code, pos);
    } else {
      RegSound(code, pos);
    }
  }

  lemma IndexComplete(code: seq<byte>, pos: nat, imm: bool, arg: IndexArg)
    requires IndexFits(arg, imm) && At(code, pos, IndexBytes(arg))
    ensures IndexAt(code, pos, imm) == Ok((arg, pos + |IndexBytes(arg)|))
  {
    hide U16, RegAt, At;
    match arg
    case ImmIndex(v) => U16Complete(code, pos, v);
    case RegIndex(reg) => RegComplete(code, pos, reg);
  }

  lemma IndexedSound(code: seq<byte>, pos: nat, mode: AddrMode)
    requires IsIndexed(mode) && IndexedAt(code, pos, mode).Ok?
    ensures var (operand, end) := IndexedAt(code, pos, mode).value;
            && Fits(mode, operand) && end == pos + |OperandBytes(mode, operand)|
            && At(code, pos, OperandBytes(mode, operand))
  {
    hide RegAt, IndexAt, At, IndexBytes, Selector;
    var Indexed(base, index, len) := IndexedAt(code, pos, mode).value.0;
    RegSound(code, pos);
    IndexSound(code, pos + 1, IndexIsImm(mode));
    AtSplit(code, pos, [Selector(base)], IndexBytes(index));
    if HasTrailer(mode) {
      IndexSound(code, pos + 1 + |IndexBytes(index)|, TrailerIsImm(mode));
    } else {
      AtReach(code, pos + 1, IndexBytes(index));
      AtEmpty(code, pos + 1 + |IndexBytes(index)|);
    }
    AtSplit(code, pos, [Selector(base)] + IndexBytes(index), TrailerBytes(len));
  }

  lemma IndexedComplete(code: seq<byte>, pos: nat, mode: AddrMode, operand: Operand)
    requires IsIndexed(mode) && Fits(mode, operand) && At(code, pos, OperandBytes(mode, operand))
    ensures IndexedAt(code, pos, mode) == Ok((operand, pos + |OperandBytes(mode, operand)|))
  {
    hide RegAt, IndexAt, At, IndexBytes, Selector;
    var Indexed(base, index, len) := operand;
    AtSplit(code, pos, [Selector(base)] + IndexBytes(index), TrailerBytes(len));
    AtSplit(code, pos, [Selector(base)], IndexBytes(index));
    RegComplete(code, pos, base);
    IndexComplete(code, pos + 1, IndexIsImm(mode), index);
    if HasTrailer(mode) {
      IndexComplete(code, pos + 1 + |IndexBytes(index)|, TrailerIsImm(mode), len.value);
    }
  }

  lemma ByteSound(code: seq<byte>, pos: nat)
    ensures pos < |code| ==> At(code, pos, [code[pos] % 0x100])
  {
  }

  lemma StringSound(code: seq<byte>, pos: nat)
    requires OperandAt(code, pos, ImmStr).Ok?
    ensures var (operand, end) := OperandAt(code, pos, ImmStr).value;
            && Fits(ImmStr, operand) && end == pos + |OperandBytes(ImmStr, operand)|
            && At(code, pos, OperandBytes(ImmStr, operand))
  {
    hide U16, Le16;
    LeSizes();
    U16Sound(code, pos);
    var bytes := OperandAt(code, pos, ImmStr).value.0.bytes;
    AtSplit(code, pos, Le16(|bytes|), bytes);
  }

  /** An operand read in `mode` is one the mode can encode, and its bytes are the ones read. */
  lemma OperandSound(code: seq<byte>, pos: nat, mode: AddrMode)
    requires pos <= |code| && OperandAt(code, pos, mode).Ok?
    ensures var (operand, end) := OperandAt(code, pos, mode).value;
            && Fits(mode, operand) && end == pos + |OperandBytes(mode, operand)|
            && At(code, pos, OperandBytes(mode, operand))
  {
    hide RegAt, U16, U32, IndexedAt, Selector, Le16, Le32, At;
    LeSizes();
    AtEmpty(code, pos);
    if IsIndexed(mode) {
      IndexedSound(code, pos, mode);
    } else {
      match mode {
        case ModeNone =>
        case Imm8 => ByteSound(code, pos);
        case Imm16 => U16Sound(code, pos);
        case Imm32 => U32Sound(code, pos);
        case ImmStr => StringSound(code, pos);
        case _ => RegSound(code, pos);
      }
    }
  }

  lemma ByteComplete(code: seq<byte>, pos: nat, v: byte)
    requires At(code, pos, [v])
    ensures U8(code, pos) == Ok((v, pos + 1))
  {
    assert code[pos] == code[pos..pos + 1][0];
  }

  lemma SliceComplete(code: seq<byte>, pos: nat, bytes: seq<byte>)
    requires At(code, pos, bytes)
    ensures Slice(code, pos, |bytes|) == Ok((bytes, pos + |bytes|))
  {
  }

  /** Conversely, the bytes of an operand `mode` can encode are read back as that operand. */
  lemma OperandComplete(code: seq<byte>, pos: nat, mode: AddrMode, operand: Operand)
    requires Fits(mode, operand) && At(code, pos, OperandBytes(mode, operand))
    ensures OperandAt(code, pos, mode) == Ok((operand, pos + |OperandBytes(mode, operand)|))
  {
    hide RegAt, U16, U32, IndexedAt, Selector, Le16, Le32, At;
    LeSizes();
    match operand {
      case NoOperand => AtReach(code, pos, []);
      case Imm(v) =>
        if mode.Imm8? {
          ByteComplete(code, pos, v);
        } else if mode.Imm16? {
          U16Complete(code, pos, v);
        } else {
          U32Complete(code, pos, v);
        }
      case Str(bytes) =>
        AtSplit(code, pos, Le16(|bytes|), bytes);
        U16Complete(code, pos, |bytes|);
        SliceComplete(code, pos + 2, bytes);
      case Reg(reg) => RegComplete(code, pos, reg);
      case Indexed(_, _, _) => IndexedComplete(code, pos, mode, operand);
    }
  }

  // ---- one instruction ----

  /** `op` stands encoded in `code` at its own offset `pos`. */
  predicate Placed(code: seq<byte>, pos: nat, op: Op) {
    WellFormed(op) && op.offset == pos && At(code, pos, OpBytes(op))
  }

  lemma DecodedIsPlaced(code: seq<byte>, pos: nat)
    requires DecodeOne(code, pos).Ok?
    ensures Placed(code, pos, DecodeOne(code, pos).value)
  {
    hide OperandAt, Fits, OperandBytes, FromNibble;
    var op := DecodeOne(code, pos).value;
    var head := [op.byte, op.modeByte];
    var a0, a1 := OperandBytes(Mode0(op), op.arg0), OperandBytes(Mode1(op), op.arg1);
    assert At(code, pos, head);
    OperandSound(code, pos + 2, Mode0(op));
    OperandSound(code, pos + 2 + |a0|, Mode1(op));
    AtSplit(code, pos + 2, a0, a1);
    AtSplit(code, pos, head, a0 + a1);
  }

  lemma PlacedIsDecoded(code: seq<byte>, pos: nat, op: Op)
    requires Placed(code, pos, op)
    ensures DecodeOne(code, pos) == Ok(op)
  {
    hide OperandAt, Fits, OperandBytes, FromNibble;
    var head := [op.byte, op.modeByte];
    var a0, a1 := OperandBytes(Mode0(op), op.arg0), OperandBytes(Mode1(op), op.arg1);
    AtSplit(code, pos, head, a0 + a1);
    AtSplit(code, pos + 2, a0, a1);
    assert code[pos] == code[pos..pos + 2][0] && code[pos + 1] == code[pos..pos + 2][1];
    OperandComplete(code, pos + 2, Mode0(op), op.arg0);
    OperandComplete(code, pos + 2 + |a0|, Mode1(op), op.arg1);
  }

  /** Decoding at `pos` yields `op` exactly when `op`'s own encoding is what stands there. */
  lemma DecodeOneInverse(code: seq<byte>, pos: nat, op: Op)
    ensures DecodeOne(code, pos) == Ok(op) <==> Placed(code, pos, op)
  {
    if DecodeOne(code, pos) == Ok(op) {
      DecodedIsPlaced(code, pos);
    }
    if Placed(code, pos, op) {
      PlacedIsDecoded(code, pos, op);
    }
  }

  // ---- whole jobs ----

  function End(ops: seq<Op>, start: nat): nat {
    if ops == [] then start else End(ops[1..], start + ops[0].len)
  }

  /** Well-formed instructions laid end to end from `start`. */
  predicate Tiled(ops: seq<Op>, start: nat) {
    ops == [] || (WellFormed(ops[0]) && ops[0].offset == start && Tiled(ops[1..], start + ops[0].len))
  }

  function JobBytes(ops: seq<Op>): seq<byte> {
    if ops == [] then [] else OpBytes(ops[0]) + JobBytes(ops[1..])
  }

  predicate HasEoj(ops: seq<Op>) {
    exists op <- ops :: op.byte == EOJ
  }

  /** The instructions `ops` stand one after the other in `code` from `start`. */
  predicate Encoded(code: seq<byte>, ops: seq<Op>, start: nat) {
    ops == [] || (Placed(code, start, ops[0]) && Encoded(code, ops[1..], start + ops[0].len))
  }

  lemma WellFormedLength(op: Op)
    ensures WellFormed(op) ==> op.len == |OpBytes(op)| >= 2
  {
  }

  lemma {:induction false} TiledLength(ops: seq<Op>, start: nat)
    requires Tiled(ops, start)
    ensures End(ops, start) == start + |JobBytes(ops)|
  {
    hide WellFormed, OpBytes;
    if ops != [] {
      WellFormedLength(ops[0]);
      TiledLength(ops[1..], start + ops[0].len);
    }
  }

  /** Encoded instructions are a tiling whose assembled bytes are that stretch of the code. */
  lemma {:induction false} EncodedIsAssembled(code: seq<byte>, ops: seq<Op>, start: nat)
    requires start <= |code|
    ensures Encoded(code, ops, start) <==> Tiled(ops, start) && At(code, start, JobBytes(ops))
    ensures Tiled(ops, start) ==> End(ops, start) == start + |JobBytes(ops)|
  {
    hide WellFormed, OpBytes, At;
    AtEmpty(code, start);
    if ops != [] {
      AtSplit(code, start, OpBytes(ops[0]), JobBytes(ops[1..]));
      WellFormedLength(ops[0]);
      AtReach(code, start, OpBytes(ops[0]));
      if start + ops[0].len <= |code| {
        EncodedIsAssembled(code, ops[1..], start + ops[0].len);
      } else if Tiled(ops[1..], start + ops[0].len) {
        TiledLength(ops[1..], start + ops[0].len);
      }
    }
  }

  /** Where the walk stops after `ops`: at the end, or at a bad tail behind an eoj. */
  predicate StopsAt(code: seq<byte>, pos: nat, seenEoj: bool) {
    pos == |code| || (pos < |code| && seenEoj && DecodeOne(code, pos).Err?)
  }

  lemma HasEojHead(ops: seq<Op>)
    ensures HasEoj(ops) <==> ops != [] && (ops[0].byte == EOJ || HasEoj(ops[1..]))
  {
  }

  lemma PrependTwice(first: seq<Op>, second: seq<Op>, tail: Result<seq<Op>, DecodeError>)
    ensures Prepend(first, Prepend(second, tail)) == Prepend(first + second, tail)
  {
    if tail.Ok? {
      assert first + (second + tail.value) == first + second + tail.value;
    }
  }

  /** Encoded instructions are walked over one by one. */
  lemma {:induction false} DecodeFromEncoded(code: seq<byte>, ops: seq<Op>, start: nat, seenEoj: bool)
    requires Encoded(code, ops, start)
    ensures DecodeFrom(code, start, seenEoj) ==
            Prepend(ops, DecodeFrom(code, End(ops, start), seenEoj || HasEoj(ops)))
  {
    hide DecodeOne, Placed, HasEoj, DecodeFrom, Prepend;
    HasEojHead(ops);
    PrependNothing(DecodeFrom(code, start, seenEoj));
    if ops != [] {
      DecodeOneInverse(code, start, ops[0]);
      DecodeFromSteps(code, start, [], seenEoj);
      DecodeFromEncoded(code, ops[1..], start + ops[0].len, seenEoj || ops[0].byte == EOJ);
      PrependTwice([ops[0]], ops[1..], DecodeFrom(code, End(ops, start), seenEoj || HasEoj(ops)));
      assert [] + [ops[0]] == [ops[0]] && [ops[0]] + ops[1..] == ops;
    }
  }

  lemma {:induction false} DecodeFromIsEncoded(code: seq<byte>, start: nat, seenEoj: bool)
    requires start <= |code| && DecodeFrom(code, start, seenEoj).Ok?
    ensures var ops := DecodeFrom(code, start, seenEoj).value;
            Encoded(code, ops, start) && StopsAt(code, End(ops, start), seenEoj || HasEoj(ops))
    decreases |code| - start
  {
    hide DecodeOne, Placed;
    var ops := DecodeFrom(code, start, seenEoj).value;
    if start < |code| && DecodeOne(code, start).Ok? {
      var op := DecodeOne(code, start).value;
      DecodeOneAdvances(code, start);
      DecodeOneInverse(code, start, op);
      DecodeFromIsEncoded(code, start + op.len, seenEoj || op.byte == EOJ);
      assert ops[1..] == DecodeFrom(code, start + op.len, seenEoj || op.byte == EOJ).value;
      assert HasEoj(ops) <==> op.byte == EOJ || HasEoj(ops[1..]);
    }
  }

  /**
   A successful decode, both ways: `ops` is the result exactly when its instructions,
   re-encoded, tile the code from 0, and the tiling ends at the end of the code or at an
   undecodable instruction behind a decoded eoj.
  */
  lemma DecodeJobSucceeds(code: seq<byte>, ops: seq<Op>)
    ensures DecodeJob(code) == Ok(ops)
            <==> Tiled(ops, 0) && At(code, 0, JobBytes(ops)) && StopsAt(code, End(ops, 0), HasEoj(ops))
  {
    hide DecodeOne, Placed, At;
    EncodedIsAssembled(code, ops, 0);
    if DecodeJob(code) == Ok(ops) {
      DecodeFromIsEncoded(code, 0, false);
    }
    if Encoded(code, ops, 0) && StopsAt(code, End(ops, 0), HasEoj(ops)) {
      DecodeFromEncoded(code, ops, 0, false);
      assert ops + [] == ops;
    }
  }

  /** The stretch before the first bad instruction; empty of eojs when the decode fails. */
  lemma {:induction false} FailureWitness(code: seq<byte>, start: nat, seenEoj: bool) returns (ops: seq<Op>)
    requires start <= |code| && DecodeFrom(code, start, seenEoj).Err?
    ensures Encoded(code, ops, start) && !HasEoj(ops) && !seenEoj && End(ops, start) < |code|
    ensures DecodeOne(code, End(ops, start)) == Err(DecodeFrom(code, start, seenEoj).error)
    decreases |code| - start
  {
    hide DecodeOne, Placed;
    ops := [];
    if DecodeOne(code, start).Ok? {
      var op := DecodeOne(code, start).value;
      DecodeOneAdvances(code, start);
      DecodeOneInverse(code, start, op);
      var rest := FailureWitness(code, start + op.len, seenEoj || op.byte == EOJ);
      ops := [op] + rest;
      assert ops[1..] == rest;
    }
  }

  /** `ops` is an eoj-free tiling of the code up to an instruction that fails with `e`. */
  predicate FailsAfter(code: seq<byte>, ops: seq<Op>, e: DecodeError) {
    && Tiled(ops, 0) && At(code, 0, JobBytes(ops)) && !HasEoj(ops)
    && End(ops, 0) < |code| && DecodeOne(code, End(ops, 0)) == Err(e)
  }

  /** Decoding fails exactly when an undecodable instruction precedes every eoj. */
  lemma DecodeJobFails(code: seq<byte>, e: DecodeError)
    ensures DecodeJob(code) == Err(e) <==> exists ops :: FailsAfter(code, ops, e)
  {
    hide DecodeOne, Placed, At;
    if DecodeJob(code) == Err(e) {
      var ops := FailureWitness(code, 0, false);
      EncodedIsAssembled(code, ops, 0);
      assert FailsAfter(code, ops, e);
    }
    forall ops | FailsAfter(code, ops, e)
      ensures DecodeJob(code) == Err(e)
    {
      EncodedIsAssembled(code, ops, 0);
      DecodeFromEncoded(code, ops, 0, false);
    }
  }

  /** Any well-formed instructions laid out from 0 assemble to bytes that decode back to them. */
  lemma AssembledJobDecodes(ops: seq<Op>)
    requires Tiled(ops, 0)
    ensures DecodeJob(JobBytes(ops)) == Ok(ops)
  {
    hide DecodeOne;
    TiledLength(ops, 0);
    DecodeJobSucceeds(JobBytes(ops), ops);
  }

  // ---- boundaries of a decoded job ----

  /** In a tiling, the successor offset of any instruction but the last is the next one's offset. */
  lemma {:induction false} TiledSuccessor(ops: seq<Op>, start: nat, i: nat)
    requires Tiled(ops, start) && i < |ops|
    ensures ops[i].offset >= start && ops[i].len >= 2
    ensures ops[i].offset + ops[i].len == if i + 1 < |ops| then ops[i + 1].offset else End(ops, start)
  {
    hide WellFormed;
    WellFormedLength(ops[0]);
    if i > 0 {
      TiledSuccessor(ops[1..], start + ops[0].len, i - 1);
    }
  }

  lemma {:induction false} TiledIncreases(ops: seq<Op>, start: nat, i: nat, j: nat)
    requires Tiled(ops, start) && i < j < |ops|
    ensures ops[i].offset < ops[j].offset
  {
    hide WellFormed;
    WellFormedLength(ops[0]);
    if i == 0 {
      TiledSuccessor(ops[1..], start + ops[0].len, j - 1);
    } else {
      TiledIncreases(ops[1..], start + ops[0].len, i - 1, j - 1);
    }
  }
}
