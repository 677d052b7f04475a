/** The printing opcodes and the parsing opcodes undo each other through a string register. */
module TextOpcodeLaws {
  import opened Wrappers
  import opened Words
  import opened Bytecode
  import opened MachineState
  import opened MachineLaws
  import opened Alu
  import opened AluLaws
  import opened Text
  import opened TextLaws
  import opened ExecBase
  import opened ExecCore
  import opened ExecData
  import opened OpcodeLaws

  predicate IsBuffer(reg: RegId) {
    reg.bank.S? && Exists(reg)
  }

  /** Text stored in a string register reads back as what the NUL-terminated bytes hold. */
  lemma StringRegister(st: State, reg: RegId, text: Text)
    requires IsBuffer(reg)
    ensures var out := WriteString(st, Reg(reg), text);
            && out.Done?
            && out.st == st.(s := st.s[reg.idx := StringBytes(text)])
            && ReadString(out.st, Reg(reg)) == Done(out.st, CString(StringBytes(text)))
  {
  }

  /** `printer` writes a register's text to `buffer`; `parser` reads it into `back`. */
  predicate Chained(printer: Op, parser: Op, reg: RegId, buffer: RegId, back: RegId) {
    && printer.arg0 == Reg(buffer) && printer.arg1 == Reg(reg)
    && parser.arg0 == Reg(back) && parser.arg1 == Reg(buffer)
    && IsBuffer(buffer) && IsWord(reg) && IsWord(back) && back.bank == reg.bank
  }

  /** `fix2dez` then `a2fix` restores every register value at every width. */
  lemma DecimalPrintedThenParsed(st: State, printer: Op, parser: Op, reg: RegId, buffer: RegId, back: RegId)
    requires Chained(printer, parser, reg, buffer, back) && printer.byte == 0x7A
    ensures var mid := Fix2Text(st, printer);
            mid.Done? && var out := A2Fix(mid.st, parser); out.Done? && IntOf(out.st, back) == IntOf(st, reg)
  {
    hide ReadInt, WriteString, ReadString, StringToValue, CString;
    hide StringBytes, SignedDecimal, Clamp32, Signed, WordAt, StoreWord;
    var w := BankWidth(reg.bank);
    var v := IntOf(st, reg);
    RegisterWord(st, reg);
    var text := SignedDecimal(Signed(v, w));
    StringRegister(st, buffer, text);
    DecimalThroughRegister(v, w);
    var mid := WriteString(st, Reg(buffer), text).st;
    WriteThenRead(mid, back, Clamp32(StringToValue(CString(StringBytes(text)))), back);
  }

  /**
   `fix2hex` then `a2fix` restores a register value exactly when it is at most 0x7FFFFFFF or
   all ones; every other value comes back as 0xFFFFFFFF.
  */
  lemma HexPrintedThenParsed(st: State, printer: Op, parser: Op, reg: RegId, buffer: RegId, back: RegId)
    requires Chained(printer, parser, reg, buffer, back) && printer.byte == 0x79
    ensures var mid := Fix2Text(st, printer);
            mid.Done? && var out := A2Fix(mid.st, parser);
            && out.Done?
            && IntOf(out.st, back) == (if IntOf(st, reg) <= 0x7FFF_FFFF then IntOf(st, reg) else 0xFFFF_FFFF)
  {
    hide ReadInt, WriteString, ReadString, StringToValue, CString, StringBytes, Hex, Clamp32, Signed, WordAt, StoreWord;
    var w := BankWidth(reg.bank);
    var v := IntOf(st, reg);
    RegisterWord(st, reg);
    var text := "0x" + Hex(v, 2 * w as nat);
    StringRegister(st, buffer, text);
    HexThroughRegister(v, w);
    var mid := WriteString(st, Reg(buffer), text).st;
    var parsed := Clamp32(StringToValue(CString(StringBytes(text))));
    WriteThenRead(mid, back, parsed, back);
    SmallMod(parsed, Span(w));
  }

  /** `y2hex` then `hex2y` restores every byte buffer, the empty one too, with Carry clear. */
  lemma BytesPrintedThenParsed(st: State, printer: Op, parser: Op, source: RegId, buffer: RegId, back: RegId)
    requires printer.byte == 0x92 && printer.arg0 == Reg(buffer) && printer.arg1 == Reg(source)
    requires parser.arg0 == Reg(back) && parser.arg1 == Reg(buffer)
    requires IsBuffer(source) && IsBuffer(buffer) && IsBuffer(back)
    ensures var mid := Y2Text(st, printer);
            mid.Done? && var out := Hex2Y(mid.st, parser);
            out.Done? && out.st.s[back.idx] == st.s[source.idx] && !out.st.flags.c
  {
    hide WriteString, ReadString, CString, StringBytes, HexText, HexToBytes;
    var bytes := st.s[source.idx];
    StringRegister(st, buffer, HexText(bytes));
    BytesThroughRegister(bytes);
  }

  // ---- buffers ----

  /** `scut` by the length of what `scat` appended takes it off again. */
  lemma AppendThenCut(st: State, scat: Op, scut: Op, dest: RegId, source: RegId)
    requires IsBuffer(dest) && IsBuffer(source)
    requires scat.arg0 == Reg(dest) && scat.arg1 == Reg(source)
    requires |st.s[source.idx]| < TWO_32 && scut.arg0 == Reg(dest) && scut.arg1 == Imm(|st.s[source.idx]|)
    ensures var mid := Scat(st, scat);
            && mid.Done? && mid.st.s[dest.idx] == st.s[dest.idx] + st.s[source.idx]
            && var out := Scut(mid.st, scut); out.Done? && out.st.s[dest.idx] == st.s[dest.idx]
  {
  }

  /** Erasing what was inserted, and erasing past the end. */
  lemma Erased(data: seq<byte>, bytes: seq<byte>, start: nat)
    ensures start < |data| ==> Erase(data[..start] + bytes + data[start..], start, |bytes|) == data
    ensures start >= |data| ==> Erase(data, start, |bytes|) == data
  {
    if start < |data| {
      var pasted := data[..start] + bytes + data[start..];
      assert pasted[..start] == data[..start] && pasted[start + |bytes|..] == data[start..];
      assert data[..start] + data[start..] == data;
    }
  }

  /** `serase` of what `spaste` inserted restores the buffer, wherever the insertion was asked for. */
  lemma PasteThenErase(st: State, paste: Op, erase: Op, dest: RegId, source: RegId, start: u32)
    requires IsBuffer(dest) && IsBuffer(source) && |st.s[source.idx]| < TWO_32
    requires paste.arg0 == Indexed(dest, ImmIndex(start), None) && paste.arg1 == Reg(source)
    requires erase.arg0 == paste.arg0 && erase.arg1 == Imm(|st.s[source.idx]|)
    ensures var mid := Spaste(st, paste);
            mid.Done? && var out := Serase(mid.st, erase); out.Done? && out.st.s[dest.idx] == st.s[dest.idx]
  {
    hide Erase;
    Erased(st.s[dest.idx], st.s[source.idx], start);
  }

  /** A move between buffers overwrites the front and keeps the longer one's tail. */
  lemma MoveOverlaysFront(st: State, op: Op, dest: RegId, source: RegId)
    requires IsBuffer(dest) && IsBuffer(source) && op.arg0 == Reg(dest) && op.arg1 == Reg(source)
    ensures var out := Move(st, op);
            var (was, bytes) := (st.s[dest.idx], st.s[source.idx]);
            && out.Done?
            && |out.st.s[dest.idx]| == Max(|was|, |bytes|)
            && forall i :: 0 <= i < |out.st.s[dest.idx]| ==>
                 out.st.s[dest.idx][i] == if i < |bytes| then bytes[i] else was[i]
  {
  }

  // ---- lengths, comparison, concatenation ----

  /**
   `slen` measures the whole buffer and `strlen` the text before its first NUL, which is never
   longer, and shorter exactly when the buffer holds a NUL.
  */
  lemma LengthsCompare(st: State, slen: Op, strlen: Op, dest: RegId, source: RegId)
    requires IsWord(dest) && IsBuffer(source)
    requires slen.arg0 == Reg(dest) && slen.arg1 == Reg(source)
    requires strlen.arg0 == Reg(dest) && strlen.arg1 == Reg(source)
    ensures var (data, n) := (st.s[source.idx], Span(BankWidth(dest.bank)));
            var text := CString(data);
            && Slen(st, slen).Done? && IntOf(Slen(st, slen).st, dest) == |data| % n
            && Strlen(st, strlen).Done? && IntOf(Strlen(st, strlen).st, dest) == |text| % n
            && |text| <= |data| && (|text| < |data| <==> 0 in data)
  {
    hide WordAt, StoreWord, UpdateZS, CLength, Low32;
    var data, w := st.s[source.idx], BankWidth(dest.bank);
    CLengthStops(data);
    WriteThenRead(st, dest, Low32(|data|), dest);
    WriteThenRead(st, dest, Low32(|CString(data)|), dest);
    Low32Residue(|data|, w);
    Low32Residue(|CString(data)|, w);
  }

  /** `slen` of a register is its width in bytes, and of anything but a register or text it fails. */
  lemma SlenOfRegister(st: State, slen: Op, dest: RegId, reg: RegId)
    requires IsWord(dest) && IsWord(reg) && slen.arg0 == Reg(dest)
    ensures slen.arg1 == Reg(reg) ==> Slen(st, slen).Done? && IntOf(Slen(st, slen).st, dest) == BankWidth(reg.bank)
    ensures slen.arg1.Imm? || slen.arg1.Indexed? || slen.arg1.NoOperand? ==> Slen(st, slen) == Failed(InvalidOperand)
  {
    hide WordAt, StoreWord, UpdateZS;
    WriteThenRead(st, dest, BankWidth(reg.bank), dest);
  }

  /**
   `scmp` finds two buffers equal exactly when all their bytes are, `strcmp` exactly when they
   agree up to their first NUL; so what `scmp` calls equal `strcmp` does too.
  */
  lemma ComparisonsCompare(st: State, scmp: Op, strcmp: Op, a: RegId, b: RegId)
    requires IsBuffer(a) && IsBuffer(b)
    requires scmp.arg0 == Reg(a) && scmp.arg1 == Reg(b) && strcmp.arg0 == Reg(a) && strcmp.arg1 == Reg(b)
    ensures var (x, y) := (st.s[a.idx], st.s[b.idx]);
            && Scmp(st, scmp).Done? && Strcmp(st, strcmp).Done?
            && (Scmp(st, scmp).st.flags.z <==> x == y)
            && (!Strcmp(st, strcmp).st.flags.z <==> x[..CLength(x)] == y[..CLength(y)])
            && (Scmp(st, scmp).st.flags.z ==> !Strcmp(st, strcmp).st.flags.z)
  {
    hide CLength;
    SameTextSameBytes(st.s[a.idx], st.s[b.idx]);
  }

  /** After `strcat` the target reads as the two texts in order, whatever followed their NULs. */
  lemma StrcatJoinsTexts(st: State, strcat: Op, dest: RegId, source: RegId)
    requires IsBuffer(dest) && IsBuffer(source) && strcat.arg0 == Reg(dest) && strcat.arg1 == Reg(source)
    ensures var (s, t) := (CString(st.s[dest.idx]), CString(st.s[source.idx]));
            var out := Strcat(st, strcat);
            out.Done? && ReadString(out.st, Reg(dest)) == Done(out.st, s + t)
  {
    hide CString, StringBytes, Storable;
    var s, t := CString(st.s[dest.idx]), CString(st.s[source.idx]);
    StringRegister(st, dest, s + t);
    CStringIsStorable(st.s[dest.idx]);
    CStringIsStorable(st.s[source.idx]);
    TextSurvives(s + t);
  }

  /** `a2y` of a register holding hex bytes with separators gives the bytes. */
  lemma A2YReadsSpacedHex(st: State, a2y: Op, dest: RegId, source: RegId, bytes: seq<byte>, at: char)
    requires bytes != [] && at in {' ', ';', ','}
    requires IsBuffer(dest) && IsBuffer(source) && a2y.arg0 == Reg(dest) && a2y.arg1 == Reg(source)
    requires CString(st.s[source.idx]) == Join(HexBytes(bytes), at)
    ensures A2YOp(st, a2y).Done? && A2YOp(st, a2y).st.s[dest.idx] == bytes
  {
    hide CString, A2Y, HexBytes, Join;
    A2YInvertsSpacedHex(bytes, at);
  }
}
