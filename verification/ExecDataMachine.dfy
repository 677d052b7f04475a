/** The float, text, string-buffer and argument handlers of exec.rs, in place. */
module ExecDataMachine {
  import opened Wrappers
  import opened Words
  import opened Bytecode
  import opened MachineState
  import opened Machine
  import opened Text
  import opened Alu
  import opened ExecBase
  import opened ExecMachine
  import ExecData
  import ExecContext

  method FetchLength(m: Machine, operand: Operand) returns (r: Result<u32, ExecError>)
    requires m.Valid()
    ensures r == ExecData.DataLen(m.Model(), operand)
  {
    hide MachineState.Read;
    if operand.Str? || (operand.Reg? && operand.reg.bank.S?) {
      var value := m.Read(operand);
      match value {
        case Ok(BytesValue(b)) => return Ok(Low32(|b|));
        case Ok(_) => return Err(InvalidOperand);
        case Err(e) => return Err(ExecError.Machine(e));
      }
    }
    if operand.Reg? {
      return ArgWidth(operand);
    }
    return Err(InvalidOperand);
  }

  method FetchTarget(m: Machine, operand: Operand) returns (r: Result<(RegId, u32), ExecError>)
    requires m.Valid()
    ensures r == ExecData.BaseAndStart(m.Model(), operand)
  {
    if !operand.Indexed? || operand.len.Some? {
      return Err(InvalidOperand);
    }
    match operand.index {
      case ImmIndex(v) => return Ok((operand.base, Low32(v)));
      case RegIndex(reg) =>
        var start :- FetchValue(m, Reg(reg));
        return Ok((operand.base, start));
    }
  }

  // ---- floats ----

  method OpFloatArith(m: Machine, op: Op, fpu: FloatUnit) returns (r: Result<Flow, ExecError>)
    requires m.Valid()
    modifies m.Repr()
    ensures m.Does(ExecData.FloatArith(old(m.Model()), op, fpu), r)
  {
    var v0 :- FetchFloat(m, op.arg0);
    var v1 :- FetchFloat(m, op.arg1);
    var result := fpu.arith(op.byte, v0, v1);
    if !fpu.finite(result) {
      return Err(NonFinite);
    }
    var _ :- Put(m, op.arg0, FloatValue(result));
    return Ok(Next);
  }

  method OpFcomp(m: Machine, op: Op, fpu: FloatUnit) returns (r: Result<Flow, ExecError>)
    requires m.Valid()
    modifies m.Repr()
    ensures m.Does(ExecData.FloatComp(old(m.Model()), op, fpu), r)
  {
    var v0 :- FetchFloat(m, op.arg0);
    var v1 :- FetchFloat(m, op.arg1);
    var carry := m.flags.c || !fpu.finite(fpu.arith(ExecData.FSUB, v0, v1));
    m.flags := Flags(fpu.equal(v0, v1), fpu.less(v0, v1), carry, false);
    return Ok(Next);
  }

  method OpA2flt(m: Machine, op: Op, fpu: FloatUnit) returns (r: Result<Flow, ExecError>)
    requires m.Valid()
    modifies m.Repr()
    ensures m.Does(ExecData.TextToFloat(old(m.Model()), op, fpu), r)
  {
    var text :- FetchString(m, op.arg1);
    match fpu.parse(text) {
      case None => return Err(BadFloatString(text));
      case Some(f) =>
        if !fpu.finite(f) {
          return Err(BadFloatString(text));
        }
        var _ :- Put(m, op.arg0, FloatValue(f));
        return Ok(Next);
    }
  }

  method OpFix2flt(m: Machine, op: Op, fpu: FloatUnit) returns (r: Result<Flow, ExecError>)
    requires m.Valid()
    modifies m.Repr()
    ensures m.Does(ExecData.FixToFloat(old(m.Model()), op, fpu), r)
  {
    var w :- ArgWidth(op.arg1);
    var raw :- FetchInt(m, op.arg1, w);
    var _ :- Put(m, op.arg0, FloatValue(fpu.fromInt(Signed(raw, w))));
    return Ok(Next);
  }

  method OpFlt2fix(m: Machine, op: Op, fpu: FloatUnit) returns (r: Result<Flow, ExecError>)
    requires m.Valid()
    modifies m.Repr()
    ensures m.Does(ExecData.FloatToFix(old(m.Model()), op, fpu), r)
  {
    var f :- FetchFloat(m, op.arg1);
    if !fpu.finite(f) {
      return Err(NonFinite);
    }
    var result := Low32(fpu.truncate(f));
    var _ :- Put(m, op.arg0, IntValue(result));
    m.flags := m.flags.(v := false);
    m.flags := UpdateZS(m.flags, result, 4);
    return Ok(Next);
  }

  method OpFlt2a(m: Machine, op: Op, fpu: FloatUnit) returns (r: Result<Flow, ExecError>)
    requires m.Valid()
    modifies m.Repr()
    ensures m.Does(ExecData.FloatToText(old(m.Model()), op, fpu), r)
  {
    var f :- FetchFloat(m, op.arg1);
    if !fpu.finite(f) {
      return Err(NonFinite);
    }
    var _ :- PutString(m, op.arg0, fpu.format(f));
    return Ok(Next);
  }

  method OpYToFlt(m: Machine, op: Op, fpu: FloatUnit) returns (r: Result<Flow, ExecError>)
    requires m.Valid()
    modifies m.Repr()
    ensures m.Does(ExecData.BytesToFloat(old(m.Model()), op, fpu), r)
  {
    var bytes :- FetchBytes(m, op.arg1);
    var width := if op.byte == 0x9D then 4 else 8;
    if |bytes| < width {
      return Err(InvalidOperand);
    }
    var f: F64 := 0;
    if op.byte == 0x9D {
      f := fpu.widen(WordOf(bytes, 4));
    } else {
      f := WordOf(bytes, 4) as int + TWO_32 * WordOf(bytes[4..], 4) as int;
    }
    var _ :- Put(m, op.arg0, FloatValue(f));
    return Ok(Next);
  }

  // ---- text and byte conversions ----

  method OpA2fix(m: Machine, op: Op) returns (r: Result<Flow, ExecError>)
    requires m.Valid()
    modifies m.Repr()
    ensures m.Does(ExecData.A2Fix(old(m.Model()), op), r)
  {
    var text :- FetchString(m, op.arg1);
    var _ :- Put(m, op.arg0, IntValue(Clamp32(StringToValue(text))));
    m.flags := m.flags.(z := false, s := false, v := false);
    return Ok(Next);
  }

  method OpA2y(m: Machine, op: Op) returns (r: Result<Flow, ExecError>)
    requires m.Valid()
    modifies m.Repr()
    ensures m.Does(ExecData.A2YOp(old(m.Model()), op), r)
  {
    var text :- FetchString(m, op.arg1);
    var _ :- Put(m, op.arg0, BytesValue(A2Y(text)));
    return Ok(Next);
  }

  method OpHex2y(m: Machine, op: Op) returns (r: Result<Flow, ExecError>)
    requires m.Valid()
    modifies m.Repr()
    ensures m.Does(ExecData.Hex2Y(old(m.Model()), op), r)
  {
    var text :- FetchString(m, op.arg1);
    var decoded := HexToBytes(text);
    var _ :- Put(m, op.arg0, BytesValue(if decoded.Some? then decoded.value else []));
    m.flags := m.flags.(c := decoded.None?);
    return Ok(Next);
  }

  method OpYToText(m: Machine, op: Op) returns (r: Result<Flow, ExecError>)
    requires m.Valid()
    modifies m.Repr()
    ensures m.Does(ExecData.Y2Text(old(m.Model()), op), r)
  {
    var bytes :- FetchBytes(m, op.arg1);
    var _ :- PutString(m, op.arg0, if op.byte == 0x91 then BcdText(bytes) else HexText(bytes));
    return Ok(Next);
  }

  method OpFix2(m: Machine, op: Op) returns (r: Result<Flow, ExecError>)
    requires m.Valid()
    modifies m.Repr()
    ensures m.Does(ExecData.Fix2Text(old(m.Model()), op), r)
  {
    var w :- ExecData.FormatWidth(Mode1(op), op.arg1);
    var raw :- FetchInt(m, op.arg1, w);
    var text := if op.byte == 0x7A then SignedDecimal(Signed(raw, w)) else "0x" + Hex(raw, 2 * w as nat);
    var _ :- PutString(m, op.arg0, text);
    return Ok(Next);
  }

  // ---- string buffers ----

  method OpScmp(m: Machine, op: Op) returns (r: Result<Flow, ExecError>)
    requires m.Valid()
    modifies m.Repr()
    ensures m.Does(ExecData.Scmp(old(m.Model()), op), r)
  {
    var a :- FetchBytes(m, op.arg0);
    var b :- FetchBytes(m, op.arg1);
    m.flags := m.flags.(z := a == b);
    return Ok(Next);
  }

  method OpScat(m: Machine, op: Op) returns (r: Result<Flow, ExecError>)
    requires m.Valid()
    modifies m.Repr()
    ensures m.Does(ExecData.Scat(old(m.Model()), op), r)
  {
    var a :- FetchBytes(m, op.arg0);
    var b :- FetchBytes(m, op.arg1);
    var _ :- Put(m, op.arg0, BytesValue(a + b));
    return Ok(Next);
  }

  method OpScut(m: Machine, op: Op) returns (r: Result<Flow, ExecError>)
    requires m.Valid()
    modifies m.Repr()
    ensures m.Does(ExecData.Scut(old(m.Model()), op), r)
  {
    var data :- FetchBytes(m, op.arg0);
    var n :- FetchValue(m, op.arg1);
    var _ :- Put(m, op.arg0, BytesValue(if n > |data| then [] else data[..|data| - n]));
    return Ok(Next);
  }

  method OpSlen(m: Machine, op: Op) returns (r: Result<Flow, ExecError>)
    requires m.Valid()
    modifies m.Repr()
    ensures m.Does(ExecData.Slen(old(m.Model()), op), r)
  {
    var w :- ArgWidth(op.arg0);
    var n :- FetchLength(m, op.arg1);
    r := Settle(m, op.arg0, n, w);
  }

  method OpStrlen(m: Machine, op: Op) returns (r: Result<Flow, ExecError>)
    requires m.Valid()
    modifies m.Repr()
    ensures m.Does(ExecData.Strlen(old(m.Model()), op), r)
  {
    var w :- ArgWidth(op.arg0);
    var text :- FetchString(m, op.arg1);
    r := Settle(m, op.arg0, Low32(|text|), w);
  }

  method OpSpaste(m: Machine, op: Op) returns (r: Result<Flow, ExecError>)
    requires m.Valid()
    modifies m.Repr()
    ensures m.Does(ExecData.Spaste(old(m.Model()), op), r)
  {
    var target :- FetchTarget(m, op.arg0);
    var (base, start) := target;
    var dest :- FetchBytes(m, Reg(base));
    var source :- FetchBytes(m, op.arg1);
    if start >= |dest| {
      return Ok(Next);
    }
    var _ :- Put(m, Reg(base), BytesValue(dest[..start] + source + dest[start..]));
    return Ok(Next);
  }

  method OpSerase(m: Machine, op: Op) returns (r: Result<Flow, ExecError>)
    requires m.Valid()
    modifies m.Repr()
    ensures m.Does(ExecData.Serase(old(m.Model()), op), r)
  {
    var target :- FetchTarget(m, op.arg0);
    var (base, start) := target;
    var data :- FetchBytes(m, Reg(base));
    var n :- FetchValue(m, op.arg1);
    var _ :- Put(m, Reg(base), BytesValue(ExecData.Erase(data, start, n)));
    return Ok(Next);
  }

  method OpStrcat(m: Machine, op: Op) returns (r: Result<Flow, ExecError>)
    requires m.Valid()
    modifies m.Repr()
    ensures m.Does(ExecData.Strcat(old(m.Model()), op), r)
  {
    var s :- FetchString(m, op.arg0);
    var t :- FetchString(m, op.arg1);
    var _ :- PutString(m, op.arg0, s + t);
    return Ok(Next);
  }

  method OpStrcmp(m: Machine, op: Op) returns (r: Result<Flow, ExecError>)
    requires m.Valid()
    modifies m.Repr()
    ensures m.Does(ExecData.Strcmp(old(m.Model()), op), r)
  {
    var a :- FetchString(m, op.arg0);
    var b :- FetchString(m, op.arg1);
    m.flags := m.flags.(z := a != b);
    return Ok(Next);
  }

  // ---- job arguments ----

  method OpParl(m: Machine, op: Op, args: seq<byte>) returns (r: Result<Flow, ExecError>)
    requires m.Valid()
    modifies m.Repr()
    ensures m.Does(ExecContext.Parl(old(m.Model()), op, args), r)
  {
    var pos :- FetchValue(m, op.arg1);
    var field := ExecContext.Field(args, pos);
    var v := if field.Some? then Low32(StringToValue(field.value)) else 0;
    var _ :- Put(m, op.arg0, IntValue(v));
    m.flags := NO_FLAGS;
    m.flags := m.flags.(z := field.None?);
    return Ok(Next);
  }

  method OpParr(m: Machine, op: Op, env: Env) returns (r: Result<Flow, ExecError>)
    requires m.Valid()
    modifies m.Repr()
    ensures m.Does(ExecContext.Parr(old(m.Model()), op, env), r)
  {
    var pos :- FetchValue(m, op.arg1);
    var field := ExecContext.Field(env.args, pos);
    var f := if field.Some? then ExecContext.LenientFloat(field.value, env.fpu) else 0;
    var _ :- Put(m, op.arg0, FloatValue(f));
    m.flags := NO_FLAGS;
    m.flags := m.flags.(z := field.None?);
    return Ok(Next);
  }

  method OpPars(m: Machine, op: Op, args: seq<byte>) returns (r: Result<Flow, ExecError>)
    requires m.Valid()
    modifies m.Repr()
    ensures m.Does(ExecContext.Pars(old(m.Model()), op, args), r)
  {
    var pos :- FetchValue(m, op.arg1);
    var field := ExecContext.Field(args, pos);
    var _ :- PutString(m, op.arg0, if field.Some? then field.value else []);
    m.flags := m.flags.(z := field.None?);
    return Ok(Next);
  }

  method OpPary(m: Machine, op: Op, args: seq<byte>) returns (r: Result<Flow, ExecError>)
    requires m.Valid()
    modifies m.Repr()
    ensures m.Does(ExecContext.Pary(old(m.Model()), op, args), r)
  {
    var _ :- Put(m, op.arg0, BytesValue(args));
    m.flags := m.flags.(z := args == []);
    return Ok(Next);
  }

  method OpParn(m: Machine, op: Op, args: seq<byte>) returns (r: Result<Flow, ExecError>)
    requires m.Valid()
    modifies m.Repr()
    ensures m.Does(ExecContext.Parn(old(m.Model()), op, args), r)
  {
    var w :- ArgWidth(op.arg0);
    r := Settle(m, op.arg0, Low32(|ArgStrings(args)|), w);
  }
}
