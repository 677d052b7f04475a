/**
 Text as the string opcodes see it (cp1252.rs and the conversion helpers of exec.rs):
 a Rust string is its sequence of characters, an S register holds its CP1252 bytes.
*/
module Text {
  import opened Wrappers
  import opened Words

  type Text = string

  // ---- CP1252 ----

  /** Code points of the bytes 0x80..0x9F, the only ones CP1252 moves. */
  const HIGH_CONTROL_MAP: seq<int> := [
    0x20AC, 0x0081, 0x201A, 0x0192, 0x201E, 0x2026, 0x2020, 0x2021,
    0x02C6, 0x2030, 0x0160, 0x2039, 0x0152, 0x008D, 0x017D, 0x008F,
    0x0090, 0x2018, 0x2019, 0x201C, 0x201D, 0x2022, 0x2013, 0x2014,
    0x02DC, 0x2122, 0x0161, 0x203A, 0x0153, 0x009D, 0x017E, 0x0178]

  function DecodeByte(b: byte): char {
    if 0x80 <= b <= 0x9F then HIGH_CONTROL_MAP[b - 0x80] as char else b as char
  }

  function HighIndex(c: int, k: nat): Option<nat>
    requires k <= 32
    decreases 32 - k
  {
    if k == 32 then None
    else if HIGH_CONTROL_MAP[k] == c then Some(k)
    else HighIndex(c, k + 1)
  }

  function EncodeChar(c: char): byte {
    var n := c as int;
    if n <= 0x7F || 0xA0 <= n <= 0xFF then n
    else
      match HighIndex(n, 0)
      case Some(i) => if i < 32 then 0x80 + i else 0x3F
      case None => 0x3F
  }

  function DecodeText(bytes: seq<byte>): Text {
    seq(|bytes|, i requires 0 <= i < |bytes| => DecodeByte(bytes[i]))
  }

  function EncodeText(text: Text): seq<byte> {
    seq(|text|, i requires 0 <= i < |text| => EncodeChar(text[i]))
  }

  // ---- string registers ----

  /** The length of `bytes` up to its first NUL. */
  function CLength(bytes: seq<byte>): (n: nat)
    ensures n <= |bytes|
  {
    if bytes == [] || bytes[0] == 0 then 0 else 1 + CLength(bytes[1..])
  }

  /** `read_string`: the characters before the first NUL. */
  function CString(bytes: seq<byte>): Text {
    DecodeText(bytes[..CLength(bytes)])
  }

  /** `write_string`: the CP1252 bytes, NUL-terminated unless empty or already so. */
  function StringBytes(text: Text): seq<byte> {
    var bytes := EncodeText(text);
    if bytes != [] && bytes[|bytes| - 1] != 0 then bytes + [0] else bytes
  }

  // ---- characters ----

  predicate IsSpace(c: char) {
    var n := c as int;
    || 0x09 <= n <= 0x0D || n == 0x20 || n == 0x85 || n == 0xA0 || n == 0x1680 || 0x2000 <= n <= 0x200A
    || n == 0x2028 || n == 0x2029 || n == 0x202F || n == 0x205F || n == 0x3000
  }

  predicate IsDigit(c: char) {
    '0' <= c <= '9'
  }

  predicate IsAlphabetic(c: char) {
    'a' <= c <= 'z' || 'A' <= c <= 'Z'
  }

  function LowerChar(c: char): char {
    if 'A' <= c <= 'Z' then ((c as int) + 32) as char else c
  }

  predicate EqIgnoreAsciiCase(a: Text, b: Text) {
    |a| == |b| && forall i :: 0 <= i < |a| ==> LowerChar(a[i]) == LowerChar(b[i])
  }

  /** `char::to_digit(radix)` for a radix up to 36. */
  function ToDigit(c: char, radix: nat): Option<nat> {
    var d := if IsDigit(c) then c as int - '0' as int
             else if IsAlphabetic(c) then LowerChar(c) as int - 'a' as int + 10
             else radix;
    if d < radix then Some(d) else None
  }

  function TrimEnd(text: Text): Text {
    if text != [] && IsSpace(text[|text| - 1]) then TrimEnd(text[..|text| - 1]) else text
  }

  function TrimStart(text: Text): Text {
    if text != [] && IsSpace(text[0]) then TrimStart(text[1..]) else text
  }

  /** The stretch of `text` before its first character in `stops`. */
  function Before(text: Text, stops: set<char>): Text {
    if text == [] || text[0] in stops then [] else [text[0]] + Before(text[1..], stops)
  }

  /** `str::split`: always at least one field. */
  function Split(text: Text, at: set<char>): (fields: seq<Text>)
    ensures |fields| >= 1
  {
    if text == [] then [[]]
    else
      var rest := Split(text[1..], at);
      if text[0] in at then [[]] + rest else [[text[0]] + rest[0]] + rest[1..]
  }

  // ---- numbers ----

  const I64_MAX: int := 0x7FFF_FFFF_FFFF_FFFF

  /** The value of a digit string, None if some character is no digit of the radix. */
  function Digits(text: Text, radix: nat): Option<nat> {
    if text == [] then Some(0)
    else
      match (Digits(text[..|text| - 1], radix), ToDigit(text[|text| - 1], radix))
      case (Some(hi), Some(d)) => Some(hi * radix + d)
      case _ => None
  }

  /** `i64::from_str_radix`: an optional sign, at least one digit, no overflow. */
  function ParseInt(text: Text, radix: nat): Option<int> {
    var signed := text != [] && (text[0] == '+' || text[0] == '-');
    var body := if signed then text[1..] else text;
    if body == [] then None
    else
      match Digits(body, radix)
      case None => None
      case Some(n) =>
        var v: int := if signed && text[0] == '-' then -(n as int) else n;
        if -I64_MAX - 1 <= v <= I64_MAX then Some(v) else None
  }

  function IntOrZero(parsed: Option<int>): int {
    match parsed
    case Some(v) => v
    case None => 0
  }

  predicate HasPrefix(text: Text, letter: char) {
    |text| >= 2 && text[0] == '0' && LowerChar(text[1]) == letter
  }

  /** EDIABAS `StringToValue`. */
  function StringToValue(number: Text): int {
    var trimmed := TrimEnd(number);
    if trimmed == [] then 0
    else if HasPrefix(trimmed, 'x') then
      var hex := trimmed[2..];
      if hex != [] && ToDigit(hex[0], 16).Some? then IntOrZero(ParseInt(hex, 16)) else 0
    else if HasPrefix(trimmed, 'y') then IntOrZero(ParseInt(trimmed[2..], 2))
    else if trimmed == "-" || trimmed == "--" then 0
    else if IsAlphabetic(trimmed[0]) then 0
    else IntOrZero(ParseInt(Before(TrimStart(trimmed), {'.', ','}), 10))
  }

  /** `a2fix`'s clamp of a parsed value to a 32-bit word. */
  function Clamp32(v: int): u32 {
    if v > 0x7FFF_FFFF then 0xFFFF_FFFF
    else if v < -TWO_31 then (-TWO_31) % TWO_32
    else v % TWO_32
  }

  function DigitChar(d: nat): char
    requires d < 16
  {
    if d < 10 then ('0' as int + d) as char else ('A' as int + d - 10) as char
  }

  function Decimal(n: nat): Text {
    if n < 10 then [DigitChar(n)] else Decimal(n / 10) + [DigitChar(n % 10)]
  }

  function SignedDecimal(v: int): Text {
    if v < 0 then "-" + Decimal(-v) else Decimal(v)
  }

  /** Uppercase hex with at least `width` digits. */
  function Hex(v: nat, width: nat): Text
    decreases v, width
  {
    if v == 0 && width == 0 then []
    else Hex(v / 16, if width == 0 then 0 else width - 1) + [DigitChar(v % 16)]
  }

  // ---- byte strings in hex ----

  function HexText(bytes: seq<byte>): (text: Text)
    ensures |text| == 2 * |bytes|
  {
    if bytes == [] then [] else [DigitChar(bytes[0] / 16), DigitChar(bytes[0] % 16)] + HexText(bytes[1..])
  }

  function BcdChar(nibble: nat): char
    requires nibble < 16
  {
    if nibble > 9 then '*' else DigitChar(nibble)
  }

  function BcdText(bytes: seq<byte>): Text {
    if bytes == [] then [] else [BcdChar(bytes[0] / 16), BcdChar(bytes[0] % 16)] + BcdText(bytes[1..])
  }

  /** Complete hex-digit pairs as bytes; an odd last digit is dropped, a bad pair is None. */
  function HexToBytes(text: Text): Option<seq<byte>> {
    if |text| < 2 then Some([])
    else
      match (ToDigit(text[0], 16), ToDigit(text[1], 16), HexToBytes(text[2..]))
      case (Some(hi), Some(lo), Some(rest)) => if hi < 16 && lo < 16 then Some([hi * 16 + lo] + rest) else None
      case _ => None
  }

  /** The bytes of one a2y field's tokens, and whether all of them parsed. */
  function HexTokens(tokens: seq<Text>): (seq<byte>, bool) {
    if tokens == [] then ([], true)
    else if tokens[0] == [] then HexTokens(tokens[1..])
    else
      match ParseInt(tokens[0], 16)
      case Some(v) =>
        if 0 <= v <= 0xFF then
          var (rest, ok) := HexTokens(tokens[1..]);
          ([v] + rest, ok)
        else ([], false)
      case None => ([], false)
  }

  function A2YFields(fields: seq<Text>): seq<byte> {
    if fields == [] then []
    else
      var trimmed := TrimStart(TrimEnd(fields[0]));
      if trimmed == [] then seq(|fields[0]| + 1, _ => 0) + A2YFields(fields[1..])
      else
        var (bytes, ok) := HexTokens(Split(trimmed, {' '}));
        if ok then bytes + A2YFields(fields[1..]) else bytes
  }

  function AcceptedByA2Y(text: Text): Text {
    if text == [] || !(ToDigit(text[0], 16).Some? || text[0] in {' ', ';', ','}) then []
    else [text[0]] + AcceptedByA2Y(text[1..])
  }

  function A2Y(text: Text): seq<byte> {
    if text == [] then [] else A2YFields(Split(AcceptedByA2Y(text), {',', ';'}))
  }

  // ---- job arguments ----

  /** Each argument byte is one Latin-1 character. */
  function Latin1(bytes: seq<byte>): Text {
    seq(|bytes|, i requires 0 <= i < |bytes| => bytes[i] as char)
  }

  function ArgStrings(args: seq<byte>): seq<Text> {
    if args == [] then [] else Split(Latin1(args), {';'})
  }
}

/** Printers and parsers undo each other. */
module TextLaws {
  import Arithmetic
  import opened Wrappers
  import opened Words
  import opened Text

  predicate IsAscii(text: Text) {
    forall c <- text :: 0 < c as int < 0x80
  }

  lemma {:induction false} CLengthFull(bytes: seq<byte>, tail: seq<byte>)
    requires forall i :: 0 <= i < |bytes| ==> bytes[i] != 0
    requires tail == [] || tail[0] == 0
    ensures CLength(bytes + tail) == |bytes|
  {
    if bytes == [] {
      assert bytes + tail == tail;
    } else {
      assert (bytes + tail)[1..] == bytes[1..] + tail;
      CLengthFull(bytes[1..], tail);
    }
  }

  lemma HighMapMoves(i: nat)
    requires i < 32
    ensures 0x7F < HIGH_CONTROL_MAP[i] < 0xA0 || 0xFF < HIGH_CONTROL_MAP[i] < 0xD800
  {
  }

  lemma HighMapDistinct(i: nat, j: nat)
    requires i < j < 32
    ensures HIGH_CONTROL_MAP[i] != HIGH_CONTROL_MAP[j]
  {
  }

  lemma {:induction false} HighIndexFinds(i: nat, k: nat)
    requires k <= i < 32
    ensures HighIndex(HIGH_CONTROL_MAP[i], k) == Some(i)
    decreases i - k
  {
    if k < i {
      HighMapDistinct(k, i);
      HighIndexFinds(i, k + 1);
    }
  }

  lemma ByteSurvives(b: byte)
    ensures EncodeChar(DecodeByte(b)) == b
  {
    hide HighIndex;
    if 0x80 <= b <= 0x9F {
      HighIndexFinds(b - 0x80, 0);
      HighMapMoves(b - 0x80);
      hide HIGH_CONTROL_MAP;
      assert DecodeByte(b) as int == HIGH_CONTROL_MAP[b - 0x80];
    }
  }

  /** The characters CP1252 has at 0x80..0x9F, in rows of eight. */
  function HighRow(row: nat): (text: Text)
    ensures |text| == 8
  {
    match row
    case 0 => "\U{20AC}\U{0081}\U{201A}\U{0192}\U{201E}\U{2026}\U{2020}\U{2021}"
    case 1 => "\U{02C6}\U{2030}\U{0160}\U{2039}\U{0152}\U{008D}\U{017D}\U{008F}"
    case 2 => "\U{0090}\U{2018}\U{2019}\U{201C}\U{201D}\U{2022}\U{2013}\U{2014}"
    case _ => "\U{02DC}\U{2122}\U{0161}\U{203A}\U{0153}\U{009D}\U{017E}\U{0178}"
  }

  lemma RowIsMapped(row: nat, i: nat)
    requires row < 4 && i < 8
    ensures HighRow(row)[i] as int == HIGH_CONTROL_MAP[8 * row + i]
  {
    if row == 0 {
    } else if row == 1 {
    } else if row == 2 {
    } else {
    }
  }

  /** They decode to these and encode from them. */
  lemma HighCharacters(row: nat, i: nat)
    requires row < 4 && i < 8
    ensures DecodeByte(0x80 + 8 * row + i) == HighRow(row)[i] && EncodeChar(HighRow(row)[i]) == 0x80 + 8 * row + i
  {
    hide EncodeChar, HighRow;
    RowIsMapped(row, i);
    ByteSurvives(0x80 + 8 * row + i);
    hide HIGH_CONTROL_MAP;
    assert DecodeByte(0x80 + 8 * row + i) as int == HIGH_CONTROL_MAP[8 * row + i];
  }

  lemma HighIndexIs(c: int, k: nat)
    requires k <= 32
    ensures HighIndex(c, k).Some? ==> HighIndex(c, k).value < 32 && HIGH_CONTROL_MAP[HighIndex(c, k).value] == c
    decreases 32 - k
  {
  }

  /** ASCII and Latin-1 stand for themselves, and what CP1252 has no byte for becomes a question mark. */
  lemma OtherCharacters(c: char)
    ensures c as int <= 0x7F || 0xA0 <= c as int <= 0xFF ==> EncodeChar(c) as int == c as int
    ensures DecodeByte(EncodeChar(c)) != c ==> EncodeChar(c) == 0x3F
  {
    HighIndexIs(c as int, 0);
  }

  /** CP1252 is lossless: decoded bytes encode back to themselves. */
  lemma CodecIsLossless(bytes: seq<byte>)
    ensures EncodeText(DecodeText(bytes)) == bytes
  {
    forall i | 0 <= i < |bytes|
      ensures EncodeChar(DecodeByte(bytes[i])) == bytes[i]
    {
      ByteSurvives(bytes[i]);
    }
  }

  /** A character a string register can hold: one CP1252 encodes faithfully, and not NUL. */
  predicate Storable(c: char) {
    EncodeChar(c) != 0 && DecodeByte(EncodeChar(c)) == c
  }

  predicate AllStorable(text: Text) {
    forall i :: 0 <= i < |text| ==> Storable(text[i])
  }

  lemma CLengthStops(bytes: seq<byte>)
    ensures forall i :: 0 <= i < CLength(bytes) ==> bytes[i] != 0
    ensures CLength(bytes) < |bytes| ==> bytes[CLength(bytes)] == 0
    ensures CLength(bytes) < |bytes| <==> 0 in bytes
  {
    if bytes != [] && bytes[0] != 0 {
      CLengthStops(bytes[1..]);
      assert bytes == [bytes[0]] + bytes[1..];
    }
  }

  /** A stored text is its bytes and one NUL, unless it is empty or ends in one already. */
  lemma StoredText(text: Text)
    ensures StringBytes([]) == []
    ensures text != [] ==> StringBytes(text) == EncodeText(text) + if EncodeChar(text[|text| - 1]) == 0 then [] else [0]
  {
    hide EncodeChar;
    assert EncodeText([]) == [];
    assert EncodeText(text) + [] == EncodeText(text);
  }

  /** What a string register reads as holds storable characters only. */
  lemma CStringIsStorable(bytes: seq<byte>)
    ensures AllStorable(CString(bytes))
  {
    hide EncodeChar, DecodeByte;
    CLengthStops(bytes);
    var text := CString(bytes);
    forall i | 0 <= i < |text|
      ensures Storable(text[i])
    {
      ByteSurvives(bytes[i]);
    }
  }

  /**
   Text written to a string register is read back unchanged if and only if it is made of
   characters CP1252 can encode and holds no NUL.
  */
  lemma TextSurvives(text: Text)
    ensures CString(StringBytes(text)) == text <==> AllStorable(text)
  {
    hide EncodeChar, DecodeByte;
    var bytes := EncodeText(text);
    if AllStorable(text) {
      CLengthFull(bytes, [0]);
      CLengthFull(bytes, []);
      assert bytes + [] == bytes;
      assert (bytes + [0])[..|bytes|] == bytes && bytes[..|bytes|] == bytes;
      assert DecodeText(bytes) == text;
    } else {
      CStringIsStorable(StringBytes(text));
    }
  }

  /** String registers read as the same text exactly when they agree up to their first NUL. */
  lemma SameTextSameBytes(a: seq<byte>, b: seq<byte>)
    ensures CString(a) == CString(b) <==> a[..CLength(a)] == b[..CLength(b)]
  {
    CodecIsLossless(a[..CLength(a)]);
    CodecIsLossless(b[..CLength(b)]);
  }

  /** ASCII text is all storable. */
  lemma AsciiSurvives(text: Text)
    requires IsAscii(text)
    ensures CString(StringBytes(text)) == text
  {
    hide CString, StringBytes;
    TextSurvives(text);
    forall i | 0 <= i < |text|
      ensures Storable(text[i])
    {
      assert text[i] in text;
    }
  }

  // ---- numbers ----

  predicate AllDigits(text: Text) {
    forall c <- text :: IsDigit(c)
  }

  predicate IsHexChar(c: char) {
    ToDigit(c, 16).Some? && 0 < c as int < 0x80 && !IsSpace(c)
  }

  lemma DigitRoundTrip(d: nat, radix: nat)
    requires d < radix <= 16
    ensures ToDigit(DigitChar(d), radix) == Some(d)
    ensures IsHexChar(DigitChar(d))
    ensures d < 10 ==> IsDigit(DigitChar(d))
    ensures 0 < DigitChar(d) as int < 0x80 && !IsSpace(DigitChar(d))
  {
  }

  /** The printed digits, in order: letters are upper case, and BCD has a star for each. */
  lemma DigitsAre(d: nat)
    requires d < 16
    ensures DigitChar(d) == "0123456789ABCDEF"[d]
    ensures BcdChar(d) == "0123456789******"[d]
  {
  }

  /** Printed bytes are two digits each, the high one first. */
  lemma {:induction false} PrintedBytes(bytes: seq<byte>, i: nat)
    requires i < |bytes|
    ensures |HexText(bytes)| == 2 * |bytes| == |BcdText(bytes)|
    ensures HexText(bytes)[2 * i] == DigitChar(bytes[i] / 16) && HexText(bytes)[2 * i + 1] == DigitChar(bytes[i] % 16)
    ensures BcdText(bytes)[2 * i] == BcdChar(bytes[i] / 16) && BcdText(bytes)[2 * i + 1] == BcdChar(bytes[i] % 16)
  {
    hide DigitChar, BcdChar;
    var rest := bytes[1..];
    if rest != [] {
      PrintedBytes(rest, if i == 0 then 0 else i - 1);
    } else {
      assert BcdText(rest) == [];
    }
  }

  lemma {:induction false} BcdIsAscii(bytes: seq<byte>)
    ensures IsAscii(BcdText(bytes))
  {
    if bytes != [] {
      BcdIsAscii(bytes[1..]);
    }
  }

  lemma {:induction false} DecimalDigits(n: nat)
    ensures Digits(Decimal(n), 10) == Some(n)
    ensures AllDigits(Decimal(n)) && Decimal(n) != []
  {
    DigitRoundTrip(n % 10, 10);
    if n < 10 {
      assert Decimal(n)[..0] == [];
    } else {
      DecimalDigits(n / 10);
      assert Decimal(n)[..|Decimal(n)| - 1] == Decimal(n / 10);
    }
  }

  lemma {:induction false} HexDigits(v: nat, width: nat)
    ensures Digits(Hex(v, width), 16) == Some(v)
    ensures forall c <- Hex(v, width) :: IsHexChar(c)
    ensures width > 0 ==> Hex(v, width) != []
    decreases v, width
  {
    hide ToDigit, DigitChar, IsHexChar;
    if !(v == 0 && width == 0) {
      var w := if width == 0 then 0 else width - 1;
      var front, last := Hex(v / 16, w), DigitChar(v % 16);
      HexDigits(v / 16, w);
      DigitRoundTrip(v % 16, 16);
      assert Hex(v, width) == front + [last];
      assert (front + [last])[..|front|] == front && (front + [last])[|front|] == last;
      Arithmetic.DivUnique(v, 16, v / 16, v % 16);
    }
  }

  predicate IsUpperHex(c: char) {
    '0' <= c <= '9' || 'A' <= c <= 'F'
  }

  /** Hex of a word that fits `width` digits has exactly that many, none of them lower case. */
  lemma {:induction false} HexIsPadded(v: nat, width: nat)
    requires v < Pow2(4 * width)
    ensures |Hex(v, width)| == width
    ensures forall i :: 0 <= i < width ==> IsUpperHex(Hex(v, width)[i])
    decreases width
  {
    if width > 0 {
      Arithmetic.Pow2Adds(4, 4 * (width - 1));
      assert Pow2(4) == 16;
      HexIsPadded(v / 16, width - 1);
    }
  }

  /** A decimal has no leading zero. */
  lemma {:induction false} DecimalIsShort(n: nat)
    ensures Decimal(n) != [] && (n >= 10 ==> Decimal(n)[0] != '0')
  {
    if n >= 10 {
      DecimalIsShort(n / 10);
    }
  }

  lemma {:induction false} BeforeNothing(text: Text)
    requires '.' !in text && ',' !in text
    ensures Before(text, {'.', ','}) == text
  {
    if text != [] {
      BeforeNothing(text[1..]);
    }
  }

  lemma NoTrim(text: Text)
    requires text != [] && !IsSpace(text[0]) && !IsSpace(text[|text| - 1])
    ensures TrimEnd(text) == text && TrimStart(text) == text
  {
  }

  lemma DigitsAreDigits(sign: Text, digits: Text)
    requires (sign == "" || sign == "-") && digits != [] && AllDigits(digits)
    ensures var text := sign + digits;
            && '.' !in text && ',' !in text && IsAscii(text)
            && !IsSpace(text[0]) && !IsSpace(text[|text| - 1])
            && text[|sign|] == digits[0] && IsDigit(digits[0])
            && (|digits| >= 2 ==> digits[1] == text[|sign| + 1] && IsDigit(digits[1]))
  {
    forall i | 0 <= i < |digits|
      ensures IsDigit(digits[i])
    {
      assert digits[i] in digits;
    }
  }

  /** A non-empty digit string, with or without a minus sign, parses as a decimal number. */
  lemma DigitStringParses(sign: Text, digits: Text, n: nat)
    requires sign == "" || sign == "-"
    requires digits != [] && AllDigits(digits) && Digits(digits, 10) == Some(n) && n <= I64_MAX
    ensures StringToValue(sign + digits) == if sign == "-" then -(n as int) else n
    ensures IsAscii(sign + digits)
  {
    hide Digits, Before, TrimEnd, TrimStart, AllDigits;
    var text := sign + digits;
    DigitsAreDigits(sign, digits);
    NoTrim(text);
    BeforeNothing(text);
    if sign == "" {
      assert text == digits;
    } else {
      assert text[1..] == digits && text[0] == '-';
    }
    assert ParseInt(text, 10) == Some(if sign == "-" then -(n as int) else n);
    assert text != "-" && text != "--" && !HasPrefix(text, 'x') && !HasPrefix(text, 'y');
  }

  /** Printed signed decimals parse back to the number. */
  lemma DecimalParses(v: int)
    requires -I64_MAX <= v <= I64_MAX
    ensures StringToValue(SignedDecimal(v)) == v
    ensures IsAscii(SignedDecimal(v))
  {
    var digits := Decimal(if v < 0 then -v else v);
    DecimalDigits(if v < 0 then -v else v);
    DigitStringParses(if v < 0 then "-" else "", digits, if v < 0 then -v else v);
    assert "" + digits == digits;
  }

  /** Printed hex parses back to the number. */
  lemma HexParses(v: u32, width: nat)
    requires width > 0
    ensures StringToValue("0x" + Hex(v, width)) == v
    ensures IsAscii("0x" + Hex(v, width))
  {
    hide Digits, Hex, TrimEnd, TrimStart;
    var digits := Hex(v, width);
    var text := "0x" + digits;
    HexDigits(v, width);
    assert digits[0] in digits && digits[|digits| - 1] in digits;
    assert text[|text| - 1] == digits[|digits| - 1];
    assert text[2..] == digits && text[0] == '0' && text[1] == 'x';
    NoTrim(text);
    assert ParseInt(digits, 16) == Some(v);
  }

  /** The characters trimming removes: Unicode's white space. */
  lemma SpacesAre(c: char)
    ensures IsSpace(c) <==>
            || c in {'\t', '\n', '\U{0B}', '\U{0C}', '\r', ' ', '\U{85}', '\U{A0}', '\U{1680}', '\U{2028}', '\U{2029}'}
            || c in {'\U{2000}', '\U{2001}', '\U{2002}', '\U{2003}', '\U{2004}', '\U{2005}', '\U{2006}', '\U{2007}'}
            || c in {'\U{2008}', '\U{2009}', '\U{200A}', '\U{202F}', '\U{205F}', '\U{3000}'}
  {
  }

  predicate AllSpaces(text: Text) {
    forall i :: 0 <= i < |text| ==> IsSpace(text[i])
  }

  lemma {:induction false} TrimmedStart(blank: Text, text: Text)
    requires AllSpaces(blank) && text != [] && !IsSpace(text[0])
    ensures TrimStart(blank + text) == text
  {
    hide IsSpace;
    if blank == [] {
      assert blank + text == text;
    } else {
      assert (blank + text)[1..] == blank[1..] + text;
      TrimmedStart(blank[1..], text);
    }
  }

  lemma {:induction false} TrimmedEnd(text: Text, blank: Text)
    requires AllSpaces(blank) && text != [] && !IsSpace(text[|text| - 1])
    ensures TrimEnd(text + blank) == text
  {
    hide IsSpace;
    if blank == [] {
      assert text + blank == text;
    } else {
      var n := |blank| - 1;
      assert (text + blank)[..|text + blank| - 1] == text + blank[..n];
      TrimmedEnd(text, blank[..n]);
    }
  }

  lemma {:induction false} BeforeCut(text: Text, tail: Text)
    requires '.' !in text && ',' !in text && tail != [] && tail[0] in {'.', ','}
    ensures Before(text + tail, {'.', ','}) == text
  {
    if text == [] {
      assert text + tail == tail;
    } else {
      assert (text + tail)[1..] == text[1..] + tail;
      BeforeCut(text[1..], tail);
    }
  }

  lemma SignedParse(sign: Text, digits: Text, n: nat)
    requires (sign == "" || sign == "-") && digits != [] && IsDigit(digits[0]) && Digits(digits, 10) == Some(n)
    ensures var v: int := if sign == "-" then -(n as int) else n;
            ParseInt(sign + digits, 10) == if -I64_MAX - 1 <= v <= I64_MAX then Some(v) else None
  {
    hide Digits;
    if sign == "" {
      assert sign + digits == digits;
    } else {
      assert (sign + digits)[1..] == digits && (sign + digits)[0] == '-';
    }
  }

  lemma PrintedSigned(v: int)
    ensures var n := if v < 0 then -v else v;
            var (sign, digits) := (if v < 0 then "-" else "", Decimal(n));
            && SignedDecimal(v) == sign + digits && AllDigits(digits) && digits != []
            && Digits(digits, 10) == Some(n) && IsDigit(digits[0])
  {
    hide Decimal, Digits;
    var digits := Decimal(if v < 0 then -v else v);
    DecimalDigits(if v < 0 then -v else v);
    assert "" + digits == digits;
    assert digits[0] in digits;
  }

  lemma SignedDigits(v: int)
    ensures var text := SignedDecimal(v);
            && text != [] && '.' !in text && ',' !in text && !IsSpace(text[0]) && !IsSpace(text[|text| - 1])
            && !IsAlphabetic(text[0]) && (|text| >= 2 ==> IsDigit(text[1])) && text != "-"
            && ParseInt(text, 10) == if -I64_MAX - 1 <= v <= I64_MAX then Some(v) else None
  {
    hide Digits, Decimal, ParseInt, IsSpace, SignedDecimal, AllDigits;
    var n := if v < 0 then -v else v;
    var sign, digits := if v < 0 then "-" else "", Decimal(n);
    PrintedSigned(v);
    DigitsAreDigits(sign, digits);
    SignedParse(sign, digits, n);
  }

  /** Neither blanks nor a digit or sign at the front make a prefix, a word or a lone sign. */
  lemma NotPrefixed(lead: Text, body: Text)
    requires AllSpaces(lead) && body != [] && !IsAlphabetic(body[0]) && body != "-" && body != "--"
    requires !IsSpace(body[0]) && (|body| >= 2 ==> !IsAlphabetic(body[1]))
    ensures var text := lead + body;
            && text != [] && !HasPrefix(text, 'x') && !HasPrefix(text, 'y') && text != "-" && text != "--"
            && !IsAlphabetic(text[0])
  {
    var text := lead + body;
    if lead == [] {
      assert text == body;
    } else {
      assert text[0] == lead[0] && IsSpace(lead[0]);
    }
  }

  /** Blanks before and after a decimal and a fraction cut off it do not matter; one beyond 64 bits is 0. */
  lemma NumberInText(lead: Text, v: int, fraction: Text, trail: Text)
    requires AllSpaces(lead) && AllSpaces(trail)
    requires fraction != [] ==> fraction[0] in {'.', ','} && !IsSpace(fraction[|fraction| - 1])
    ensures StringToValue(lead + SignedDecimal(v) + fraction + trail) == if -I64_MAX - 1 <= v <= I64_MAX then v else 0
  {
    hide IsSpace, TrimEnd, TrimStart, Before, SignedDecimal, ParseInt;
    var digits := SignedDecimal(v);
    SignedDigits(v);
    var body := digits + fraction;
    var whole := lead + body;
    assert lead + digits + fraction + trail == whole + trail;
    assert fraction == [] ==> body == digits;
    assert whole[|whole| - 1] == body[|body| - 1] == if fraction == [] then digits[|digits| - 1]
                                                     else fraction[|fraction| - 1];
    assert body[0] == digits[0] && (|digits| >= 2 ==> body[1] == digits[1]);
    TrimmedEnd(whole, trail);
    TrimmedStart(lead, body);
    NotPrefixed(lead, body);
    if fraction == [] {
      BeforeNothing(digits);
    } else {
      BeforeCut(digits, fraction);
    }
  }

  /** A `0x` prefix wants a hex digit right behind it, not a sign. */
  lemma BadHexIsZero(rest: Text, letter: char)
    requires letter in {'x', 'X'} && (rest == [] || (ToDigit(rest[0], 16) == None && !IsSpace(rest[|rest| - 1])))
    ensures StringToValue(['0', letter] + rest) == 0
  {
    hide TrimStart, TrimEnd, ToDigit, ParseInt;
    var text := ['0', letter] + rest;
    NoTrim(text);
    assert text[2..] == rest;
  }

  /** A `0y` prefix spells binary. */
  lemma BinaryParses(bits: Text, n: nat, letter: char)
    requires bits != [] && (forall i :: 0 <= i < |bits| ==> bits[i] in {'0', '1'}) && letter in {'y', 'Y'}
    requires Digits(bits, 2) == Some(n) && n <= I64_MAX
    ensures StringToValue(['0', letter] + bits) == n
  {
    hide Digits, TrimStart, TrimEnd;
    var text := ['0', letter] + bits;
    assert text[|text| - 1] == bits[|bits| - 1] && text[2..] == bits;
    NoTrim(text);
  }

  lemma NothingTrimmed()
    ensures TrimEnd([]) == []
  {
  }

  lemma {:induction false} WordTrimmed(word: Text)
    requires word != [] && !IsSpace(word[0])
    ensures TrimEnd(word) != [] && TrimEnd(word)[0] == word[0]
  {
    if |word| > 1 && IsSpace(word[|word| - 1]) {
      WordTrimmed(word[..|word| - 1]);
    }
  }

  /** A word, a lone sign and no text at all are no number. */
  lemma WordsAreZero(word: Text)
    requires word == [] || IsAlphabetic(word[0]) || word == "-" || word == "--"
    ensures StringToValue(word) == 0
  {
    hide TrimStart, TrimEnd;
    if word == "-" || word == "--" {
      NoTrim(word);
    } else if word != [] {
      WordTrimmed(word);
    } else {
      NothingTrimmed();
    }
  }

  /** A register's signed value, clamped to a word, truncates back to the register. */
  lemma ClampedWord(v: u32, w: Width)
    requires v < Span(w)
    ensures -TWO_31 <= Signed(v, w) <= I64_MAX
    ensures Clamp32(Signed(v, w)) % Span(w) == v
  {
    Arithmetic.DivUnique(v, Span(w), 0, v);
    var x := if v >= Half(w) then v - Span(w) else v;
    assert Signed(v, w) == x;
    Arithmetic.DivUnique(x, TWO_32, if x < 0 then -1 else 0, if x < 0 then x + TWO_32 else x);
    if x < 0 {
      if w == 1 {
        Arithmetic.DivUnique(x + TWO_32, 0x100, 0xFF_FFFF, v);
      } else if w == 2 {
        Arithmetic.DivUnique(x + TWO_32, 0x1_0000, 0xFFFF, v);
      } else {
        Arithmetic.DivUnique(x + TWO_32, TWO_32, 0, v);
      }
    }
  }

  /**
   `fix2dez` then `a2fix` through a string register, at every width: the parsed word
   truncates to the register value it was printed from.
  */
  lemma DecimalThroughRegister(v: u32, w: Width)
    requires v < Span(w)
    ensures Clamp32(StringToValue(CString(StringBytes(SignedDecimal(Signed(v, w)))))) % Span(w) == v
  {
    hide StringToValue, CString, StringBytes, SignedDecimal;
    var x := Signed(v, w);
    ClampedWord(v, w);
    hide Signed, Clamp32;
    DecimalParses(x);
    AsciiSurvives(SignedDecimal(x));
  }

  /**
   `fix2hex` then `a2fix` restores a register value exactly when it is at most
   0x7FFFFFFF; above, the parse saturates to 0xFFFFFFFF.
  */
  lemma HexThroughRegister(v: u32, w: Width)
    requires v < Span(w)
    ensures var back := Clamp32(StringToValue(CString(StringBytes("0x" + Hex(v, 2 * w)))));
            && back == (if v <= 0x7FFF_FFFF then v else 0xFFFF_FFFF)
            && (back == v <==> v <= 0x7FFF_FFFF || v == 0xFFFF_FFFF)
  {
    hide StringToValue, CString, StringBytes, Hex;
    HexParses(v, 2 * w);
    AsciiSurvives("0x" + Hex(v, 2 * w));
  }

  // ---- byte strings ----

  lemma {:induction false} HexTextParses(bytes: seq<byte>)
    ensures HexToBytes(HexText(bytes)) == Some(bytes)
    ensures IsAscii(HexText(bytes))
  {
    if bytes != [] {
      DigitRoundTrip(bytes[0] / 16, 16);
      DigitRoundTrip(bytes[0] % 16, 16);
      HexTextParses(bytes[1..]);
      hide ToDigit, DigitChar;
      var b: int := bytes[0];
      assert b == 16 * (b / 16) + b % 16;
      assert HexText(bytes)[2..] == HexText(bytes[1..]);
      assert [bytes[0]] + bytes[1..] == bytes;
    }
  }

  /** Digits of either case pair up, and an odd last one is dropped. */
  lemma {:induction false} PairsAreBytes(text: Text, k: nat)
    requires 2 * k + 1 < |text| && HexToBytes(text).Some?
    ensures k < |HexToBytes(text).value| == |text| / 2
    ensures ToDigit(text[2 * k], 16).Some? && ToDigit(text[2 * k + 1], 16).Some?
    ensures HexToBytes(text).value[k] as int ==
            ToDigit(text[2 * k], 16).value * 16 + ToDigit(text[2 * k + 1], 16).value
  {
    hide ToDigit;
    var rest := text[2..];
    if k > 0 {
      PairsAreBytes(rest, k - 1);
    } else if |rest| >= 2 {
      PairsAreBytes(rest, 0);
    }
  }

  /** What counts as a hex digit, and what it is worth. */
  lemma HexDigitsAre(c: char)
    ensures ToDigit(c, 16) == if '0' <= c <= '9' then Some(c as int - 48)
                              else if 'a' <= c <= 'f' then Some(c as int - 87)
                              else if 'A' <= c <= 'F' then Some(c as int - 55)
                              else None
  {
  }

  /** `y2hex` then `hex2y` through a string register restores every buffer, the empty one too. */
  lemma BytesThroughRegister(bytes: seq<byte>)
    ensures HexToBytes(CString(StringBytes(HexText(bytes)))) == Some(bytes)
  {
    HexTextParses(bytes);
    AsciiSurvives(HexText(bytes));
  }

  // ---- splitting ----

  /** The fields with the separator back between them. */
  function Join(fields: seq<Text>, at: char): Text
    requires fields != []
  {
    if |fields| == 1 then fields[0] else fields[0] + [at] + Join(fields[1..], at)
  }

  /** Splitting loses nothing: joined again the fields are the text, and none holds the separator. */
  lemma {:induction false} SplitThenJoin(text: Text, at: char)
    ensures Join(Split(text, {at}), at) == text
    ensures forall i :: 0 <= i < |Split(text, {at})| ==> at !in Split(text, {at})[i]
  {
    if text != [] {
      SplitThenJoin(text[1..], at);
      var rest := Split(text[1..], {at});
      var fields := Split(text, {at});
      if text[0] == at {
        assert fields[1..] == rest;
        assert [] + [at] + Join(rest, at) == [text[0]] + text[1..];
      } else {
        assert fields == [[text[0]] + rest[0]] + rest[1..];
        if |rest| > 1 {
          assert fields[1..] == rest[1..];
          assert [text[0]] + rest[0] + [at] + Join(rest[1..], at) == [text[0]] + Join(rest, at);
        }
      }
    }
  }

  predicate FreeOf(text: Text, stops: set<char>) {
    forall i :: 0 <= i < |text| ==> text[i] !in stops
  }

  /** Text without a separator joins the first field of what follows it. */
  lemma {:induction false} SplitAppends(prefix: Text, text: Text, stops: set<char>)
    requires FreeOf(prefix, stops)
    ensures Split(prefix + text, stops) == [prefix + Split(text, stops)[0]] + Split(text, stops)[1..]
  {
    var fields := Split(text, stops);
    if prefix == [] {
      assert prefix + text == text && [] + fields[0] == fields[0];
      assert [fields[0]] + fields[1..] == fields;
    } else {
      var whole, rest := prefix + text, prefix[1..];
      assert whole[1..] == rest + text && whole[0] == prefix[0];
      SplitAppends(rest, text, stops);
      assert [prefix[0]] + (rest + fields[0]) == prefix + fields[0];
      assert ([rest + fields[0]] + fields[1..])[1..] == fields[1..];
    }
  }

  /** Fields joined with a separator none of them holds split into themselves again. */
  lemma {:induction false} JoinThenSplit(fields: seq<Text>, at: char, stops: set<char>)
    requires fields != [] && at in stops && forall i :: 0 <= i < |fields| ==> FreeOf(fields[i], stops)
    ensures Split(Join(fields, at), stops) == fields
  {
    var first := fields[0];
    if |fields| == 1 {
      SplitAppends(first, [], stops);
      assert first + [] == first;
    } else {
      var more := Join(fields[1..], at);
      JoinThenSplit(fields[1..], at, stops);
      SplitAppends(first, [at] + more, stops);
      assert ([at] + more)[1..] == more;
      assert Split([at] + more, stops) == [[]] + fields[1..];
      assert first + [at] + more == first + ([at] + more);
      assert first + [] == first;
    }
  }

  // ---- a2y ----

  function HexByte(b: byte): Text {
    [DigitChar(b / 16), DigitChar(b % 16)]
  }

  function HexBytes(bytes: seq<byte>): (fields: seq<Text>)
    ensures |fields| == |bytes|
  {
    if bytes == [] then [] else [HexByte(bytes[0])] + HexBytes(bytes[1..])
  }

  predicate IsA2YChar(c: char) {
    ToDigit(c, 16).Some? || c in {' ', ';', ','}
  }

  lemma HexByteParses(b: byte)
    ensures ParseInt(HexByte(b), 16) == Some(b)
    ensures FreeOf(HexByte(b), {' ', ';', ','})
    ensures !IsSpace(HexByte(b)[0]) && !IsSpace(HexByte(b)[1])
    ensures IsA2YChar(HexByte(b)[0]) && IsA2YChar(HexByte(b)[1])
  {
    DigitRoundTrip(b / 16, 16);
    DigitRoundTrip(b % 16, 16);
    var text := HexByte(b);
    assert text[..1][..0] == [] && text[..1] == [text[0]];
    assert Digits([text[0]], 16) == Some(b / 16) by {
      assert [text[0]][..0] == [];
    }
  }

  lemma {:induction false} HexBytesAt(bytes: seq<byte>, i: nat)
    requires i < |bytes|
    ensures HexBytes(bytes)[i] == HexByte(bytes[i])
  {
    if i > 0 {
      HexBytesAt(bytes[1..], i - 1);
    }
  }

  lemma HexByteLength(b: byte)
    ensures |HexByte(b)| == 2
  {
  }

  lemma {:induction false} TokensParse(bytes: seq<byte>)
    ensures HexTokens(HexBytes(bytes)) == (bytes, true)
  {
    hide ParseInt, HexByte;
    if bytes != [] {
      HexByteParses(bytes[0]);
      TokensParse(bytes[1..]);
      assert HexBytes(bytes)[1..] == HexBytes(bytes[1..]);
      assert [bytes[0]] + bytes[1..] == bytes;
      assert HexByte(bytes[0]) != [] by {
        HexByteLength(bytes[0]);
      }
    }
  }

  /** One field of hex bytes is read as they are. */
  lemma OneByteField(b: byte)
    ensures TrimStart(TrimEnd(HexByte(b))) == HexByte(b)
    ensures HexTokens(Split(HexByte(b), {' '})) == ([b], true)
  {
    hide ParseInt, DigitChar;
    HexByteParses(b);
    NoTrim(HexByte(b));
    JoinThenSplit([HexByte(b)], ' ', {' '});
    TokensParse([b]);
    assert HexBytes([b]) == [HexByte(b)];
  }

  lemma {:induction false} ByteFields(bytes: seq<byte>)
    ensures A2YFields(HexBytes(bytes)) == bytes
  {
    hide HexTokens, Split, TrimStart, TrimEnd, HexByte;
    if bytes != [] {
      OneByteField(bytes[0]);
      HexByteLength(bytes[0]);
      ByteFields(bytes[1..]);
      assert HexBytes(bytes)[1..] == HexBytes(bytes[1..]);
      assert [bytes[0]] + bytes[1..] == bytes;
    }
  }

  lemma {:induction false} AllAccepted(text: Text)
    requires forall i :: 0 <= i < |text| ==> IsA2YChar(text[i])
    ensures AcceptedByA2Y(text) == text
  {
    hide ToDigit;
    if text != [] {
      assert IsA2YChar(text[0]);
      AllAccepted(text[1..]);
    }
  }

  lemma SeparatorAccepted(at: char)
    requires at in {' ', ';', ','}
    ensures IsA2YChar(at)
  {
  }

  /** A text of a2y characters whose ends are no spaces. */
  predicate IsHexList(text: Text) {
    && text != [] && !IsSpace(text[0]) && !IsSpace(text[|text| - 1])
    && forall i :: 0 <= i < |text| ==> IsA2YChar(text[i])
  }

  lemma HexListGrows(head: Text, at: char, tail: Text)
    requires IsHexList(head) && IsHexList(tail) && IsA2YChar(at)
    ensures IsHexList(head + [at] + tail)
  {
    hide IsSpace, IsA2YChar;
    var text := head + [at] + tail;
    assert text[|text| - 1] == tail[|tail| - 1];
  }

  lemma HexByteIsList(b: byte)
    ensures IsHexList(HexByte(b))
  {
    HexByteParses(b);
  }

  /** A joined list of hex bytes is made of a2y characters, its ends no spaces. */
  lemma {:induction false} JoinedHex(bytes: seq<byte>, at: char)
    requires bytes != [] && at in {' ', ';', ','}
    ensures IsHexList(Join(HexBytes(bytes), at))
  {
    hide IsHexList, IsA2YChar, HexByte;
    HexByteIsList(bytes[0]);
    SeparatorAccepted(at);
    if |bytes| > 1 {
      JoinedHex(bytes[1..], at);
      assert HexBytes(bytes)[1..] == HexBytes(bytes[1..]);
      HexListGrows(HexByte(bytes[0]), at, Join(HexBytes(bytes[1..]), at));
    } else {
      assert HexBytes(bytes[1..]) == [];
    }
  }

  lemma {:induction false} JoinFreeOf(fields: seq<Text>, at: char, stops: set<char>)
    requires fields != [] && at !in stops && forall i :: 0 <= i < |fields| ==> FreeOf(fields[i], stops)
    ensures FreeOf(Join(fields, at), stops)
  {
    if |fields| > 1 {
      JoinFreeOf(fields[1..], at, stops);
    }
  }

  lemma BlankSeparated(bytes: seq<byte>, text: Text)
    requires bytes != [] && text == Join(HexBytes(bytes), ' ')
    requires text != [] && !IsSpace(text[0]) && !IsSpace(text[|text| - 1])
    requires forall i :: 0 <= i < |HexBytes(bytes)| ==>
               FreeOf(HexBytes(bytes)[i], {',', ';'}) && FreeOf(HexBytes(bytes)[i], {' '})
    ensures A2YFields(Split(text, {',', ';'})) == bytes
  {
    hide IsSpace, HexTokens, TrimStart, TrimEnd;
    var fields := HexBytes(bytes);
    JoinFreeOf(fields, ' ', {',', ';'});
    JoinThenSplit([text], ',', {',', ';'});
    NoTrim(text);
    JoinThenSplit(fields, ' ', {' '});
    TokensParse(bytes);
    assert A2YFields([]) == [] && bytes + [] == bytes;
    assert [text][1..] == [];
  }

  /** `a2y` inverts two-digit hex separated by blanks, semicolons or commas. */
  lemma A2YInvertsSpacedHex(bytes: seq<byte>, at: char)
    requires bytes != [] && at in {' ', ';', ','}
    ensures A2Y(Join(HexBytes(bytes), at)) == bytes
  {
    hide IsSpace, IsA2YChar, HexByte, HexTokens, TrimStart, TrimEnd, Split, AcceptedByA2Y;
    JoinedHex(bytes, at);
    var fields := HexBytes(bytes);
    var text := Join(fields, at);
    AllAccepted(text);
    forall i | 0 <= i < |fields|
      ensures FreeOf(fields[i], {',', ';'}) && FreeOf(fields[i], {' '})
    {
      HexBytesAt(bytes, i);
      HexByteParses(bytes[i]);
    }
    if at == ' ' {
      BlankSeparated(bytes, text);
    } else {
      JoinThenSplit(fields, at, {',', ';'});
      ByteFields(bytes);
    }
  }

  lemma {:induction false} BlanksTrim(blank: Text)
    requires forall i :: 0 <= i < |blank| ==> blank[i] == ' '
    ensures TrimEnd(blank) == []
  {
    if blank != [] {
      BlanksTrim(blank[..|blank| - 1]);
    }
  }

  /** A blank field of `a2y` stands for one zero more than its blanks. */
  lemma BlankFieldIsZeros(blank: Text, bytes: seq<byte>, at: char)
    requires bytes != [] && at in {';', ','} && forall i :: 0 <= i < |blank| ==> blank[i] == ' '
    ensures A2Y(blank + [at] + Join(HexBytes(bytes), at)) == seq(|blank| + 1, _ => 0) + bytes
  {
    hide IsSpace, IsA2YChar, HexByte, HexTokens, Split, AcceptedByA2Y, TrimEnd;
    var fields := HexBytes(bytes);
    var tail := Join(fields, at);
    var text := blank + [at] + tail;
    JoinedHex(bytes, at);
    SeparatorAccepted(' ');
    SeparatorAccepted(at);
    AllAccepted(text);
    forall i | 0 <= i < |fields|
      ensures FreeOf(fields[i], {',', ';'})
    {
      HexBytesAt(bytes, i);
      HexByteParses(bytes[i]);
    }
    JoinThenSplit([blank] + fields, at, {',', ';'});
    assert ([blank] + fields)[1..] == fields;
    assert text == Join([blank] + fields, at);
    BlanksTrim(blank);
    ByteFields(bytes);
  }

  lemma BadToken(bad: Text)
    requires bad != [] && var v := ParseInt(bad, 16); v == None || v.value > 0xFF
    ensures HexTokens([bad]) == ([], false)
  {
  }

  lemma {:induction false} FieldsThenBad(bytes: seq<byte>, bad: Text)
    requires bad != [] && FreeOf(bad, {' '}) && TrimStart(TrimEnd(bad)) == bad
    requires var v := ParseInt(bad, 16); v == None || v.value > 0xFF
    ensures A2YFields(HexBytes(bytes) + [bad]) == bytes
  {
    hide TrimStart, TrimEnd, HexByte, ParseInt, Split, HexTokens;
    var fields := HexBytes(bytes) + [bad];
    if bytes == [] {
      assert fields == [bad];
      JoinThenSplit([bad], ' ', {' '});
      BadToken(bad);
    } else {
      OneByteField(bytes[0]);
      HexByteLength(bytes[0]);
      FieldsThenBad(bytes[1..], bad);
      assert HexBytes(bytes)[1..] == HexBytes(bytes[1..]);
      assert fields[1..] == HexBytes(bytes[1..]) + [bad];
      assert [bytes[0]] + bytes[1..] == bytes;
    }
  }

  lemma {:induction false} JoinLast(fields: seq<Text>, last: Text, at: char)
    requires fields != []
    ensures Join(fields + [last], at) == Join(fields, at) + [at] + last
  {
    if |fields| == 1 {
      assert (fields + [last])[1..] == [last];
    } else {
      assert (fields + [last])[1..] == fields[1..] + [last];
      JoinLast(fields[1..], last, at);
    }
  }

  /** A number beyond a byte, however long, stops `a2y` at the bytes before it. */
  lemma BigNumberStops(bytes: seq<byte>, bad: Text, at: char)
    requires bytes != [] && at in {';', ','} && IsHexList(bad) && FreeOf(bad, {' ', ',', ';'})
    requires var v := ParseInt(bad, 16); v == None || v.value > 0xFF
    ensures A2Y(Join(HexBytes(bytes), at) + [at] + bad) == bytes
  {
    hide IsSpace, IsA2YChar, HexByte, HexTokens, Split, AcceptedByA2Y, TrimEnd, TrimStart, ParseInt;
    var fields := HexBytes(bytes);
    var text := Join(fields, at) + [at] + bad;
    JoinedHex(bytes, at);
    SeparatorAccepted(at);
    AllAccepted(text);
    NoTrim(bad);
    forall i | 0 <= i < |fields|
      ensures FreeOf(fields[i], {',', ';'})
    {
      HexBytesAt(bytes, i);
      HexByteParses(bytes[i]);
    }
    JoinThenSplit(fields + [bad], at, {',', ';'});
    JoinLast(fields, bad, at);
    FieldsThenBad(bytes, bad);
  }

  lemma {:induction false} AcceptedUpTo(text: Text, c: char, rest: Text)
    requires (forall i :: 0 <= i < |text| ==> IsA2YChar(text[i])) && !IsA2YChar(c)
    ensures AcceptedByA2Y(text + [c] + rest) == text
  {
    hide ToDigit;
    var whole := text + [c] + rest;
    if text == [] {
      assert whole[0] == c;
    } else {
      assert IsA2YChar(text[0]);
      assert whole[1..] == text[1..] + [c] + rest;
      AcceptedUpTo(text[1..], c, rest);
    }
  }

  lemma NoField()
    ensures A2YFields(Split([], {',', ';'})) == [0]
  {
    var fields := Split([], {',', ';'});
    assert fields == [[]] && fields[1..] == [];
    var zero: seq<byte> := seq(1, _ => 0);
    assert zero == [0] && zero + [] == [0];
    NothingTrimmed();
  }

  /** Any other character ends the text, but with nothing before it a lone zero is left. */
  lemma OtherCharacterStops(text: Text, c: char, rest: Text)
    requires (forall i :: 0 <= i < |text| ==> IsA2YChar(text[i])) && !IsA2YChar(c)
    ensures A2Y(text + [c] + rest) == if text == [] then [0] else A2Y(text)
  {
    hide A2YFields, Split, IsA2YChar;
    AcceptedUpTo(text, c, rest);
    AllAccepted(text);
    if text == [] {
      NoField();
    }
  }
}
