/**
 The BMW-FAST telegram codec (telegram.rs): a UDS payload wrapped in an addressing
 header whose length takes one of three forms, closed by an additive checksum.
*/
module Telegram {
  import opened Wrappers
  import opened Words

  datatype Telegram = Telegram(target: byte, source: byte, uds: seq<byte>)

  datatype TelegramError =
    | TooShort
    | BadLength(declared: nat, actual: nat)
    | BadChecksum(expected: byte, found: byte)

  /** Where the payload starts, and the frame length without its checksum. */
  datatype Layout = Layout(dataOffset: nat, length: nat)

  /** The wrapping 8-bit sum of `bytes`. */
  function Checksum(bytes: seq<byte>): byte {
    if bytes == [] then 0 else (Checksum(bytes[..|bytes| - 1]) + bytes[|bytes| - 1]) % 0x100
  }

  function HeaderAndLength(frame: seq<byte>): Result<Layout, TelegramError> {
    if |frame| == 0 then Err(TooShort)
    else
      var shortLen := frame[0] % 0x40;
      if shortLen != 0 then Ok(Layout(3, shortLen + 3))
      else if |frame| <= 3 then Err(TooShort)
      else if frame[3] != 0 then Ok(Layout(4, frame[3] as int + 4))
      else if |frame| <= 5 then Err(TooShort)
      else Ok(Layout(6, frame[4] as int * 0x100 + frame[5] as int + 6))
  }

  /** The addressing and length header `Encode` puts before `n` payload bytes. */
  function Header(target: byte, source: byte, n: nat): seq<byte> {
    if n <= 0x3F then [0x80 + n, target, source]
    else if n <= 0xFF then [0x80, target, source, n]
    else [0x80, target, source, 0, (n / 0x100) % 0x100, n % 0x100]
  }

  function Encode(target: byte, source: byte, uds: seq<byte>): seq<byte> {
    var body := Header(target, source, |uds|) + uds;
    body + [Checksum(body)]
  }

  /** `checksum` as the source folds it: left to right with a wrapping accumulator. */
  method SumBytes(bytes: seq<byte>) returns (sum: byte)
    ensures sum == Checksum(bytes)
  {
    sum := 0;
    for i := 0 to |bytes|
      invariant sum == Checksum(bytes[..i])
    {
      assert bytes[..i + 1][..i] == bytes[..i];
      sum := (sum + bytes[i]) % 0x100;
    }
    assert bytes[..|bytes|] == bytes;
  }

  /** `encode` as the source builds it: a frame grown push by push. */
  method BuildFrame(target: byte, source: byte, uds: seq<byte>) returns (frame: seq<byte>)
    ensures frame == Encode(target, source, uds)
  {
    frame := [];
    var n := |uds|;
    if n <= 0x3F {
      frame := frame + [0x80 + n];
      frame := frame + [target];
      frame := frame + [source];
    } else if n <= 0xFF {
      frame := frame + [0x80];
      frame := frame + [target];
      frame := frame + [source];
      frame := frame + [n % 0x100];
    } else {
      frame := frame + [0x80];
      frame := frame + [target];
      frame := frame + [source];
      frame := frame + [0x00];
      frame := frame + [(n / 0x100) % 0x100];
      frame := frame + [n % 0x100];
    }
    assert frame == Header(target, source, n);
    frame := frame + uds;
    var sum := SumBytes(frame);
    frame := frame + [sum];
  }

  function Decode(frame: seq<byte>): Result<Telegram, TelegramError> {
    var layout :- HeaderAndLength(frame);
    var fullLen := layout.length + 1;
    if |frame| < fullLen then Err(BadLength(fullLen, |frame|))
    else
      var expected := Checksum(frame[..layout.length]);
      var found := frame[layout.length];
      if expected != found then Err(BadChecksum(expected, found))
      else Ok(Telegram(frame[1], frame[2], frame[layout.dataOffset..layout.length]))
  }

  /** The request decode: the checksum byte is optional and never verified. */
  function DecodeRequest(frame: seq<byte>): Result<Telegram, TelegramError> {
    var layout :- HeaderAndLength(frame);
    if |frame| < layout.length then Err(BadLength(layout.length, |frame|))
    else Ok(Telegram(frame[1], frame[2], frame[layout.dataOffset..layout.length]))
  }

  function PeekSid(frame: seq<byte>): Option<byte> {
    match HeaderAndLength(frame)
    case Err(_) => None
    case Ok(layout) =>
      if layout.dataOffset < |frame| then Some(frame[layout.dataOffset]) else None
  }

  // ---- the wire ----

  /** The three forms, byte by byte: length form, addresses, payload, and the sum of all before it. */
  lemma WireFormat(target: byte, source: byte, uds: seq<byte>)
    requires |uds| <= 0xFFFF
    ensures var (wire, n) := (Encode(target, source, uds), |uds|);
            var head := if n <= 63 then 3 else if n <= 255 then 4 else 6;
            && |wire| == head + n + 1 && wire[head..head + n] == uds && wire[1] == target && wire[2] == source
            && wire[0] == 0x80 + (if n <= 63 then n else 0)
            && (63 < n <= 255 ==> wire[3] == n)
            && (n > 255 ==> wire[3] == 0 && n == wire[4] as int * 0x100 + wire[5] as int)
            && wire[head + n] == Checksum(wire[..head + n])
  {
  }

  /** `frame` declares `n` payload bytes behind `head` header bytes, in one of the three forms. */
  predicate Declares(frame: seq<byte>, head: nat, n: nat) {
    && |frame| > 0
    && (|| (head == 3 && n == frame[0] % 64 && n != 0)
        || (head == 4 && |frame| > 3 && frame[0] % 64 == 0 && n == frame[3] && n != 0)
        || (head == 6 && |frame| > 5 && frame[0] % 64 == 0 && frame[3] == 0
            && n == frame[4] as int * 0x100 + frame[5] as int))
  }

  /** Decoding in numbers: how a frame is read, and what is wrong with one that is not. */
  lemma DecodesAsDeclared(frame: seq<byte>, head: nat, n: nat)
    ensures Declares(frame, head, n) ==>
              && Decode(frame) == (if |frame| < head + n + 1 then Err(BadLength(head + n + 1, |frame|))
                                   else if Checksum(frame[..head + n]) != frame[head + n]
                                   then Err(BadChecksum(Checksum(frame[..head + n]), frame[head + n]))
                                   else Ok(Telegram(frame[1], frame[2], frame[head..head + n])))
              && DecodeRequest(frame) == (if |frame| < head + n then Err(BadLength(head + n, |frame|))
                                          else Ok(Telegram(frame[1], frame[2], frame[head..head + n])))
              && PeekSid(frame) == (if |frame| > head then Some(frame[head]) else None)
    ensures (forall h, k :: !Declares(frame, h, k)) ==>
              Decode(frame) == Err(TooShort) && DecodeRequest(frame) == Err(TooShort) && PeekSid(frame) == None
  {
    if |frame| > 0 && HeaderAndLength(frame).Ok? {
      var layout := HeaderAndLength(frame).value;
      assert Declares(frame, layout.dataOffset, layout.length - layout.dataOffset);
    }
  }

  // ---- round trip ----

  lemma HeaderLayout(target: byte, source: byte, uds: seq<byte>, tail: seq<byte>)
    requires 1 <= |uds| <= 0xFFFF
    ensures var header := Header(target, source, |uds|);
            HeaderAndLength(header + uds + tail) == Ok(Layout(|header|, |header| + |uds|))
  {
  }

  /** A payload whose length no form can carry: none at all, or beyond sixteen bits. */
  lemma LayoutOfUncarried(target: byte, source: byte, uds: seq<byte>)
    requires |uds| == 0 || |uds| > 0xFFFF
    ensures match HeaderAndLength(Encode(target, source, uds))
            case Ok(layout) => layout.length - layout.dataOffset != |uds| ||
                               |Encode(target, source, uds)| < layout.length + 1
            case Err(_) => true
  {
  }

  /**
   Decoding what was encoded gives the telegram back for every payload a form can
   carry, and for no other: an empty payload's short form reads as a long one, and
   beyond 65535 bytes the length field wraps.
  */
  lemma DecodeOfEncode(target: byte, source: byte, uds: seq<byte>)
    ensures Decode(Encode(target, source, uds)) == Ok(Telegram(target, source, uds))
            <==> 1 <= |uds| <= 0xFFFF
  {
    var header := Header(target, source, |uds|);
    var body := header + uds;
    var frame := Encode(target, source, uds);
    if 1 <= |uds| <= 0xFFFF {
      HeaderLayout(target, source, uds, [Checksum(body)]);
      assert frame[..|body|] == body;
      assert frame[|header|..|body|] == uds;
      assert frame[1] == header[1] && frame[2] == header[2];
    } else {
      LayoutOfUncarried(target, source, uds);
    }
  }

  /** A checksum-less request decodes to the same telegram the strict decode yields. */
  lemma DecodeRequestOfBody(target: byte, source: byte, uds: seq<byte>)
    requires 1 <= |uds| <= 0xFFFF
    ensures DecodeRequest(Header(target, source, |uds|) + uds) == Ok(Telegram(target, source, uds))
    ensures DecodeRequest(Encode(target, source, uds)) == Ok(Telegram(target, source, uds))
  {
    var header := Header(target, source, |uds|);
    var body := header + uds;
    HeaderLayout(target, source, uds, []);
    assert header + uds + [] == body;
    assert body[..|body|] == body && body[|header|..] == uds;
    assert body[1] == header[1] && body[2] == header[2];
    HeaderLayout(target, source, uds, [Checksum(body)]);
    var frame := Encode(target, source, uds);
    assert frame[|header|..|body|] == uds;
    assert frame[1] == header[1] && frame[2] == header[2];
  }

  // ---- the gate's peek agrees with the decode ----

  /**
   On any frame the request decode accepts, the peeked byte is the first payload byte.
   It can only differ when the payload is empty: a sixteen-bit form of declared length
   zero, where the peek reads whatever byte follows the header.
  */
  lemma PeekAgreesWithDecode(frame: seq<byte>)
    requires DecodeRequest(frame).Ok?
    ensures var uds := DecodeRequest(frame).value.uds;
            && (uds != [] ==> PeekSid(frame) == Some(uds[0]))
            && (uds == [] <==> frame[0] % 0x40 == 0 && frame[3] == 0 && frame[4] == 0 && frame[5] == 0)
            && (uds == [] ==> PeekSid(frame) == if |frame| > 6 then Some(frame[6]) else None)
  {
  }

  // ---- tamper detection ----

  function Sum(bytes: seq<byte>): nat {
    if bytes == [] then 0 else Sum(bytes[..|bytes| - 1]) + bytes[|bytes| - 1]
  }

  lemma {:induction false} ChecksumIsSum(bytes: seq<byte>)
    ensures Checksum(bytes) == Sum(bytes) % 0x100
  {
    if bytes != [] {
      ChecksumIsSum(bytes[..|bytes| - 1]);
    }
  }

  lemma {:induction false} SumUpdate(bytes: seq<byte>, i: nat, x: byte)
    requires i < |bytes|
    ensures Sum(bytes[i := x]) == Sum(bytes) + x - bytes[i]
  {
    var n := |bytes| - 1;
    if i < n {
      SumUpdate(bytes[..n], i, x);
      assert bytes[i := x][..n] == bytes[..n][i := x];
    } else {
      assert bytes[i := x][..n] == bytes[..n];
    }
  }

  /** Byte `i` of `frame` holds an address, a payload byte or the checksum. */
  predicate Unstructured(frame: seq<byte>, i: nat) {
    HeaderAndLength(frame).Ok? && (i in {1, 2} || HeaderAndLength(frame).value.dataOffset <= i)
  }

  lemma LayoutUntouched(frame: seq<byte>, i: nat, x: byte)
    requires i < |frame| && Unstructured(frame, i)
    ensures HeaderAndLength(frame[i := x]) == HeaderAndLength(frame)
  {
  }

  lemma ResidueMoves(sum: int, delta: int)
    requires delta != 0 && -0x100 < delta < 0x100
    ensures sum % 0x100 != (sum + delta) % 0x100
  {
  }

  /**
   Corrupting any one address, payload or checksum byte of an accepted frame that is
   exactly as long as its header declares is always reported as a bad checksum.
  */
  lemma TamperIsDetected(frame: seq<byte>, i: nat, x: byte)
    requires Decode(frame).Ok?
    requires |frame| == HeaderAndLength(frame).value.length + 1
    requires i < |frame| && Unstructured(frame, i) && x != frame[i]
    ensures Decode(frame[i := x]).Err? && Decode(frame[i := x]).error.BadChecksum?
  {
    hide HeaderAndLength, Checksum;
    var bad := frame[i := x];
    var n := HeaderAndLength(frame).value.length;
    LayoutUntouched(frame, i, x);
    if i == n {
      assert bad[..n] == frame[..n];
    } else {
      assert bad[..n] == frame[..n][i := x];
      SumUpdate(frame[..n], i, x);
      ChecksumIsSum(frame[..n]);
      ChecksumIsSum(bad[..n]);
      ResidueMoves(Sum(frame[..n]), x - frame[i]);
    }
  }
}
