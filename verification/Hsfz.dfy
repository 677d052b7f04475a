/** HSFZ framing (hsfz/frame.rs): a big-endian length and control word before each body. */
module Hsfz {
  import opened Wrappers
  import opened Words
  import Arithmetic

  const HEADER_LEN: nat := 6
  const MAX_FRAME_LEN: nat := 0x1_0000

  const DIAGNOSTIC: u16 := 0x0001
  const ACK: u16 := 0x0002
  const ALIVE_CHECK: u16 := 0x0012

  datatype Frame = Frame(control: u16, addr: Option<(byte, byte)>, payload: seq<byte>)

  /** Io stands for a connection that ended inside a read, ReadTimeout for a read that took too long. */
  datatype FrameError = Truncated(have: nat, need: nat) | FrameTooLarge(length: nat) | Io | ReadTimeout

  predicate ControlHasAddrs(control: u16, bodyLen: nat) {
    control == DIAGNOSTIC || control == ACK || (control == ALIVE_CHECK && bodyLen == 2)
  }

  function Be16(v: u16): seq<byte> {
    [v / 0x100, v % 0x100]
  }

  function Be32(v: u32): seq<byte> {
    Be16(v / 0x1_0000) + Be16(v % 0x1_0000)
  }

  function Word16(b: seq<byte>): u16
    requires |b| >= 2
  {
    b[0] as int * 0x100 + b[1] as int
  }

  function Word32(b: seq<byte>): u32
    requires |b| >= 4
  {
    Word16(b) as int * 0x1_0000 + Word16(b[2..]) as int
  }

  function Body(frame: Frame): seq<byte> {
    match frame.addr
    case Some((src, tgt)) => [src, tgt] + frame.payload
    case None => frame.payload
  }

  function Encode(frame: Frame): seq<byte> {
    var body := Body(frame);
    Be32(|body| % TWO_32) + Be16(frame.control) + body
  }

  /** `encode` as the source builds it, growing the body and then the frame. */
  method BuildFrame(frame: Frame) returns (out: seq<byte>)
    ensures out == Encode(frame)
  {
    var body := [];
    match frame.addr {
      case Some((src, tgt)) =>
        body := body + [src];
        body := body + [tgt];
      case None =>
    }
    body := body + frame.payload;
    assert body == Body(frame);
    out := Be32(|body| % TWO_32);
    out := out + Be16(frame.control);
    out := out + body;
  }

  function Decode(buf: seq<byte>): Result<Frame, FrameError> {
    if |buf| < HEADER_LEN then Err(Truncated(|buf|, HEADER_LEN))
    else
      var length: nat := Word32(buf);
      if length > MAX_FRAME_LEN then Err(FrameTooLarge(length))
      else if |buf| < HEADER_LEN + length then Err(Truncated(|buf|, HEADER_LEN + length))
      else
        var control := Word16(buf[4..]);
        var body := buf[HEADER_LEN..HEADER_LEN + length];
        if !ControlHasAddrs(control, length) then Ok(Frame(control, None, body))
        else if length < 2 then Err(Truncated(HEADER_LEN + length, HEADER_LEN + 2))
        else Ok(Frame(control, Some((body[0], body[1])), body[2..]))
  }

  /** A frame the wire can carry: addressed exactly when its control word says so, within the cap. */
  predicate WellFormed(frame: Frame) {
    && (frame.addr.Some? <==> ControlHasAddrs(frame.control, |Body(frame)|))
    && |Body(frame)| <= MAX_FRAME_LEN
  }

  lemma BigEndian(v: u32)
    ensures var b := Be32(v);
            |b| == 4 && v == b[0] as int * 0x100_0000 + b[1] as int * 0x1_0000 + b[2] as int * 0x100 + b[3] as int
  {
    var hi, lo := v / 0x1_0000, v % 0x1_0000;
    assert hi == hi / 0x100 * 0x100 + hi % 0x100 && lo == lo / 0x100 * 0x100 + lo % 0x100;
  }

  lemma FrameParts(frame: Frame)
    ensures var (wire, size) := (Encode(frame), Be32(|Body(frame)| % TWO_32));
            && |wire| == 6 + |Body(frame)| && wire[6..] == Body(frame)
            && forall i :: 0 <= i < 4 ==> |size| == 4 && wire[i] == size[i]
    ensures Encode(frame)[4] as int * 0x100 + Encode(frame)[5] as int == frame.control
  {
  }

  /** On the wire: the body's length and the control word big-endian, then addresses, then payload. */
  lemma WireFormat(frame: Frame)
    requires WellFormed(frame)
    ensures var (wire, head) := (Encode(frame), if frame.addr.Some? then 8 else 6);
            && |wire| == head + |frame.payload| && wire[head..] == frame.payload
            && wire[0] as int * 0x100_0000 + wire[1] as int * 0x1_0000 + wire[2] as int * 0x100 + wire[3] as int
               == |wire| - 6
            && wire[4] as int * 0x100 + wire[5] as int == frame.control
            && (frame.addr.Some? ==> (wire[6], wire[7]) == frame.addr.value)
  {
    hide Encode, Be32;
    FrameParts(frame);
    BigEndian(|Body(frame)|);
  }

  /** In numbers: diagnostic and acknowledge frames are addressed, and an alive check of two bytes. */
  lemma AddressedFrames(frame: Frame)
    ensures WellFormed(frame) <==>
            match frame.addr
            case Some(_) =>
              || (frame.control in {0x0001, 0x0002} && |frame.payload| + 2 <= 65536)
              || (frame.control == 0x0012 && frame.payload == [])
            case None =>
              && frame.control !in {0x0001, 0x0002} && |frame.payload| <= 65536
              && (frame.control == 0x0012 ==> |frame.payload| != 2)
  {
  }

  /** The header of an encoded frame, whatever follows it. */
  lemma HeaderReads(frame: Frame, tail: seq<byte>)
    ensures var buf := Encode(frame) + tail;
            && |buf| == HEADER_LEN + |Body(frame)| + |tail|
            && Word32(buf) == |Body(frame)| % TWO_32 && Word16(buf[4..]) == frame.control
            && buf[HEADER_LEN..] == Body(frame) + tail
  {
  }

  /**
   Decoding an encoded frame gives it back, whatever bytes follow, exactly when the frame
   is one the wire can carry.
  */
  lemma DecodeOfEncode(frame: Frame, tail: seq<byte>)
    ensures Decode(Encode(frame) + tail) == Ok(frame) <==> WellFormed(frame)
  {
    hide Encode, Word32, Word16;
    HeaderReads(frame, tail);
    var buf := Encode(frame) + tail;
    var body := Body(frame);
    var length := |body| % TWO_32;
    if |buf| >= HEADER_LEN + length {
      assert buf[HEADER_LEN..HEADER_LEN + length] == (body + tail)[..length];
      if length == |body| {
        assert (body + tail)[..length] == body;
      }
    }
  }

  /** What is wrong with bytes that do not decode: too few for the header, the declared body, or two addresses. */
  lemma DecodeFails(buf: seq<byte>, control: u16, length: nat)
    requires |buf| >= 6 ==> control == buf[4] as int * 0x100 + buf[5] as int
    requires |buf| >= 6 ==> length == buf[0] as int * 0x100_0000 + buf[1] as int * 0x1_0000 + buf[2] as int * 0x100
                                      + buf[3] as int
    ensures |buf| < 6 ==> Decode(buf) == Err(Truncated(|buf|, 6))
    ensures |buf| >= 6 && length > 65536 ==> Decode(buf) == Err(FrameTooLarge(length))
    ensures |buf| >= 6 && length <= 65536 && |buf| < 6 + length ==> Decode(buf) == Err(Truncated(|buf|, 6 + length))
    ensures |buf| >= 6 + length && length <= 65536 ==>
              if control in {0x0001, 0x0002} && length < 2 then Decode(buf) == Err(Truncated(6 + length, 8))
              else Decode(buf).Ok?
  {
  }

  lemma WordRoundTrip(b: seq<byte>)
    requires |b| >= 2
    ensures Be16(Word16(b)) == b[..2]
  {
    Arithmetic.DivUnique(Word16(b), 0x100, b[0], b[1]);
  }

  lemma BytesRoundTrip(b: seq<byte>)
    requires |b| >= 6
    ensures Be32(Word32(b)) + Be16(Word16(b[4..])) == b[..6]
  {
    hide Word16, Be16;
    WordRoundTrip(b);
    WordRoundTrip(b[2..]);
    WordRoundTrip(b[4..]);
    Arithmetic.DivUnique(Word32(b), 0x1_0000, Word16(b), Word16(b[2..]));
    assert b[..2] + b[2..][..2] + b[4..][..2] == b[..6];
  }

  /** A decoded frame is well-formed and encodes to exactly the bytes it was read from. */
  lemma EncodeOfDecode(buf: seq<byte>)
    requires Decode(buf).Ok?
    ensures WellFormed(Decode(buf).value)
    ensures Encode(Decode(buf).value) == buf[..HEADER_LEN + Word32(buf) as nat]
  {
    hide Be32, Be16, Word16, Word32;
    BytesRoundTrip(buf);
    var frame := Decode(buf).value;
    var length: nat := Word32(buf);
    assert Body(frame) == buf[HEADER_LEN..HEADER_LEN + length];
    assert buf[..6] + buf[6..6 + length] == buf[..6 + length];
  }

  // ---- the stream reader ----

  /** One `read_frame` from the front of a stream: the frame and the bytes left. */
  function ReadFrame(stream: seq<byte>): Result<(Frame, seq<byte>), FrameError> {
    if |stream| < 4 then Err(Io)
    else
      var length: nat := Word32(stream);
      if length > MAX_FRAME_LEN then Err(FrameTooLarge(length))
      else if |stream| < HEADER_LEN + length then Err(Io)
      else
        var frame :- Decode(stream[..HEADER_LEN + length]);
        Ok((frame, stream[HEADER_LEN + length..]))
  }

  /** The reader's loop: every frame until a read fails, and the bytes it failed on. */
  function ReadAll(stream: seq<byte>): (seq<Frame>, seq<byte>)
    decreases |stream|
  {
    match ReadFrame(stream)
    case Err(_) => ([], stream)
    case Ok((frame, rest)) =>
      var (frames, left) := ReadAll(rest);
      ([frame] + frames, left)
  }

  /** What senders put on the wire for a list of frames. */
  function Wire(frames: seq<Frame>): seq<byte> {
    if frames == [] then [] else Encode(frames[0]) + Wire(frames[1..])
  }

  lemma WellFormedBody(frame: Frame)
    requires WellFormed(frame)
    ensures |Body(frame)| <= MAX_FRAME_LEN
  {
  }

  lemma ReadFrameOfEncode(frame: Frame, tail: seq<byte>)
    requires WellFormed(frame)
    ensures ReadFrame(Encode(frame) + tail) == Ok((frame, tail))
  {
    hide Encode, Word32, Word16, Decode, WellFormed;
    HeaderReads(frame, tail);
    HeaderReads(frame, []);
    DecodeOfEncode(frame, []);
    WellFormedBody(frame);
    var stream := Encode(frame) + tail;
    assert Encode(frame) + [] == Encode(frame);
    assert stream[..|Encode(frame)|] == Encode(frame);
    assert stream[|Encode(frame)|..] == tail;
  }

  /**
   Repeated reading of encoded frames returns exactly those frames and goes on with what
   follows them, however the transport cut the stream into segments.
  */
  lemma {:induction false} ReadAllOfWire(frames: seq<Frame>, tail: seq<byte>)
    requires forall i :: 0 <= i < |frames| ==> WellFormed(frames[i])
    ensures ReadAll(Wire(frames) + tail) == (frames + ReadAll(tail).0, ReadAll(tail).1)
  {
    hide Encode, ReadFrame, WellFormed;
    if frames == [] {
      assert Wire(frames) + tail == tail;
      assert frames + ReadAll(tail).0 == ReadAll(tail).0;
    } else {
      var more := Wire(frames[1..]) + tail;
      assert Wire(frames) + tail == Encode(frames[0]) + more;
      ReadFrameOfEncode(frames[0], more);
      ReadAllOfWire(frames[1..], tail);
      assert [frames[0]] + (frames[1..] + ReadAll(tail).0) == frames + ReadAll(tail).0;
    }
  }

  lemma NothingToRead()
    ensures ReadAll([]) == ([], [])
  {
  }

  /** On a stream that ends with its last frame, every byte is consumed. */
  lemma WholeWireIsConsumed(frames: seq<Frame>)
    requires forall i :: 0 <= i < |frames| ==> WellFormed(frames[i])
    ensures ReadAll(Wire(frames)) == (frames, [])
  {
    hide Encode, ReadAll, WellFormed;
    ReadAllOfWire(frames, []);
    assert ReadAll([]) == ([], []) by {
      NothingToRead();
    }
    assert Wire(frames) + [] == Wire(frames) && frames + [] == frames;
  }

  lemma SameLength(stream: seq<byte>, n: nat)
    requires 4 <= n <= |stream|
    ensures Word32(stream[..n]) == Word32(stream)
  {
  }

  /** A frame read is well-formed, and its encoding is exactly the bytes taken. */
  lemma ReadFrameIsExact(stream: seq<byte>)
    requires ReadFrame(stream).Ok?
    ensures var (frame, rest) := ReadFrame(stream).value;
            WellFormed(frame) && Encode(frame) + rest == stream && |rest| < |stream|
  {
    hide Encode, Decode, WellFormed, Word32;
    var n := HEADER_LEN + Word32(stream) as nat;
    EncodeOfDecode(stream[..n]);
    SameLength(stream, n);
    assert stream[..n][..n] == stream[..n];
    assert stream == stream[..n] + stream[n..];
  }

  /**
   Whatever the stream holds, the frames read are well-formed, their encodings are exactly
   the bytes consumed, and reading stopped at bytes that hold no further frame.
  */
  lemma {:induction false} ReadAllIsExact(stream: seq<byte>)
    ensures var (frames, left) := ReadAll(stream);
            && Wire(frames) + left == stream
            && ReadFrame(left).Err?
            && forall i :: 0 <= i < |frames| ==> WellFormed(frames[i])
    decreases |stream|
  {
    hide Encode, WellFormed, ReadFrame;
    if ReadFrame(stream).Ok? {
      var (frame, rest) := ReadFrame(stream).value;
      ReadFrameIsExact(stream);
      ReadAllIsExact(rest);
      var (frames, left) := ReadAll(rest);
      assert ([frame] + frames)[1..] == frames;
      assert Encode(frame) + Wire(frames) + left == Encode(frame) + (Wire(frames) + left);
    }
  }

  // ---- reading under a timeout ----

  /** Any timing of the bytes: which reads, by position and size, do not finish in time. */
  type Timing = (nat, nat) -> bool

  /** `read_frame` at `pos`, each of its two reads bounded by the timeout. */
  function ReadTimed(stream: seq<byte>, pos: nat, slow: Timing): Result<(Frame, nat), FrameError>
    requires pos <= |stream|
  {
    if slow(pos, 4) then Err(ReadTimeout)
    else if |stream| - pos < 4 then Err(Io)
    else
      var length: nat := Word32(stream[pos..]);
      if length > MAX_FRAME_LEN then Err(FrameTooLarge(length))
      else if slow(pos + 4, 2 + length) then Err(ReadTimeout)
      else if |stream| - pos < HEADER_LEN + length then Err(Io)
      else
        var frame :- Decode(stream[pos..pos + HEADER_LEN + length]);
        Ok((frame, pos + HEADER_LEN + length))
  }

  lemma ReadTimedAdvances(stream: seq<byte>, pos: nat, slow: Timing)
    requires pos <= |stream|
    ensures ReadTimed(stream, pos, slow).Ok? ==> pos < ReadTimed(stream, pos, slow).value.1 <= |stream|
  {
  }

  /** The frames the reader's loop takes before a read fails or takes too long. */
  function ReadAllTimed(stream: seq<byte>, pos: nat, slow: Timing): seq<Frame>
    requires pos <= |stream|
    decreases |stream| - pos
  {
    match ReadTimed(stream, pos, slow)
    case Err(_) => []
    case Ok((frame, next)) =>
      ReadTimedAdvances(stream, pos, slow);
      [frame] + ReadAllTimed(stream, next, slow)
  }

  lemma DecodeFaults(buf: seq<byte>)
    ensures Decode(buf) != Err(ReadTimeout)
  {
  }

  /** A read that is in time is the untimed one; one that is not is reported as that and nothing else. */
  lemma TimedRead(stream: seq<byte>, pos: nat, slow: Timing)
    requires pos <= |stream|
    ensures match ReadTimed(stream, pos, slow)
            case Ok((frame, next)) => next <= |stream| && ReadFrame(stream[pos..]) == Ok((frame, stream[next..]))
            case Err(e) => e == ReadTimeout || ReadFrame(stream[pos..]) == Err(e)
    ensures ReadTimed(stream, pos, slow) == Err(ReadTimeout) <==>
            || slow(pos, 4)
            || (&& |stream| - pos >= 4 && Word32(stream[pos..]) <= 65536
                && slow(pos + 4, 2 + Word32(stream[pos..]) as nat))
  {
    hide Word32;
    var ahead := stream[pos..];
    if |ahead| >= 4 {
      var length: nat := Word32(ahead);
      if |ahead| >= HEADER_LEN + length {
        assert ahead[..HEADER_LEN + length] == stream[pos..pos + HEADER_LEN + length];
        assert ahead[HEADER_LEN + length..] == stream[pos + HEADER_LEN + length..];
      }
      if length <= MAX_FRAME_LEN && |ahead| >= HEADER_LEN + length {
        DecodeFaults(ahead[..HEADER_LEN + length]);
      }
    }
  }

  /** Timeouts can only cut the list of frames short: what is read is read right, and in order. */
  lemma {:induction false} TimeoutsOnlyCutShort(stream: seq<byte>, pos: nat, slow: Timing)
    requires pos <= |stream|
    ensures ReadAllTimed(stream, pos, slow) <= ReadAll(stream[pos..]).0
    ensures (forall at, n :: !slow(at, n)) ==> ReadAllTimed(stream, pos, slow) == ReadAll(stream[pos..]).0
    decreases |stream| - pos
  {
    hide ReadTimed, ReadFrame;
    TimedRead(stream, pos, slow);
    if ReadTimed(stream, pos, slow).Ok? {
      ReadTimedAdvances(stream, pos, slow);
      TimeoutsOnlyCutShort(stream, ReadTimed(stream, pos, slow).value.1, slow);
    }
  }

  /** One turn of the reader's loop, with the frames already read in front. */
  lemma ReadAllTimedStep(frames: seq<Frame>, stream: seq<byte>, pos: nat, slow: Timing)
    requires pos <= |stream|
    ensures match ReadTimed(stream, pos, slow)
            case Ok((frame, next)) =>
              && pos < next <= |stream|
              && frames + ReadAllTimed(stream, pos, slow) == frames + [frame] + ReadAllTimed(stream, next, slow)
            case Err(_) => frames + ReadAllTimed(stream, pos, slow) == frames
  {
    hide ReadTimed;
    ReadTimedAdvances(stream, pos, slow);
    if ReadTimed(stream, pos, slow).Ok? {
      var (frame, next) := ReadTimed(stream, pos, slow).value;
      var more := ReadAllTimed(stream, next, slow);
      assert frames + ([frame] + more) == frames + [frame] + more;
    }
  }

  /** The socket's read half: a stream, how far it has been read, and when its bytes come. */
  class FrameReader {
    const stream: seq<byte>
    const slow: Timing
    var pos: nat

    constructor (stream: seq<byte>, slow: Timing)
      ensures this.stream == stream && this.slow == slow && pos == 0
    {
      this.stream := stream;
      this.slow := slow;
      pos := 0;
    }

    method ReadExact(n: nat) returns (r: Result<seq<byte>, FrameError>)
      requires pos <= |stream|
      modifies this
      ensures pos <= |stream|
      ensures if slow(old(pos), n) then r == Err(ReadTimeout)
              else if old(pos) + n <= |stream| then r == Ok(stream[old(pos)..old(pos) + n]) && pos == old(pos) + n
              else r == Err(Io)
    {
      if slow(pos, n) {
        return Err(ReadTimeout);
      }
      if pos + n > |stream| {
        pos := |stream|;
        return Err(Io);
      }
      pos := pos + n;
      return Ok(stream[pos - n..pos]);
    }

    method Read() returns (r: Result<Frame, FrameError>)
      requires pos <= |stream|
      modifies this
      ensures pos <= |stream|
      ensures match ReadTimed(stream, old(pos), slow)
              case Ok((frame, next)) => r == Ok(frame) && pos == next && pos > old(pos)
              case Err(e) => r == Err(e)
    {
      hide Decode, Word32;
      ghost var start := pos;
      var len :- ReadExact(4);
      assert len == stream[start..][..4];
      SameLength(stream[start..], 4);
      var length: nat := Word32(len);
      if length > MAX_FRAME_LEN {
        return Err(FrameTooLarge(length));
      }
      var rest :- ReadExact(2 + length);
      assert len + rest == stream[start..start + HEADER_LEN + length];
      r := Decode(len + rest);
    }

    /** The reader's loop, collecting what it would route. */
    method Drain() returns (frames: seq<Frame>)
      requires pos <= |stream|
      modifies this
      ensures frames == ReadAllTimed(stream, old(pos), slow)
    {
      hide ReadTimed, ReadAllTimed;
      frames := [];
      while true
        invariant pos <= |stream|
        invariant ReadAllTimed(stream, old(pos), slow) == frames + ReadAllTimed(stream, pos, slow)
        decreases |stream| - pos
      {
        ReadAllTimedStep(frames, stream, pos, slow);
        var one := Read();
        match one {
          case Err(_) => return;
          case Ok(frame) => frames := frames + [frame];
        }
      }
    }
  }
}
