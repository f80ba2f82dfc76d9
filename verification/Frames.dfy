/** Opcodes, headers, frames, messages and errors (src/protocol/frame/coding.rs, frame.rs, src/error.rs). */
module Frames {
  import opened Bytes
  import opened Mask
  import opened Utf8

  datatype Role = Server | Client

  datatype Data = Continue | Text | Binary | ReservedData(code: byte)
  datatype Control = Close | Ping | Pong | ReservedControl(code: byte)
  datatype OpCode = DataOp(data: Data) | ControlOp(control: Control) {
    predicate IsReserved() {
      match this
      case DataOp(d) => d.ReservedData?
      case ControlOp(c) => c.ReservedControl?
    }

    function ToByte(): byte {
      match this
      case DataOp(Continue) => 0
      case DataOp(Text) => 1
      case DataOp(Binary) => 2
      case DataOp(ReservedData(i)) => i
      case ControlOp(Close) => 8
      case ControlOp(Ping) => 9
      case ControlOp(Pong) => 10
      case ControlOp(ReservedControl(i)) => i
    }
  }

  function OpCodeFrom(code: byte): OpCode
    requires code < 16
  {
    match code
    case 0 => DataOp(Continue)
    case 1 => DataOp(Text)
    case 2 => DataOp(Binary)
    case 8 => ControlOp(Close)
    case 9 => ControlOp(Ping)
    case 10 => ControlOp(Pong)
    case _ => if code < 8 then DataOp(ReservedData(code)) else ControlOp(ReservedControl(code))
  }

  /** A close code is its number: the source's enumeration converts to and from it without loss. */
  type CloseCode = c: nat | c < 0x1_0000

  const PROTOCOL_VIOLATION: CloseCode := 1002

  /** Neither `Bad`, `Reserved`, `Status`, `Abnormal` nor `Tls`. */
  predicate IsAllowed(c: CloseCode) {
    1000 <= c <= 1003 || 1007 <= c <= 1013 || 3000 <= c <= 4999
  }

  datatype CloseFrame = CloseFrame(code: CloseCode, reason: bytes)

  datatype FrameHeader = FrameHeader(
    isFinal: bool, rsv1: bool, rsv2: bool, rsv3: bool, opcode: OpCode, mask: Option<MaskKey>)
  {
    /** Bytes `Format` writes for a payload of `length` bytes. */
    function Len(length: nat): nat {
      2 + ExtraBytes(length) + if mask.Some? then 4 else 0
    }
  }

  datatype Frame = Frame(header: FrameHeader, payload: bytes) {
    function Len(): nat { header.Len(|payload|) + |payload| }
    predicate IsMasked() { header.mask.Some? }
  }

  function PlainHeader(opcode: OpCode, isFinal: bool): FrameHeader {
    FrameHeader(isFinal, false, false, false, opcode, None)
  }

  function MessageFrame(payload: bytes, data: Data, isFinal: bool): Frame {
    Frame(PlainHeader(DataOp(data), isFinal), payload)
  }

  function PingFrame(payload: bytes): Frame { Frame(PlainHeader(ControlOp(Ping), true), payload) }
  function PongFrame(payload: bytes): Frame { Frame(PlainHeader(ControlOp(Pong), true), payload) }

  function CloseFrameOf(close: Option<CloseFrame>): Frame {
    Frame(PlainHeader(ControlOp(Close), true),
          match close
          case None => []
          case Some(c) => BigEndian(c.code, 2) + c.reason)
  }

  datatype Message =
    | TextMessage(text: bytes)
    | BinaryMessage(data: bytes)
    | PingMessage(data: bytes)
    | PongMessage(data: bytes)
    | CloseMessage(close: Option<CloseFrame>)
    | RawFrame(frame: Frame)

  function DataMessage(d: Data, content: bytes): Message {
    if d.Text? then TextMessage(content) else BinaryMessage(content)
  }

  /** The message a ping or pong is delivered as. */
  function ControlMessage(f: Frame): Message {
    if f.header.opcode == ControlOp(Ping) then PingMessage(f.payload) else PongMessage(f.payload)
  }

  datatype IoKind = WouldBlock | ConnectionReset | OtherIo

  datatype ProtocolError =
    | InvalidOpcode(code: byte)
    | UnmaskedFrameFromClient
    | MaskedFrameFromServer
    | NonZeroReservedBits
    | SendAfterClosing
    | ReceivedAfterClosing
    | ResetWithoutClosingHandshake
    | FragmentedControlFrame
    | ControlFrameTooBig
    | UnknownControlFrameType(code: byte)
    | UnknownDataFrameType(code: byte)
    | UnexpectedContinueFrame
    | ExpectedFragment(data: Data)
    | InvalidCloseSequence
    | Compression

  datatype Error =
    | ConnectionClosed
    | AlreadyClosed
    | Io(kind: IoKind)
    | MessageTooLong(size: nat, maxSize: nat)
    | Protocol(reason: ProtocolError)
    | WriteBufferFull(frame: Frame)
    | InvalidUtf8

  /** `Frame::into_close`. */
  function IntoClose(payload: bytes): Result<Option<CloseFrame>, Error> {
    if |payload| == 0 then Ok(None)
    else if |payload| == 1 then Err(Protocol(InvalidCloseSequence))
    else if FromUtf8(payload[2..]).Valid? then
      Ok(Some(CloseFrame(FromBigEndian(payload[..2]), payload[2..])))
    else Err(InvalidUtf8)
  }

  /** A close frame with any code and a well-formed reason survives the wire. */
  lemma CloseRoundTrip(close: Option<CloseFrame>)
    requires close.Some? ==> WellFormed(close.value.reason)
    ensures IntoClose(CloseFrameOf(close).payload) == Ok(close)
  {
    if close.Some? {
      var code := BigEndian(close.value.code, 2);
      ValidIsWellFormed(close.value.reason);
      assert Power256(2) == 0x1_0000 by { assert Power256(1) == 0x100; }
      BigEndianInverse(close.value.code, 2);
      assert (code + close.value.reason)[2..] == close.value.reason;
      assert (code + close.value.reason)[..2] == code;
    }
  }

  // ----- Big-endian numbers -----

  function Power256(k: nat): (r: nat)
    ensures r > 0
  {
    if k == 0 then 1 else 0x100 * Power256(k - 1)
  }

  function BigEndian(n: nat, k: nat): (b: bytes)
    ensures |b| == k
  {
    if k == 0 then [] else BigEndian(n / 0x100, k - 1) + [n % 0x100]
  }

  function FromBigEndian(b: bytes): (n: nat)
    ensures n < Power256(|b|)
  {
    if b == [] then 0 else 0x100 * FromBigEndian(b[..|b| - 1]) + b[|b| - 1] as int
  }

  lemma {:induction false} BigEndianInverse(n: nat, k: nat)
    requires n < Power256(k)
    ensures FromBigEndian(BigEndian(n, k)) == n
  {
    if k > 0 {
      BigEndianInverse(n / 0x100, k - 1);
      assert BigEndian(n, k)[..k - 1] == BigEndian(n / 0x100, k - 1);
    }
  }

  lemma {:induction false} FromBigEndianInverse(b: bytes)
    ensures BigEndian(FromBigEndian(b), |b|) == b
  {
    if b != [] {
      FromBigEndianInverse(b[..|b| - 1]);
      var x: nat := FromBigEndian(b[..|b| - 1]);
      assert (0x100 * x + b[|b| - 1] as int) / 0x100 == x;
    }
  }

  // ----- The header on the wire: section 5.2 of RFC 6455 -----

  const U64_LIMIT: nat := 0x1_0000_0000_0000_0000

  lemma PowerLimits()
    ensures Power256(2) == 0x1_0000 && Power256(8) == U64_LIMIT
  {
    assert Power256(2) == 0x1_0000 by { assert Power256(1) == 0x100; }
    assert Power256(4) == 0x1_0000_0000 by { assert Power256(3) == 0x100_0000; }
    assert Power256(6) == 0x1_0000_0000_0000 by { assert Power256(5) == 0x100_0000_0000; }
    assert Power256(8) == U64_LIMIT by { assert Power256(7) == 0x100_0000_0000_0000; }
  }

  function ExtraBytes(length: nat): nat {
    if length < 126 then 0 else if length < 65536 then 2 else 8
  }

  function LengthByte(length: nat): byte {
    if length < 126 then length else if length < 65536 then 126 else 127
  }

  function ExtraBytesFor(lengthByte: byte): nat {
    if lengthByte % 0x80 == 126 then 2 else if lengthByte % 0x80 == 127 then 8 else 0
  }

  /** `code | bit` when `on`, for a `bit` that is a power of two. */
  function WithBit(code: byte, bit: byte, on: bool): byte
    requires bit == 0x80 || bit == 0x40 || bit == 0x20 || bit == 0x10
  {
    if on && code / bit % 2 == 0 then code + bit else code
  }

  predicate HasBit(code: byte, bit: byte)
    requires bit > 0
  {
    code / bit % 2 == 1
  }

  function FirstByte(h: FrameHeader): byte {
    WithBit(WithBit(WithBit(WithBit(h.opcode.ToByte(), 0x80, h.isFinal), 0x40, h.rsv1), 0x20, h.rsv2), 0x10, h.rsv3)
  }

  function Format(h: FrameHeader, length: nat): bytes {
    [FirstByte(h), WithBit(LengthByte(length), 0x80, h.mask.Some?)]
    + BigEndian(length, ExtraBytes(length))
    + match h.mask { case Some(m) => m case None => [] }
  }

  datatype HeaderParse =
    | Short
    | BadOpcode(code: byte)
    | Parsed(header: FrameHeader, length: nat, consumed: nat)

  /** `FrameHeader::parse` on the bytes in front of the cursor. */
  function ParseHeader(s: bytes): (r: HeaderParse)
    ensures r.Parsed? ==> 2 <= r.consumed <= |s| && r.consumed <= 14 && r.length < U64_LIMIT
  {
    if |s| < 2 then Short
    else
      var extra := ExtraBytesFor(s[1]);
      if |s| < 2 + extra then Short
      else
        var length := if extra > 0 then FromBigEndian(s[2..2 + extra]) else s[1] as int % 0x80;
        PowerLimits();
        var masked := HasBit(s[1], 0x80);
        var consumed := 2 + extra + if masked then 4 else 0;
        if |s| < consumed then Short
        else
          var opcode := OpCodeFrom(s[0] as int % 16);
          if opcode.IsReserved() then BadOpcode(s[0] as int % 16)
          else
            var mask := if masked then Some(s[2 + extra..consumed]) else None;
            Parsed(FrameHeader(HasBit(s[0], 0x80), HasBit(s[0], 0x40), HasBit(s[0], 0x20), HasBit(s[0], 0x10),
                               opcode, mask),
                   length, consumed)
  }

  function Bit(on: bool): nat { if on then 1 else 0 }

  /** The flags above a 4-bit opcode do not disturb it or each other. */
  lemma HighBits(flags: nat, code: nat)
    requires flags < 16 && code < 16
    ensures var b := 16 * flags + code;
            && b % 16 == code && b / 0x80 == flags / 8 && b / 0x40 == flags / 4
            && b / 0x20 == flags / 2 && b / 0x10 == flags
  {
  }

  lemma FlagBits(a: bool, b: bool, c: bool, d: bool)
    ensures var flags := 8 * Bit(a) + 4 * Bit(b) + 2 * Bit(c) + Bit(d);
            && flags / 8 % 2 == Bit(a) && flags / 4 % 2 == Bit(b) && flags / 2 % 2 == Bit(c) && flags % 2 == Bit(d)
  {
  }

  lemma WithBitAdds(code: byte, bit: byte, on: bool)
    requires bit == 0x80 || bit == 0x40 || bit == 0x20 || bit == 0x10
    requires code / bit % 2 == 0
    ensures WithBit(code, bit, on) == code as int + bit as int * Bit(on)
  {
  }

  lemma FirstByteSum(h: FrameHeader)
    requires !h.opcode.IsReserved()
    ensures FirstByte(h) == 16 * (8 * Bit(h.isFinal) + 4 * Bit(h.rsv1) + 2 * Bit(h.rsv2) + Bit(h.rsv3))
                            + h.opcode.ToByte() as int
  {
    var c := h.opcode.ToByte();
    WithBitAdds(c, 0x80, h.isFinal);
    var a := WithBit(c, 0x80, h.isFinal);
    WithBitAdds(a, 0x40, h.rsv1);
    var b := WithBit(a, 0x40, h.rsv1);
    WithBitAdds(b, 0x20, h.rsv2);
    WithBitAdds(WithBit(b, 0x20, h.rsv2), 0x10, h.rsv3);
  }

  lemma FirstByteBits(h: FrameHeader)
    requires !h.opcode.IsReserved()
    ensures FirstByte(h) as int % 16 == h.opcode.ToByte()
    ensures OpCodeFrom(FirstByte(h) as int % 16) == h.opcode
    ensures HasBit(FirstByte(h), 0x80) == h.isFinal && HasBit(FirstByte(h), 0x40) == h.rsv1
    ensures HasBit(FirstByte(h), 0x20) == h.rsv2 && HasBit(FirstByte(h), 0x10) == h.rsv3
  {
    FirstByteSum(h);
    FlagBits(h.isFinal, h.rsv1, h.rsv2, h.rsv3);
    HighBits(8 * Bit(h.isFinal) + 4 * Bit(h.rsv1) + 2 * Bit(h.rsv2) + Bit(h.rsv3), h.opcode.ToByte());
  }

  /**
   * The parser undoes the printer for every header with a known opcode, every mask, every
   * 64-bit length and whatever bytes follow, and consumes exactly the printed bytes.
   */
  lemma ParseUndoesFormat(h: FrameHeader, length: nat, tail: bytes)
    requires !h.opcode.IsReserved() && length < U64_LIMIT
    ensures ParseHeader(Format(h, length) + tail) == Parsed(h, length, h.Len(length))
    ensures |Format(h, length)| == h.Len(length)
  {
    var s := Format(h, length) + tail;
    var extra := ExtraBytes(length);
    FormatLayout(h, length, tail);
    SecondByteBits(length, h.mask.Some?);
    FirstByteBits(h);
    PowerLimits();
    if extra > 0 { BigEndianInverse(length, extra); }
    hide FirstByte, WithBit, HasBit, OpCodeFrom, LengthByte, BigEndian, FromBigEndian, Format;
    assert ExtraBytesFor(s[1]) == extra;
  }

  /** Where the parts of a printed header stand. */
  lemma FormatLayout(h: FrameHeader, length: nat, tail: bytes)
    ensures var s, extra := Format(h, length) + tail, ExtraBytes(length);
            && |Format(h, length)| == h.Len(length) <= |s|
            && s[0] == FirstByte(h) && s[1] == WithBit(LengthByte(length), 0x80, h.mask.Some?)
            && s[2..2 + extra] == BigEndian(length, extra)
            && (h.mask.Some? ==> s[2 + extra..6 + extra] == h.mask.value)
  {
    hide FirstByte, WithBit, BigEndian, LengthByte;
  }

  lemma SecondByteBits(length: nat, masked: bool)
    ensures var b := WithBit(LengthByte(length), 0x80, masked);
            && b as int % 0x80 == LengthByte(length) && HasBit(b, 0x80) == masked
            && ExtraBytesFor(b) == ExtraBytes(length)
  {
  }

  /** More input never changes an answer already given. */
  lemma ParseIsStable(s: bytes, t: bytes)
    ensures !ParseHeader(s).Short? ==> ParseHeader(s + t) == ParseHeader(s)
  {
    if !ParseHeader(s).Short? {
      var extra := ExtraBytesFor(s[1]);
      assert (s + t)[2..2 + extra] == s[2..2 + extra];
      if HasBit(s[1], 0x80) {
        assert (s + t)[2 + extra..6 + extra] == s[2 + extra..6 + extra];
      }
    }
  }

  /** Every strict prefix of a printed header asks for more. */
  lemma StrictPrefixNeedsMore(h: FrameHeader, length: nat, k: nat)
    requires !h.opcode.IsReserved() && length < U64_LIMIT
    requires k < h.Len(length)
    ensures ParseHeader(Format(h, length)[..k]) == Short
  {
    ParseUndoesFormat(h, length, []);
    var f := Format(h, length);
    assert f + [] == f;
    assert f[..k] + f[k..] == f;
    ParseIsStable(f[..k], f[k..]);
  }

  /** The other direction: what the parser reads is what the printer writes, if the length was minimal. */
  lemma FormatUndoesParse(s: bytes)
    requires ParseHeader(s).Parsed?
    ensures var p := ParseHeader(s);
            && !p.header.opcode.IsReserved()
            && (Format(p.header, p.length) == s[..p.consumed] <==> ExtraBytes(p.length) == ExtraBytesFor(s[1]))
  {
    var p := ParseHeader(s);
    var f := Format(p.header, p.length);
    var extra := ExtraBytesFor(s[1]);
    if ExtraBytes(p.length) == extra {
      FirstByteOf(s[0]);
      assert FirstByte(p.header) == FirstByte(p.header.(mask := None));
      if extra > 0 { FromBigEndianInverse(s[2..2 + extra]); }
      hide FromBigEndian, BigEndian, OpCodeFrom, FirstByte, HasBit;
      SecondByteAgain(s[1], p.length);
      SplitHead(s, extra, p.consumed);
    } else {
      assert |f| == 2 + ExtraBytes(p.length) + if p.header.mask.Some? then 4 else 0;
    }
  }

  lemma SecondByteAgain(b: byte, length: nat)
    requires ExtraBytes(length) == ExtraBytesFor(b) && (ExtraBytesFor(b) == 0 ==> length == b as int % 0x80)
    ensures WithBit(LengthByte(length), 0x80, HasBit(b, 0x80)) == b
  {
  }

  lemma SplitHead(s: bytes, extra: nat, n: nat)
    requires 2 + extra <= n <= |s|
    ensures s[..n] == [s[0], s[1]] + s[2..2 + extra] + s[2 + extra..n]
  {
  }

  lemma FirstByteOf(b: byte)
    requires !OpCodeFrom(b as int % 16).IsReserved()
    ensures FirstByte(FrameHeader(HasBit(b, 0x80), HasBit(b, 0x40), HasBit(b, 0x20), HasBit(b, 0x10),
                                  OpCodeFrom(b as int % 16), None)) == b
  {
    var c, flags := b as int % 16, b as int / 16;
    HighBits(flags, c);
    FlagsAgain(flags);
    hide FirstByte, WithBit;
    FirstByteSum(FrameHeader(HasBit(b, 0x80), HasBit(b, 0x40), HasBit(b, 0x20), HasBit(b, 0x10), OpCodeFrom(c), None));
    assert OpCodeFrom(c).ToByte() == c;
  }

  lemma FlagsAgain(flags: nat)
    requires flags < 16
    ensures flags == 8 * Bit(flags / 8 % 2 == 1) + 4 * Bit(flags / 4 % 2 == 1) + 2 * Bit(flags / 2 % 2 == 1)
                     + Bit(flags % 2 == 1)
  {
  }

  // ----- Whole frames -----

  /** The bytes `Frame::format_into_buf` appends. */
  function Encode(f: Frame): bytes {
    Format(f.header, |f.payload|)
    + match f.header.mask { case Some(m) => Masked(f.payload, m) case None => f.payload }
  }

  /** `Frame::len` is exactly what encoding appends. */
  lemma EncodeLength(f: Frame)
    ensures |Encode(f)| == f.Len()
  {
  }

  function EncodeAll(fs: seq<Frame>): bytes {
    if fs == [] then [] else Encode(fs[0]) + EncodeAll(fs[1..])
  }

  lemma {:induction false} EncodeAllAppend(a: seq<Frame>, b: seq<Frame>)
    ensures EncodeAll(a + b) == EncodeAll(a) + EncodeAll(b)
  {
    if a == [] {
      assert a + b == b;
    } else {
      assert (a + b)[1..] == a[1..] + b;
      EncodeAllAppend(a[1..], b);
    }
  }

  /** A cursor over bytes; the parser leaves it where it was unless a header is complete. */
  class Cursor {
    const data: bytes
    var position: nat

    ghost predicate Valid() reads this { position <= |data| }
    ghost function Rest(): bytes reads this requires Valid() { data[position..] }

    constructor (data: bytes)
      ensures Valid() && this.data == data && position == 0
    {
      this.data := data;
      position := 0;
    }

    /** `Read::read` into a buffer of `n` bytes. */
    method Read(n: nat) returns (b: bytes)
      requires Valid()
      modifies this
      ensures Valid() && b == old(Rest())[..Min(n, |old(Rest())|)]
      ensures position == old(position) + |b|
    {
      var k := Min(n, |data| - position);
      b := data[position..position + k];
      position := position + k;
    }

    /** `Read::read_exact`: all `n` bytes, or end of file. */
    method ReadExact(n: nat) returns (r: Option<bytes>)
      requires Valid()
      modifies this
      ensures Valid()
      ensures r.Some? <==> n <= |old(Rest())|
      ensures r.Some? ==> r.value == old(Rest())[..n] && position == old(position) + n
    {
      if n <= |data| - position {
        r := Some(data[position..position + n]);
        position := position + n;
      } else {
        r := None;
        position := |data|;
      }
    }

    method ParseInternal() returns (r: HeaderParse)
      requires Valid()
      modifies this
      ensures Valid()
      ensures r == ParseHeader(old(Rest()))
      ensures r.Parsed? ==> position == old(position) + r.consumed
    {
      var start := position;
      ghost var s := Rest();
      var head := Read(2);
      if |head| != 2 { return Short; }
      var first, second := head[0], head[1];
      assert s[0] == first && s[1] == second;
      var length: nat := second as int % 0x80;
      var extra := ExtraBytesFor(second);
      if extra > 0 {
        ghost var before := position;
        var field := ReadExact(extra);
        if field.None? { return Short; }
        assert field.value == s[2..2 + extra];
        length := FromBigEndian(field.value);
      }
      assert position == start + 2 + extra;
      var mask: Option<MaskKey> := None;
      if HasBit(second, 0x80) {
        var key := Read(4);
        if |key| != 4 { return Short; }
        assert key == s[2 + extra..6 + extra];
        mask := Some(key);
      }
      var opcode := OpCodeFrom(first as int % 16);
      if opcode.IsReserved() { return BadOpcode(first as int % 16); }
      PowerLimits();
      r := Parsed(FrameHeader(HasBit(first, 0x80), HasBit(first, 0x40), HasBit(first, 0x20), HasBit(first, 0x10),
                              opcode, mask),
                  length, position - start);
    }

    method Parse() returns (r: HeaderParse)
      requires Valid()
      modifies this
      ensures Valid()
      ensures r == ParseHeader(old(Rest()))
      ensures r.Parsed? ==> position == old(position) + r.consumed
      ensures r.Short? ==> position == old(position)
    {
      var initial := position;
      r := ParseInternal();
      if r.Short? { position := initial; }
    }
  }
}
