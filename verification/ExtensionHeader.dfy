/** Reading and printing `Sec-WebSocket-Extensions` values (src/protocol/deflate/negotiate.rs). */
module ExtensionHeaders {
  import opened Bytes
  import opened Utf8

  const COMMA: byte := 44
  const SEMICOLON: byte := 59
  const EQUALS: byte := 61
  const QUOTE: byte := 34
  const BACKSLASH: byte := 92

  function Octet(c: char): byte { c as int % 0x100 }

  /** ASCII text as bytes. */
  function Ascii(s: string): (b: bytes)
    ensures |b| == |s|
  {
    seq(|s|, i requires 0 <= i < |s| => Octet(s[i]))
  }

  // ----- Splitting outside quotes -----

  datatype Mode = Plain | Quoted | Escaped

  function NextMode(mode: Mode, b: byte): Mode {
    match mode
    case Escaped => Quoted
    case Quoted => if b == BACKSLASH then Escaped else if b == QUOTE then Plain else Quoted
    case Plain => if b == QUOTE then Quoted else Plain
  }

  /** The quoting state after all of `s`. */
  function ModeAfter(mode: Mode, s: bytes): Mode
    decreases |s|
  {
    if s == [] then mode else ModeAfter(NextMode(mode, s[0]), s[1..])
  }

  /** The parts of `value` between unquoted delimiters, the first of them behind `current`. */
  function Split(value: bytes, delimiter: byte, mode: Mode, current: bytes): Option<seq<bytes>>
    decreases |value|
  {
    if value == [] then
      if mode.Plain? then Some([current]) else None
    else if mode.Plain? && value[0] != QUOTE && value[0] == delimiter then
      match Split(value[1..], delimiter, Plain, [])
      case None => None
      case Some(parts) => Some([current] + parts)
    else
      Split(value[1..], delimiter, NextMode(mode, value[0]), current + [value[0]])
  }

  function Join(parts: seq<bytes>, delimiter: byte): bytes
    requires parts != []
  {
    if |parts| == 1 then parts[0] else parts[0] + [delimiter] + Join(parts[1..], delimiter)
  }

  function PrependAll(parts: seq<bytes>, r: Option<seq<bytes>>): Option<seq<bytes>> {
    match r case None => None case Some(more) => Some(parts + more)
  }

  method SplitHeader(value: bytes, delimiter: byte) returns (r: Option<seq<bytes>>)
    ensures r == Split(value, delimiter, Plain, [])
  {
    var parts: seq<bytes> := [];
    var start, quoted, escaped := 0, false, false;
    var index := 0;
    ghost var whole := Split(value, delimiter, Plain, []);
    assert value[0..] == value && value[0..0] == [];
    assert PrependAll([], whole) == whole by { if whole.Some? { assert [] + whole.value == whole.value; } }
    while index < |value|
      invariant 0 <= start <= index <= |value| && (escaped ==> quoted)
      invariant whole == PrependAll(parts,
        Split(value[index..], delimiter, if escaped then Escaped else if quoted then Quoted else Plain,
              value[start..index]))
    {
      var byte := value[index];
      assert value[index..][1..] == value[index + 1..];
      assert value[start..index] + [byte] == value[start..index + 1];
      if quoted {
        if escaped {
          escaped := false;
        } else if byte == BACKSLASH {
          escaped := true;
        } else if byte == QUOTE {
          quoted := false;
        }
      } else if byte == QUOTE {
        quoted := true;
      } else if byte == delimiter {
        ghost var rest := Split(value[index + 1..], delimiter, Plain, []);
        if rest.Some? { Assoc(parts, [value[start..index]], rest.value); }
        parts := parts + [value[start..index]];
        start := index + 1;
        assert value[start..index + 1] == [];
      }
      index := index + 1;
    }
    assert value[index..] == [] && value[start..index] == value[start..];
    if quoted || escaped { return None; }
    parts := parts + [value[start..]];
    return Some(parts);
  }

  /** Splitting fails exactly on an unclosed quotation. */
  lemma {:induction false} SplitsIffClosed(value: bytes, delimiter: byte, mode: Mode, current: bytes)
    ensures Split(value, delimiter, mode, current).Some? <==> ModeAfter(mode, value).Plain?
    ensures Split(value, delimiter, mode, current).Some? ==> Split(value, delimiter, mode, current).value != []
    decreases |value|
  {
    if value != [] {
      if mode.Plain? && value[0] != QUOTE && value[0] == delimiter {
        SplitsIffClosed(value[1..], delimiter, Plain, []);
      } else {
        SplitsIffClosed(value[1..], delimiter, NextMode(mode, value[0]), current + [value[0]]);
      }
    }
  }

  lemma {:induction false} JoinUndoesSplit(value: bytes, delimiter: byte, mode: Mode, current: bytes)
    requires Split(value, delimiter, mode, current).Some?
    ensures var parts := Split(value, delimiter, mode, current).value;
            parts != [] && Join(parts, delimiter) == current + value
    decreases |value|
  {
    if value == [] {
      assert current + value == current;
    } else if mode.Plain? && value[0] != QUOTE && value[0] == delimiter {
      JoinUndoesSplit(value[1..], delimiter, Plain, []);
      var more := Split(value[1..], delimiter, Plain, []).value;
      assert ([current] + more)[1..] == more;
      assert current + [delimiter] + ([] + value[1..]) == current + value;
    } else {
      JoinUndoesSplit(value[1..], delimiter, NextMode(mode, value[0]), current + [value[0]]);
      assert current + [value[0]] + value[1..] == current + value;
    }
  }

  lemma {:induction false} ModeAfterAppend(mode: Mode, a: bytes, b: bytes)
    ensures ModeAfter(mode, a + b) == ModeAfter(ModeAfter(mode, a), b)
    decreases |a|
  {
    if a == [] {
      assert a + b == b;
    } else {
      assert (a + b)[1..] == a[1..] + b;
      ModeAfterAppend(NextMode(mode, a[0]), a[1..], b);
    }
  }

  /** Every part is closed, so it splits again on any delimiter. */
  lemma {:induction false} PartsAreClosed(value: bytes, delimiter: byte, mode: Mode, current: bytes)
    requires Split(value, delimiter, mode, current).Some? && ModeAfter(Plain, current) == mode
    ensures forall p :: p in Split(value, delimiter, mode, current).value ==> ModeAfter(Plain, p).Plain?
    decreases |value|
  {
    if value != [] {
      if mode.Plain? && value[0] != QUOTE && value[0] == delimiter {
        PartsAreClosed(value[1..], delimiter, Plain, []);
      } else {
        ModeAfterAppend(Plain, current, [value[0]]);
        PartsAreClosed(value[1..], delimiter, NextMode(mode, value[0]), current + [value[0]]);
      }
    }
  }

  /** A further text behind a delimiter adds its own parts. */
  lemma {:induction false} SplitBehind(a: bytes, b: bytes, delimiter: byte, mode: Mode, current: bytes)
    requires delimiter != QUOTE && Split(a, delimiter, mode, current).Some?
    ensures Split(a + [delimiter] + b, delimiter, mode, current)
         == PrependAll(Split(a, delimiter, mode, current).value, Split(b, delimiter, Plain, []))
    decreases |a|
  {
    var s := a + [delimiter] + b;
    if a == [] {
      assert s[1..] == b;
    } else {
      assert s[1..] == a[1..] + [delimiter] + b;
      if mode.Plain? && a[0] != QUOTE && a[0] == delimiter {
        SplitBehind(a[1..], b, delimiter, Plain, []);
        var first := Split(a[1..], delimiter, Plain, []).value;
        var more := Split(b, delimiter, Plain, []);
        if more.Some? { Assoc([current], first, more.value); }
      } else {
        SplitBehind(a[1..], b, delimiter, NextMode(mode, a[0]), current + [a[0]]);
      }
    }
  }

  predicate IsPart(p: bytes, delimiter: byte) {
    Split(p, delimiter, Plain, []) == Some([p])
  }

  /** Splitting undoes joining, for parts that are single parts. */
  lemma {:induction false} SplitUndoesJoin(parts: seq<bytes>, delimiter: byte)
    requires delimiter != QUOTE && parts != []
    requires forall p :: p in parts ==> IsPart(p, delimiter)
    ensures Split(Join(parts, delimiter), delimiter, Plain, []) == Some(parts)
    decreases |parts|
  {
    if |parts| > 1 {
      assert IsPart(parts[0], delimiter);
      SplitUndoesJoin(parts[1..], delimiter);
      SplitBehind(parts[0], Join(parts[1..], delimiter), delimiter, Plain, []);
      assert parts == [parts[0]] + parts[1..];
    } else {
      assert IsPart(parts[0], delimiter);
      assert parts == [parts[0]];
    }
  }

  /** Each part of a split is a single part. */
  lemma {:induction false} SplitPartsAreSingle(value: bytes, delimiter: byte, mode: Mode, current: bytes)
    requires Split(value, delimiter, mode, current).Some?
    requires forall t :: Split(current + t, delimiter, Plain, []) == Split(t, delimiter, mode, current)
    ensures forall p :: p in Split(value, delimiter, mode, current).value ==> IsPart(p, delimiter)
    decreases |value|
  {
    if value == [] {
      assert current + [] == current;
      assert Split(current + [], delimiter, Plain, []) == Split([], delimiter, mode, current);
    } else if mode.Plain? && value[0] != QUOTE && value[0] == delimiter {
      assert current + [] == current;
      assert Split(current + [], delimiter, Plain, []) == Split([], delimiter, mode, current);
      forall t ensures Split([] + t, delimiter, Plain, []) == Split(t, delimiter, Plain, []) {
        assert [] + t == t;
      }
      SplitPartsAreSingle(value[1..], delimiter, Plain, []);
    } else {
      var next := current + [value[0]];
      forall t
        ensures Split(next + t, delimiter, Plain, []) == Split(t, delimiter, NextMode(mode, value[0]), next)
      {
        var u := [value[0]] + t;
        assert Split(current + u, delimiter, Plain, []) == Split(u, delimiter, mode, current);
        assert current + u == next + t && u[1..] == t;
      }
      SplitPartsAreSingle(value[1..], delimiter, NextMode(mode, value[0]), next);
    }
  }

  /**
   * The list grammar: a successful split rejoins to the input, splits again to the same parts,
   * and every part splits without error on any other delimiter.
   */
  lemma SplitIsAGrammar(value: bytes, delimiter: byte, other: byte)
    requires Split(value, delimiter, Plain, []).Some?
    ensures var parts := Split(value, delimiter, Plain, []).value;
            && parts != [] && Join(parts, delimiter) == value
            && (forall p :: p in parts ==> IsPart(p, delimiter))
            && (forall p :: p in parts ==> Split(p, other, Plain, []).Some?)
  {
    JoinUndoesSplit(value, delimiter, Plain, []);
    assert [] + value == value;
    PartsAreClosed(value, delimiter, Plain, []);
    forall t ensures Split([] + t, delimiter, Plain, []) == Split(t, delimiter, Plain, []) {
      assert [] + t == t;
    }
    SplitPartsAreSingle(value, delimiter, Plain, []);
    var parts := Split(value, delimiter, Plain, []).value;
    forall p | p in parts ensures Split(p, other, Plain, []).Some? {
      SplitsIffClosed(p, other, Plain, []);
    }
  }

  // ----- Quoted strings -----

  function UnquoteBody(s: bytes): Option<bytes>
    decreases |s|
  {
    if s == [] then None
    else if s[0] == BACKSLASH then
      if |s| == 1 then None else PrependByte(s[1], UnquoteBody(s[2..]))
    else if s[0] == QUOTE then
      if |s| == 1 then Some([]) else None
    else PrependByte(s[0], UnquoteBody(s[1..]))
  }

  function PrependByte(b: byte, r: Option<bytes>): Option<bytes> {
    match r case None => None case Some(t) => Some([b] + t)
  }

  function UnquoteSpec(value: bytes): Option<bytes> {
    if value == [] || value[0] != QUOTE then if QUOTE in value then None else Some(value)
    else UnquoteBody(value[1..])
  }

  function Behind(output: bytes, r: Option<bytes>): Option<bytes> {
    match r case None => None case Some(t) => Some(output + t)
  }

  method Unquote(value: bytes) returns (r: Option<bytes>)
    ensures r == UnquoteSpec(value)
  {
    if value == [] || value[0] != QUOTE {
      return if QUOTE in value then None else Some(value);
    }
    var output: bytes, rest := [], value[1..];
    ghost var whole := UnquoteBody(rest);
    assert whole == Behind([], whole) by { if whole.Some? { assert [] + whole.value == whole.value; } }
    while rest != []
      invariant whole == Behind(output, UnquoteBody(rest))
      decreases |rest|
    {
      var character := rest[0];
      if character == BACKSLASH {
        if |rest| == 1 { return None; }
        BehindByte(output, rest[1], UnquoteBody(rest[2..]));
        output, rest := output + [rest[1]], rest[2..];
      } else if character == QUOTE {
        if |rest| == 1 {
          assert output + [] == output;
          return Some(output);
        }
        return None;
      } else {
        BehindByte(output, character, UnquoteBody(rest[1..]));
        output, rest := output + [character], rest[1..];
      }
    }
    return None;
  }

  lemma BehindByte(output: bytes, b: byte, r: Option<bytes>)
    ensures Behind(output, PrependByte(b, r)) == Behind(output + [b], r)
  {
    if r.Some? { Assoc(output, [b], r.value); }
  }

  /** A quoted form of `s`: quotes and backslashes are escaped, anything else may be. */
  function Escape(s: bytes, also: seq<bool>): bytes
    requires |also| == |s|
  {
    if s == [] then []
    else (if also[0] || s[0] == QUOTE || s[0] == BACKSLASH then [BACKSLASH, s[0]] else [s[0]])
         + Escape(s[1..], also[1..])
  }

  lemma {:induction false} UnquoteBodyUndoesEscape(s: bytes, also: seq<bool>)
    requires |also| == |s|
    ensures UnquoteBody(Escape(s, also) + [QUOTE]) == Some(s)
  {
    var q := Escape(s, also) + [QUOTE];
    if s == [] {
      assert q == [QUOTE];
    } else {
      UnquoteBodyUndoesEscape(s[1..], also[1..]);
      assert [s[0]] + s[1..] == s;
      var rest := Escape(s[1..], also[1..]) + [QUOTE];
      if also[0] || s[0] == QUOTE || s[0] == BACKSLASH {
        assert q == [BACKSLASH, s[0]] + rest;
        assert q[2..] == rest;
      } else {
        assert q == [s[0]] + rest;
        assert q[1..] == rest;
      }
    }
  }

  lemma UnquoteUndoesQuote(s: bytes, also: seq<bool>)
    requires |also| == |s|
    ensures UnquoteSpec([QUOTE] + Escape(s, also) + [QUOTE]) == Some(s)
  {
    var q := [QUOTE] + Escape(s, also) + [QUOTE];
    assert q[1..] == Escape(s, also) + [QUOTE];
    UnquoteBodyUndoesEscape(s, also);
  }

  // ----- Tokens -----

  predicate IsAsciiSpace(b: byte) { b == 32 || b == 9 || b == 10 || b == 12 || b == 13 }

  function TrimAscii(s: bytes): bytes
    decreases |s|
  {
    if s == [] then []
    else if IsAsciiSpace(s[0]) then TrimAscii(s[1..])
    else if IsAsciiSpace(s[|s| - 1]) then TrimAscii(s[..|s| - 1])
    else s
  }

  /** The encodings of the characters with the White_Space property. */
  predicate IsSpaceChar(s: bytes) {
    match |s|
    case 1 => 9 <= s[0] <= 13 || s[0] == 32
    case 2 => s[0] == 0xC2 && (s[1] == 0x85 || s[1] == 0xA0)
    case 3 =>
      || s == [0xE1, 0x9A, 0x80]
      || (s[0] == 0xE2 && s[1] == 0x80 && (0x80 <= s[2] <= 0x8A || s[2] == 0xA8 || s[2] == 0xA9 || s[2] == 0xAF))
      || s == [0xE2, 0x81, 0x9F]
      || s == [0xE3, 0x80, 0x80]
    case _ => false
  }

  /** Bytes of a whitespace character at the front, or at the back; none is 0. */
  function SpaceInFront(s: bytes): (n: nat)
    ensures n <= |s|
  {
    if |s| >= 1 && IsSpaceChar(s[..1]) then 1
    else if |s| >= 2 && IsSpaceChar(s[..2]) then 2
    else if |s| >= 3 && IsSpaceChar(s[..3]) then 3
    else 0
  }

  function SpaceBehind(s: bytes): (n: nat)
    ensures n <= |s|
  {
    if |s| >= 1 && IsSpaceChar(Last(s, 1)) then 1
    else if |s| >= 2 && IsSpaceChar(Last(s, 2)) then 2
    else if |s| >= 3 && IsSpaceChar(Last(s, 3)) then 3
    else 0
  }

  /** `str::trim` on valid UTF-8. */
  function Trim(s: bytes): bytes
    decreases |s|
  {
    if SpaceInFront(s) > 0 then Trim(s[SpaceInFront(s)..])
    else if SpaceBehind(s) > 0 then Trim(s[..|s| - SpaceBehind(s)])
    else s
  }

  function Lower(b: byte): byte { if 65 <= b <= 90 then b + 32 else b }

  predicate EqIgnoreCase(a: bytes, b: bytes) {
    |a| == |b| && forall i :: 0 <= i < |a| ==> Lower(a[i]) == Lower(b[i])
  }

  /** Everything before the first `b`. */
  function Before(s: bytes, b: byte): (r: bytes)
    ensures |r| <= |s| && r == s[..|r|] && b !in r
    ensures |r| < |s| ==> s[|r|] == b
  {
    if s == [] || s[0] == b then [] else [s[0]] + Before(s[1..], b)
  }

  // ----- One extension -----

  datatype ClientWindow = Absent | NoValue | Bits(bits: nat)

  datatype Params = Params(
    serverNoContextTakeover: bool,
    clientNoContextTakeover: bool,
    serverMaxWindowBits: Option<nat>,
    clientMaxWindowBits: ClientWindow)

  const NO_PARAMS := Params(false, false, None, Absent)

  datatype Name = ServerNoContext | ClientNoContext | ServerBits | ClientBits

  datatype Extension = Empty | Deflate(params: Params) | Other | BadExtension

  const NAME: bytes := Ascii("permessage-deflate")

  function NameText(n: Name): bytes {
    match n
    case ServerNoContext => Ascii("server_no_context_takeover")
    case ClientNoContext => Ascii("client_no_context_takeover")
    case ServerBits => Ascii("server_max_window_bits")
    case ClientBits => Ascii("client_max_window_bits")
  }

  function NameOf(s: bytes): Option<Name> {
    if EqIgnoreCase(s, NameText(ServerNoContext)) then Some(ServerNoContext)
    else if EqIgnoreCase(s, NameText(ClientNoContext)) then Some(ClientNoContext)
    else if EqIgnoreCase(s, NameText(ServerBits)) then Some(ServerBits)
    else if EqIgnoreCase(s, NameText(ClientBits)) then Some(ClientBits)
    else None
  }

  predicate IsDigit(b: byte) { 48 <= b <= 57 }

  function DecimalValue(s: bytes): nat
    requires forall b :: b in s ==> IsDigit(b)
  {
    if s == [] then 0
    else
      var last := s[|s| - 1];
      assert IsDigit(last) by { assert last in s; }
      10 * DecimalValue(s[..|s| - 1]) + (last - 48)
  }

  /** A window size of 8 to 15, in plain decimal, perhaps quoted. */
  function ParseBits(value: bytes): (r: Option<nat>)
    ensures r.Some? ==> 8 <= r.value <= 15
  {
    match UnquoteSpec(value)
    case None => None
    case Some(v) =>
      if v == [] || !(forall b :: b in v ==> IsDigit(b)) || (|v| > 1 && v[0] == 48) then None
      else if 8 <= DecimalValue(v) <= 15 then Some(DecimalValue(v))
      else None
  }

  /** Adds one parameter, which must not have been seen before. */
  function AddParam(p: Params, name: Name, value: Option<bytes>): Option<Params> {
    match name
    case ServerNoContext => if value.None? then Some(p.(serverNoContextTakeover := true)) else None
    case ClientNoContext => if value.None? then Some(p.(clientNoContextTakeover := true)) else None
    case ServerBits =>
      if value.None? then None
      else
        (match ParseBits(value.value)
         case None => None
         case Some(bits) => Some(p.(serverMaxWindowBits := Some(bits))))
    case ClientBits =>
      if value.None? then Some(p.(clientMaxWindowBits := NoValue))
      else
        (match ParseBits(value.value)
         case None => None
         case Some(bits) => Some(p.(clientMaxWindowBits := Bits(bits))))
  }

  function ParamName(parameter: bytes): bytes {
    Trim(Before(Trim(parameter), EQUALS))
  }

  function ParamValue(parameter: bytes): Option<bytes> {
    var t := Trim(parameter);
    var name := Before(t, EQUALS);
    if |name| < |t| then Some(Trim(t[|name| + 1..])) else None
  }

  function ParseParams(p: Params, seen: set<Name>, parameters: seq<bytes>): Option<Params>
    decreases |parameters|
  {
    if parameters == [] then Some(p)
    else
      match NameOf(ParamName(parameters[0]))
      case None => None
      case Some(name) =>
        if name in seen then None
        else match AddParam(p, name, ParamValue(parameters[0]))
          case None => None
          case Some(p') => ParseParams(p', seen + {name}, parameters[1..])
  }

  predicate AllText(parts: seq<bytes>) {
    forall p :: p in parts ==> FromUtf8(p).Valid?
  }

  function ParseExtension(extension: bytes): Extension {
    var name := TrimAscii(Before(extension, SEMICOLON));
    if name == [] then if TrimAscii(extension) == [] then Empty else BadExtension
    else if !EqIgnoreCase(name, NAME) then Other
    else ParseDeflate(extension)
  }

  function ParseDeflate(extension: bytes): Extension {
    if !FromUtf8(extension).Valid? then BadExtension
    else match Split(extension, SEMICOLON, Plain, [])
      case None => BadExtension
      case Some(parts) =>
        if !AllText(parts) || parts == [] then BadExtension
        else match ParseParams(NO_PARAMS, {}, parts[1..])
          case None => BadExtension
          case Some(p) => Deflate(p)
  }

  method TakeBits(value: bytes) returns (r: Option<nat>)
    ensures r == ParseBits(value)
  {
    var unquoted := Unquote(value);
    if unquoted.None? { return None; }
    var v := unquoted.value;
    if v == [] || !(forall b :: b in v ==> IsDigit(b)) || (|v| > 1 && v[0] == 48) { return None; }
    var bits := DecimalValue(v);
    return if 8 <= bits <= 15 then Some(bits) else None;
  }

  method TakeParam(p: Params, name: Name, value: Option<bytes>) returns (r: Option<Params>)
    ensures r == AddParam(p, name, value)
  {
    match name {
      case ServerNoContext => return if value.None? then Some(p.(serverNoContextTakeover := true)) else None;
      case ClientNoContext => return if value.None? then Some(p.(clientNoContextTakeover := true)) else None;
      case ServerBits =>
        if value.None? { return None; }
        var bits := TakeBits(value.value);
        return if bits.None? then None else Some(p.(serverMaxWindowBits := bits));
      case ClientBits =>
        if value.None? { return Some(p.(clientMaxWindowBits := NoValue)); }
        var bits := TakeBits(value.value);
        return if bits.None? then None else Some(p.(clientMaxWindowBits := Bits(bits.value)));
    }
  }

  method Parse(extension: bytes) returns (r: Extension)
    ensures r == ParseExtension(extension)
  {
    var name := TrimAscii(Before(extension, SEMICOLON));
    if name == [] {
      return if TrimAscii(extension) == [] then Empty else BadExtension;
    }
    if !EqIgnoreCase(name, NAME) { return Other; }
    if !FromUtf8(extension).Valid? { return BadExtension; }
    var split := SplitHeader(extension, SEMICOLON);
    if split.None? || !AllText(split.value) || split.value == [] { return BadExtension; }
    var parsed, seen: set<Name>, parts := NO_PARAMS, {}, split.value[1..];
    while parts != []
      invariant ParseParams(NO_PARAMS, {}, split.value[1..]) == ParseParams(parsed, seen, parts)
      decreases |parts|
    {
      var parameter := parts[0];
      var known := NameOf(ParamName(parameter));
      if known.None? || known.value in seen { return BadExtension; }
      var next := TakeParam(parsed, known.value, ParamValue(parameter));
      if next.None? { return BadExtension; }
      parsed, seen, parts := next.value, seen + {known.value}, parts[1..];
    }
    return Deflate(parsed);
  }

  // ----- Printing -----

  function Decimal(n: nat): bytes
    requires n < 100
  {
    if n < 10 then [48 + n] else [48 + n / 10, 48 + n % 10]
  }

  function Param(name: Name): bytes { Ascii(" ") + NameText(name) }
  function ParamBits(name: Name, bits: nat): bytes
    requires bits < 100
  {
    Param(name) + [EQUALS] + Decimal(bits)
  }

  function If<T>(on: bool, x: T): seq<T> { if on then [x] else [] }

  predicate Printable(p: Params) {
    && (p.serverMaxWindowBits.Some? ==> 8 <= p.serverMaxWindowBits.value <= 15)
    && (p.clientMaxWindowBits.Bits? ==> 8 <= p.clientMaxWindowBits.bits <= 15)
  }

  function PrintParts(p: Params): seq<bytes>
    requires Printable(p)
  {
    [NAME]
    + If(p.serverNoContextTakeover, Param(ServerNoContext))
    + If(p.clientNoContextTakeover, Param(ClientNoContext))
    + ServerBitsPart(p.serverMaxWindowBits)
    + ClientBitsPart(p.clientMaxWindowBits)
  }

  function Print(p: Params): bytes
    requires Printable(p)
  {
    Join(PrintParts(p), SEMICOLON)
  }

  // ----- The parser recovers what the printer wrote -----

  /** Nothing in `s` means anything to the list grammar. */
  predicate IsClean(s: bytes) {
    forall i :: 0 <= i < |s| ==> s[i] < 128 && s[i] != QUOTE && s[i] != COMMA && s[i] != SEMICOLON
  }

  lemma {:induction false} AsciiIsText(s: bytes)
    requires forall i :: 0 <= i < |s| ==> s[i] < 128
    ensures FromUtf8(s).Valid?
    decreases |s|
  {
    if s != [] { AsciiIsText(s[1..]); }
  }

  lemma {:induction false} CleanIsOnePart(s: bytes, delimiter: byte, current: bytes)
    requires forall i :: 0 <= i < |s| ==> s[i] != QUOTE && s[i] != delimiter
    ensures Split(s, delimiter, Plain, current) == Some([current + s])
    decreases |s|
  {
    if s == [] {
      assert current + s == current;
    } else {
      CleanIsOnePart(s[1..], delimiter, current + [s[0]]);
      assert current + [s[0]] + s[1..] == current + s;
    }
  }

  predicate IsWord(s: string) {
    forall c :: c in s ==> 'a' <= c <= 'z' || c == '_' || c == '-'
  }

  lemma WordShape(s: string)
    requires IsWord(s) && s != ""
    ensures IsClean(Ascii(s)) && IsToken(Ascii(s)) && EQUALS !in Ascii(s)
  {
    forall i | 0 <= i < |s|
      ensures 45 <= Ascii(s)[i] < 128 && Ascii(s)[i] != EQUALS && Ascii(s)[i] != SEMICOLON
    {
      assert s[i] in s;
    }
  }

  /** Begins and ends with a visible ASCII character. */
  predicate IsToken(s: bytes) {
    s != [] && 33 <= s[0] < 128 && 33 <= s[|s| - 1] < 128
  }

  lemma NameShape(n: Name)
    ensures IsClean(NameText(n)) && IsToken(NameText(n)) && EQUALS !in NameText(n)
  {
    match n
    case ServerNoContext => WordShape("server_no_context_takeover");
    case ClientNoContext => WordShape("client_no_context_takeover");
    case ServerBits => WordShape("server_max_window_bits");
    case ClientBits => WordShape("client_max_window_bits");
  }

  lemma ParamShape(n: Name)
    ensures IsClean(Param(n)) && Param(n) == [32] + NameText(n)
  {
    NameShape(n);
    assert Ascii(" ") == [32];
  }

  lemma ExtensionNameShape()
    ensures IsClean(NAME) && IsToken(NAME)
  {
    WordShape("permessage-deflate");
  }

  lemma BitsShape(n: Name, bits: nat)
    requires 8 <= bits <= 15
    ensures IsClean(ParamBits(n, bits))
  {
    ParamShape(n);
  }

  lemma LowerDiffers(a: bytes, b: bytes, i: nat)
    requires i < |a| && i < |b| && Lower(a[i]) != Lower(b[i])
    ensures !EqIgnoreCase(a, b)
  {
  }

  lemma NameIsKnown(n: Name)
    ensures NameOf(NameText(n)) == Some(n)
  {
    var t := NameText(n);
    assert |NameText(ServerNoContext)| == 26 && |NameText(ClientNoContext)| == 26;
    assert |NameText(ServerBits)| == 22 && |NameText(ClientBits)| == 22;
    assert NameText(ServerNoContext)[0] == 115 && NameText(ClientNoContext)[0] == 99;
    assert NameText(ServerBits)[0] == 115 && NameText(ClientBits)[0] == 99;
    assert EqIgnoreCase(t, t);
    if n.ClientNoContext? { LowerDiffers(t, NameText(ServerNoContext), 0); }
    if n.ClientBits? { LowerDiffers(t, NameText(ServerBits), 0); }
  }

  /** A whitespace character neither begins nor ends with a visible ASCII character. */
  lemma SpaceIsInvisible(c: bytes)
    requires c != []
    ensures IsSpaceChar(c) ==> !(33 <= c[0] < 128) && !(33 <= c[|c| - 1] < 128)
  {
  }

  lemma VisibleIsNotSpace(s: bytes)
    requires s != [] && 33 <= s[0] < 128
    ensures SpaceInFront(s) == 0
  {
    hide IsSpaceChar;
    SpaceIsInvisible(s[..1]);
    if |s| >= 2 { SpaceIsInvisible(s[..2]); }
    if |s| >= 3 { SpaceIsInvisible(s[..3]); }
  }

  lemma VisibleEndIsNotSpace(s: bytes)
    requires s != [] && 33 <= s[|s| - 1] < 128
    ensures SpaceBehind(s) == 0
  {
    hide IsSpaceChar, Last;
    forall k | 1 <= k <= |s| ensures !IsSpaceChar(Last(s, k)) { TailIsNotSpace(s, k); }
  }

  lemma TailIsNotSpace(s: bytes, k: nat)
    requires 1 <= k <= |s| && 33 <= s[|s| - 1] < 128
    ensures !IsSpaceChar(Last(s, k))
  {
    hide IsSpaceChar;
    var c := Last(s, k);
    assert |c| == k && c[k - 1] == s[|s| - 1];
    SpaceIsInvisible(c);
  }

  lemma TrimNothing(s: bytes)
    requires IsToken(s)
    ensures Trim(s) == s
  {
    VisibleIsNotSpace(s);
    VisibleEndIsNotSpace(s);
  }

  lemma TrimLeadingSpace(s: bytes)
    requires IsToken(s)
    ensures Trim([32] + s) == s
  {
    assert ([32] + s)[..1] == [32] && ([32] + s)[1..] == s;
    TrimNothing(s);
  }

  lemma {:induction false} BeforeAbsent(s: bytes, b: byte)
    requires b !in s
    ensures Before(s, b) == s
  {
    if s != [] { BeforeAbsent(s[1..], b); }
  }

  lemma {:induction false} BeforeFirst(s: bytes, b: byte, t: bytes)
    requires b !in s
    ensures Before(s + [b] + t, b) == s
  {
    if s != [] {
      BeforeFirst(s[1..], b, t);
      assert (s + [b] + t)[1..] == s[1..] + [b] + t;
    }
  }

  lemma ReadsFlag(n: Name)
    ensures NameOf(ParamName(Param(n))) == Some(n) && ParamValue(Param(n)) == None
  {
    NameShape(n);
    ParamShape(n);
    NameIsKnown(n);
    TrimLeadingSpace(NameText(n));
    BeforeAbsent(NameText(n), EQUALS);
    TrimNothing(NameText(n));
  }

  lemma DecimalOf(a: byte, b: byte)
    requires IsDigit(a) && IsDigit(b)
    ensures DecimalValue([a]) == a - 48
    ensures DecimalValue([a, b]) == 10 * (a - 48) + (b - 48)
  {
    assert [a][..0] == [];
    assert [a, b][..1] == [a];
  }

  lemma DecimalShape(bits: nat)
    requires 8 <= bits <= 15
    ensures IsToken(Decimal(bits)) && ParseBits(Decimal(bits)) == Some(bits)
  {
    var d := Decimal(bits);
    assert forall b :: b in d ==> IsDigit(b);
    assert QUOTE !in d;
    if bits >= 10 { DecimalOf(49, 48 + bits % 10); } else { DecimalOf(48 + bits, 48); }
  }

  lemma ReadsBits(n: Name, bits: nat)
    requires 8 <= bits <= 15
    ensures NameOf(ParamName(ParamBits(n, bits))) == Some(n)
    ensures ParamValue(ParamBits(n, bits)) == Some(Decimal(bits)) && ParseBits(Decimal(bits)) == Some(bits)
  {
    var t, d := NameText(n), Decimal(bits);
    NameShape(n);
    ParamShape(n);
    NameIsKnown(n);
    DecimalShape(bits);
    ReadsAssignment(t, d);
    assert ParamBits(n, bits) == [32] + (t + [EQUALS] + d);
  }

  lemma ReadsAssignment(t: bytes, d: bytes)
    requires IsToken(t) && IsToken(d) && EQUALS !in t
    ensures ParamName([32] + (t + [EQUALS] + d)) == t && ParamValue([32] + (t + [EQUALS] + d)) == Some(d)
  {
    var whole := t + [EQUALS] + d;
    assert whole[|whole| - 1] == d[|d| - 1];
    TrimLeadingSpace(whole);
    BeforeFirst(t, EQUALS, d);
    TrimNothing(t);
    TrimNothing(d);
    assert whole[|t| + 1..] == d;
  }

  lemma ParseOne(p: Params, seen: set<Name>, part: bytes, name: Name, rest: seq<bytes>)
    requires NameOf(ParamName(part)) == Some(name) && name !in seen
    requires AddParam(p, name, ParamValue(part)).Some?
    ensures ParseParams(p, seen, [part] + rest)
         == ParseParams(AddParam(p, name, ParamValue(part)).value, seen + {name}, rest)
  {
    assert ([part] + rest)[1..] == rest;
  }

  /** An optional flag is read where it stands, and its absence leaves the rest as it is. */
  lemma ParseFlag(p: Params, seen: set<Name>, on: bool, name: Name, rest: seq<bytes>)
    requires name !in seen && (name == ServerNoContext || name == ClientNoContext)
    ensures ParseParams(p, seen, If(on, Param(name)) + rest) ==
      if on then ParseParams(AddParam(p, name, None).value, seen + {name}, rest) else ParseParams(p, seen, rest)
  {
    if on {
      ReadsFlag(name);
      ParseOne(p, seen, Param(name), name, rest);
    } else {
      assert If(on, Param(name)) + rest == rest;
    }
  }

  function ServerBitsPart(bits: Option<nat>): seq<bytes>
    requires bits.Some? ==> bits.value < 100
  {
    match bits case Some(b) => [ParamBits(ServerBits, b)] case None => []
  }

  function ClientBitsPart(w: ClientWindow): seq<bytes>
    requires w.Bits? ==> w.bits < 100
  {
    match w
    case Absent => []
    case NoValue => [Param(ClientBits)]
    case Bits(b) => [ParamBits(ClientBits, b)]
  }

  lemma ParseServerBits(p: Params, seen: set<Name>, bits: Option<nat>, rest: seq<bytes>)
    requires ServerBits !in seen && p.serverMaxWindowBits == None
    requires bits.Some? ==> 8 <= bits.value <= 15
    ensures ParseParams(p, seen, ServerBitsPart(bits) + rest) ==
      ParseParams(p.(serverMaxWindowBits := bits), if bits.Some? then seen + {ServerBits} else seen, rest)
  {
    if bits.Some? {
      ReadsBits(ServerBits, bits.value);
      ParseOne(p, seen, ParamBits(ServerBits, bits.value), ServerBits, rest);
    } else {
      assert ServerBitsPart(bits) + rest == rest;
    }
  }

  lemma ParseClientBits(p: Params, seen: set<Name>, w: ClientWindow)
    requires ClientBits !in seen && p.clientMaxWindowBits == Absent
    requires w.Bits? ==> 8 <= w.bits <= 15
    ensures ParseParams(p, seen, ClientBitsPart(w)) == Some(p.(clientMaxWindowBits := w))
  {
    if w.NoValue? {
      ReadsFlag(ClientBits);
      ParseOne(p, seen, Param(ClientBits), ClientBits, []);
      assert ClientBitsPart(w) == [Param(ClientBits)] + [];
    } else if w.Bits? {
      ReadsBits(ClientBits, w.bits);
      ParseOne(p, seen, ParamBits(ClientBits, w.bits), ClientBits, []);
      assert ClientBitsPart(w) == [ParamBits(ClientBits, w.bits)] + [];
    }
  }

  lemma Regroup<T>(x: T, a: seq<T>, b: seq<T>, c: seq<T>, d: seq<T>)
    ensures ([x] + a + b + c + d)[1..] == a + (b + (c + d))
  {
  }

  lemma ParsesWindows(a: bool, b: bool, seen: set<Name>, bits: Option<nat>, w: ClientWindow)
    requires ServerBits !in seen && ClientBits !in seen
    requires (bits.Some? ==> 8 <= bits.value <= 15) && (w.Bits? ==> 8 <= w.bits <= 15)
    ensures ParseParams(Params(a, b, None, Absent), seen, ServerBitsPart(bits) + ClientBitsPart(w))
         == Some(Params(a, b, bits, w))
  {
    ParseServerBits(Params(a, b, None, Absent), seen, bits, ClientBitsPart(w));
    ParseClientBits(Params(a, b, bits, Absent), if bits.Some? then seen + {ServerBits} else seen, w);
  }

  lemma ParsesInOrder(a: bool, b: bool, bits: Option<nat>, w: ClientWindow)
    requires (bits.Some? ==> 8 <= bits.value <= 15) && (w.Bits? ==> 8 <= w.bits <= 15)
    ensures var parts := If(a, Param(ServerNoContext))
                         + (If(b, Param(ClientNoContext)) + (ServerBitsPart(bits) + ClientBitsPart(w)));
            ParseParams(NO_PARAMS, {}, parts) == Some(Params(a, b, bits, w))
  {
    var windows := ServerBitsPart(bits) + ClientBitsPart(w);
    var sa: set<Name> := if a then {ServerNoContext} else {};
    var sb := if b then sa + {ClientNoContext} else sa;
    ParsesWindows(a, b, sb, bits, w);
    ParseFlag(Params(a, false, None, Absent), sa, b, ClientNoContext, windows);
    ParseFlag(NO_PARAMS, {}, a, ServerNoContext, If(b, Param(ClientNoContext)) + windows);
    assert {} + {ServerNoContext} == {ServerNoContext};
  }

  lemma ParsesPrinted(p: Params)
    requires Printable(p)
    ensures ParseParams(NO_PARAMS, {}, PrintParts(p)[1..]) == Some(p)
  {
    ParsesInOrder(p.serverNoContextTakeover, p.clientNoContextTakeover, p.serverMaxWindowBits, p.clientMaxWindowBits);
    Regroup(NAME, If(p.serverNoContextTakeover, Param(ServerNoContext)),
            If(p.clientNoContextTakeover, Param(ClientNoContext)),
            ServerBitsPart(p.serverMaxWindowBits), ClientBitsPart(p.clientMaxWindowBits));
  }

  lemma PartsAreClean(p: Params)
    requires Printable(p)
    ensures forall part :: part in PrintParts(p) ==> IsClean(part)
  {
    hide IsClean, NameText, Param, ParamBits;
    ExtensionNameShape();
    ParamShape(ServerNoContext);
    ParamShape(ClientNoContext);
    ParamShape(ClientBits);
    if p.serverMaxWindowBits.Some? { BitsShape(ServerBits, p.serverMaxWindowBits.value); }
    if p.clientMaxWindowBits.Bits? { BitsShape(ClientBits, p.clientMaxWindowBits.bits); }
  }

  /** No quotation and no further list element. */
  predicate IsElement(s: bytes) {
    forall i :: 0 <= i < |s| ==> s[i] < 128 && s[i] != QUOTE && s[i] != COMMA
  }

  lemma ElementsJoin(a: bytes, b: bytes)
    requires IsElement(a) && IsElement(b)
    ensures IsElement(a + [SEMICOLON] + b)
  {
  }

  lemma {:induction false} JoinedIsElement(parts: seq<bytes>)
    requires parts != [] && forall part :: part in parts ==> IsClean(part)
    ensures IsElement(Join(parts, SEMICOLON))
  {
    assert IsClean(parts[0]);
    if |parts| > 1 {
      JoinedIsElement(parts[1..]);
      ElementsJoin(parts[0], Join(parts[1..], SEMICOLON));
    }
  }

  lemma BeforeJoin(parts: seq<bytes>)
    requires parts != [] && IsClean(parts[0])
    ensures Before(Join(parts, SEMICOLON), SEMICOLON) == parts[0]
  {
    if |parts| == 1 { BeforeAbsent(parts[0], SEMICOLON); }
    else { BeforeFirst(parts[0], SEMICOLON, Join(parts[1..], SEMICOLON)); }
  }

  lemma CleanPartsSplit(parts: seq<bytes>)
    requires parts != [] && forall part :: part in parts ==> IsClean(part)
    ensures Split(Join(parts, SEMICOLON), SEMICOLON, Plain, []) == Some(parts) && AllText(parts)
  {
    forall part | part in parts
      ensures IsPart(part, SEMICOLON) && FromUtf8(part).Valid?
    {
      assert IsClean(part);
      CleanIsOnePart(part, SEMICOLON, []);
      assert [] + part == part;
      AsciiIsText(part);
    }
    SplitUndoesJoin(parts, SEMICOLON);
  }

  lemma ReadsParts(parts: seq<bytes>)
    requires parts != [] && forall part :: part in parts ==> IsClean(part)
    ensures ParseDeflate(Join(parts, SEMICOLON)) ==
      match ParseParams(NO_PARAMS, {}, parts[1..]) case None => BadExtension case Some(p) => Deflate(p)
  {
    JoinedIsElement(parts);
    AsciiIsText(Join(parts, SEMICOLON));
    CleanPartsSplit(parts);
  }

  lemma ReadsName(extension: bytes, name: bytes)
    requires name == NAME && Before(extension, SEMICOLON) == name && IsToken(name)
    ensures ParseExtension(extension) == ParseDeflate(extension)
  {
    assert TrimAscii(name) == name;
    assert EqIgnoreCase(name, name);
  }

  /**
   * Every printed offer or response is a single extension of its list, and parsing it recovers
   * exactly its parameters.
   */
  lemma ParseUndoesPrint(p: Params)
    requires Printable(p)
    ensures Split(Print(p), COMMA, Plain, []) == Some([Print(p)])
    ensures ParseExtension(Print(p)) == Deflate(p)
  {
    var parts := PrintParts(p);
    PartsAreClean(p);
    JoinedIsElement(parts);
    CleanIsOnePart(Print(p), COMMA, []);
    assert [] + Print(p) == Print(p);
    ExtensionNameShape();
    BeforeJoin(parts);
    ReadsName(Print(p), NAME);
    ReadsParts(parts);
    ParsesPrinted(p);
  }
}
