/** UTF-8 validation and its resumable form (src/utf8.rs). */
module Utf8 {
  import opened Bytes

  // ----- The reference grammar: section 4 of RFC 3629 -----

  predicate IsTail(b: byte) { 0x80 <= b <= 0xBF }

  /** `s` is exactly one UTF8-char of the grammar. */
  predicate IsChar(s: bytes) {
    match |s|
    case 1 => s[0] <= 0x7F
    case 2 => 0xC2 <= s[0] <= 0xDF && IsTail(s[1])
    case 3 =>
      && (|| (s[0] == 0xE0 && 0xA0 <= s[1] <= 0xBF)
          || (0xE1 <= s[0] <= 0xEC && IsTail(s[1]))
          || (s[0] == 0xED && 0x80 <= s[1] <= 0x9F)
          || (0xEE <= s[0] <= 0xEF && IsTail(s[1])))
      && IsTail(s[2])
    case 4 =>
      && (|| (s[0] == 0xF0 && 0x90 <= s[1] <= 0xBF)
          || (0xF1 <= s[0] <= 0xF3 && IsTail(s[1]))
          || (s[0] == 0xF4 && 0x80 <= s[1] <= 0x8F))
      && IsTail(s[2]) && IsTail(s[3])
    case _ => false
  }

  /** `s` is a concatenation of characters. */
  ghost predicate WellFormed(s: bytes)
    decreases |s|
  {
    s == [] || exists n: nat :: 1 <= n <= |s| && IsChar(s[..n]) && WellFormed(s[n..])
  }

  /** Some continuation completes `s`: no byte read so far is an error yet. */
  ghost predicate Extendable(s: bytes) {
    exists t: bytes :: WellFormed(s + t)
  }

  // ----- What `str::from_utf8` computes -----

  datatype Scanned = Char(width: nat) | Bad(length: nat) | NeedMore

  /** One step of validation: the sequence that starts at `s[0]`, judged left to right. */
  function Scan(s: bytes): Scanned
    requires s != []
  {
    var first := s[0];
    if first <= 0x7F then Char(1)
    else if 0xC2 <= first <= 0xDF then
      if |s| < 2 then NeedMore
      else if !IsTail(s[1]) then Bad(1)
      else Char(2)
    else if 0xE0 <= first <= 0xEF then
      if |s| < 2 then NeedMore
      else if !SecondOfThree(first, s[1]) then Bad(1)
      else if |s| < 3 then NeedMore
      else if !IsTail(s[2]) then Bad(2)
      else Char(3)
    else if 0xF0 <= first <= 0xF4 then
      if |s| < 2 then NeedMore
      else if !SecondOfFour(first, s[1]) then Bad(1)
      else if |s| < 3 then NeedMore
      else if !IsTail(s[2]) then Bad(2)
      else if |s| < 4 then NeedMore
      else if !IsTail(s[3]) then Bad(3)
      else Char(4)
    else Bad(1)
  }

  predicate SecondOfThree(first: byte, second: byte) {
    if first == 0xE0 then 0xA0 <= second <= 0xBF
    else if first == 0xED then 0x80 <= second <= 0x9F
    else IsTail(second)
  }

  predicate SecondOfFour(first: byte, second: byte) {
    if first == 0xF0 then 0x90 <= second <= 0xBF
    else if first == 0xF4 then 0x80 <= second <= 0x8F
    else IsTail(second)
  }

  datatype Utf8Check = Valid | Invalid(validUpTo: nat, errorLen: Option<nat>) {
    function Shift(n: nat): Utf8Check {
      match this
      case Valid => Valid
      case Invalid(v, e) => Invalid(v + n, e)
    }
  }

  /** `str::from_utf8` with `valid_up_to` and `error_len` of its error. */
  function FromUtf8(s: bytes): (r: Utf8Check)
    ensures r.Invalid? ==> r.validUpTo < |s|
    decreases |s|
  {
    if s == [] then Valid
    else match Scan(s)
      case Char(n) => FromUtf8(s[n..]).Shift(n)
      case Bad(n) => Invalid(0, Some(n))
      case NeedMore => Invalid(0, None)
  }

  /** Length of the longest well-formed prefix. */
  function ValidUpTo(s: bytes): (n: nat)
    ensures n <= |s|
  {
    match FromUtf8(s)
    case Valid => |s|
    case Invalid(v, _) => v
  }

  // ----- FromUtf8 against the grammar -----

  lemma ScanIsChar(s: bytes, n: nat)
    requires 1 <= n <= |s|
    ensures Scan(s) == Char(n) <==> IsChar(s[..n])
  {
  }

  lemma ScanExtends(s: bytes, t: bytes)
    requires s != [] && !Scan(s).NeedMore?
    ensures Scan(s + t) == Scan(s)
  {
  }

  /** A pending sequence is 1 to 3 bytes long and judged only by bytes still to come. */
  lemma PendingExtends(s: bytes, t: bytes)
    requires s != [] && Scan(s).NeedMore?
    ensures |s| <= 3
    ensures Scan(s + t).Char? ==> |s| < Scan(s + t).width <= |s| + |t|
    ensures Scan(s + t).Bad? ==> |s| <= Scan(s + t).length < |s| + |t|
  {
  }

  /** The bytes that complete a pending sequence. */
  function Completion(s: bytes): (t: bytes)
    requires s != [] && Scan(s).NeedMore?
    ensures IsChar(s + t)
  {
    if 0xC2 <= s[0] <= 0xDF then [0x80]
    else if 0xE0 <= s[0] <= 0xEF then
      if |s| == 2 then [0x80] else if s[0] == 0xE0 then [0xA0, 0x80] else [0x80, 0x80]
    else
      if |s| == 3 then [0x80]
      else if |s| == 2 then [0x80, 0x80]
      else if s[0] == 0xF0 then [0x90, 0x80, 0x80] else [0x80, 0x80, 0x80]
  }

  lemma {:induction false} ValidIsWellFormed(s: bytes)
    ensures FromUtf8(s).Valid? <==> WellFormed(s)
    decreases |s|
  {
    if s != [] {
      if Scan(s).Char? {
        var n := Scan(s).width;
        ScanIsChar(s, n);
        ValidIsWellFormed(s[n..]);
      }
      if WellFormed(s) {
        var n: nat :| 1 <= n <= |s| && IsChar(s[..n]) && WellFormed(s[n..]);
        ScanIsChar(s, n);
      }
    }
  }

  /** Validation of a concatenation resumes where a well-formed prefix ends. */
  lemma {:induction false} CheckAfterValid(a: bytes, b: bytes)
    requires FromUtf8(a).Valid?
    ensures FromUtf8(a + b) == FromUtf8(b).Shift(|a|)
    decreases |a|
  {
    if a == [] {
      assert a + b == b;
    } else {
      var n := Scan(a).width;
      ScanExtends(a, b);
      assert (a + b)[n..] == a[n..] + b;
      CheckAfterValid(a[n..], b);
    }
  }

  lemma FirstCharThen(s: bytes, n: nat, v: nat)
    requires 1 <= n <= v <= |s| && Scan(s) == Char(n) && FromUtf8(s[n..][..v - n]).Valid?
    ensures FromUtf8(s[..v]).Valid?
  {
    hide FromUtf8;
    ScanIsChar(s, n);
    CharIsValid(s[..n]);
    CheckAfterValid(s[..n], s[n..][..v - n]);
    assert s[..v] == s[..n] + s[n..][..v - n];
  }

  lemma {:induction false} PrefixIsValid(s: bytes)
    ensures FromUtf8(s[..ValidUpTo(s)]).Valid?
    decreases |s|
  {
    if s != [] && Scan(s).Char? {
      var n := Scan(s).width;
      var v := ValidUpTo(s);
      PrefixIsValid(s[n..]);
      FirstCharThen(s, n, v);
    }
  }

  /** The rest after the longest valid prefix is what stopped validation. */
  lemma RestAfterPrefix(s: bytes)
    requires FromUtf8(s).Invalid?
    ensures var v := ValidUpTo(s);
            FromUtf8(s[v..]) == Invalid(0, FromUtf8(s).errorLen)
  {
    hide FromUtf8;
    var v := ValidUpTo(s);
    PrefixIsValid(s);
    CheckAfterValid(s[..v], s[v..]);
    assert s == s[..v] + s[v..];
  }

  lemma CharIsValid(c: bytes)
    requires IsChar(c)
    ensures FromUtf8(c).Valid?
  {
    ScanIsChar(c, |c|);
    assert c[..|c|] == c;
    assert c[|c|..] == [];
  }

  lemma PendingRest(s: bytes)
    requires FromUtf8(s).Invalid? && FromUtf8(s).errorLen.None?
    ensures Scan(s[ValidUpTo(s)..]).NeedMore?
  {
    RestAfterPrefix(s);
  }

  /** A pending tail can be completed. */
  lemma PendingCompletes(s: bytes)
    requires FromUtf8(s).Invalid? && FromUtf8(s).errorLen.None?
    ensures exists t: bytes :: FromUtf8(s + t).Valid?
  {
    var v := ValidUpTo(s);
    PrefixIsValid(s);
    PendingRest(s);
    hide FromUtf8, Scan, IsChar, Completion;
    var t := Completion(s[v..]);
    CharIsValid(s[v..] + t);
    CheckAfterValid(s[..v], s[v..] + t);
    Assoc(s[..v], s[v..], t);
    assert s[..v] + s[v..] == s;
  }

  /** A bad sequence stays bad whatever follows. */
  lemma BadStays(s: bytes, t: bytes)
    requires FromUtf8(s).Invalid? && FromUtf8(s).errorLen.Some?
    ensures FromUtf8(s + t) == FromUtf8(s)
  {
    hide FromUtf8;
    var v := ValidUpTo(s);
    PrefixIsValid(s);
    RestAfterPrefix(s);
    BadStart(s[v..], t);
    CheckAfterValid(s[..v], s[v..] + t);
    assert s + t == s[..v] + (s[v..] + t);
  }

  lemma BadStart(s: bytes, t: bytes)
    requires FromUtf8(s).Invalid? && FromUtf8(s).errorLen.Some? && FromUtf8(s).validUpTo == 0
    ensures FromUtf8(s + t) == FromUtf8(s)
  {
    ScanExtends(s, t);
  }

  lemma LongestPrefix(s: bytes, k: nat)
    requires ValidUpTo(s) < k <= |s|
    ensures FromUtf8(s[..k]).Invalid?
  {
    assert s == s[..k] + s[k..];
    if FromUtf8(s[..k]).Valid? {
      CheckAfterValid(s[..k], s[k..]);
    }
  }

  lemma {:induction false} ErrorLengths(s: bytes)
    requires FromUtf8(s).Invalid?
    ensures FromUtf8(s).errorLen.None? ==> 1 <= |s| - FromUtf8(s).validUpTo <= 3
    ensures FromUtf8(s).errorLen.Some? ==> 1 <= FromUtf8(s).errorLen.value <= Min(3, |s| - FromUtf8(s).validUpTo)
    decreases |s|
  {
    if Scan(s).Char? { ErrorLengths(s[Scan(s).width..]); }
  }

  predicate Viable(s: bytes) {
    var r := FromUtf8(s);
    r.Valid? || r.errorLen.None?
  }

  lemma ViableIsExtendable(s: bytes)
    ensures Viable(s) <==> Extendable(s)
  {
    if FromUtf8(s).Valid? {
      assert s + [] == s;
      ValidIsWellFormed(s + []);
    } else if Viable(s) {
      PendingCompletes(s);
      var t: bytes :| FromUtf8(s + t).Valid?;
      ValidIsWellFormed(s + t);
    } else {
      forall t: bytes
        ensures !WellFormed(s + t)
      {
        BadStays(s, t);
        ValidIsWellFormed(s + t);
      }
    }
  }

  /**
   * What `from_utf8` promises: success is the grammar, `valid_up_to` is the longest
   * well-formed prefix, and `error_len` is absent exactly when more input could still
   * make the text valid, in which case 1 to 3 bytes are pending.
   */
  lemma FromUtf8IsTheGrammar(s: bytes)
    ensures FromUtf8(s).Valid? <==> WellFormed(s)
    ensures Viable(s) <==> Extendable(s)
    ensures WellFormed(s[..ValidUpTo(s)])
    ensures forall k :: ValidUpTo(s) < k <= |s| ==> !WellFormed(s[..k])
    ensures FromUtf8(s).Invalid? && FromUtf8(s).errorLen.None? ==> 1 <= |s| - ValidUpTo(s) <= 3
    ensures FromUtf8(s).Invalid? && FromUtf8(s).errorLen.Some? ==>
              1 <= FromUtf8(s).errorLen.value <= |s| - ValidUpTo(s)
  {
    ValidIsWellFormed(s);
    ViableIsExtendable(s);
    PrefixIsValid(s);
    ValidIsWellFormed(s[..ValidUpTo(s)]);
    forall k | ValidUpTo(s) < k <= |s|
      ensures !WellFormed(s[..k])
    {
      LongestPrefix(s, k);
      ValidIsWellFormed(s[..k]);
    }
    if FromUtf8(s).Invalid? { ErrorLengths(s); }
  }
}
