/** Resumable UTF-8 and message assembly (src/utf8.rs, src/protocol/message.rs). */
module Assembly {
  import opened Bytes
  import opened Utf8
  import opened Frames

  // ----- Specification -----

  /**
   * What a collector holds after one more chunk. The state is just the bytes fed so far; a
   * chunk after which no text can be valid is refused, and then only the longest valid prefix
   * is kept.
   */
  function Collect(fed: bytes, tail: bytes): (r: (bool, bytes)) {
    var all := fed + tail;
    if Viable(all) then (true, all) else (false, all[..ValidUpTo(all)])
  }

  /** All chunks in order, then `into_string`; stops at the first refused chunk. */
  function CollectAll(fed: bytes, chunks: seq<bytes>): Option<bytes>
    decreases |chunks|
  {
    if chunks == [] then if FromUtf8(fed).Valid? then Some(fed) else None
    else
      var (ok, held) := Collect(fed, chunks[0]);
      if ok then CollectAll(held, chunks[1..]) else None
  }

  lemma {:induction false} ViablePrefix(s: bytes, t: bytes)
    requires Viable(s + t)
    ensures Viable(s)
  {
    if !Viable(s) { BadStays(s, t); }
  }

  lemma {:induction false} CollectAllConcat(fed: bytes, chunks: seq<bytes>)
    requires Viable(fed)
    ensures var all := fed + Concat(chunks);
            CollectAll(fed, chunks) == if FromUtf8(all).Valid? then Some(all) else None
    decreases |chunks|
  {
    if chunks == [] {
      assert fed + Concat<byte>([]) == fed;
    } else {
      var all := fed + Concat(chunks);
      assert all == (fed + chunks[0]) + Concat(chunks[1..]);
      if Viable(fed + chunks[0]) {
        CollectAllConcat(fed + chunks[0], chunks[1..]);
      } else if FromUtf8(all).Valid? {
        ViablePrefix(fed + chunks[0], Concat(chunks[1..]));
      }
    }
  }

  /**
   * Chunked validation is whole-string validation: for every way of cutting the bytes into
   * chunks, empty ones included, collecting succeeds exactly when the whole is well-formed
   * text, and then yields it unchanged.
   */
  lemma ChunkedUtf8IsWholeUtf8(chunks: seq<bytes>)
    ensures CollectAll([], chunks).Some? <==> WellFormed(Concat(chunks))
    ensures CollectAll([], chunks).Some? ==> CollectAll([], chunks).value == Concat(chunks)
  {
    CollectAllConcat([], chunks);
    assert [] + Concat(chunks) == Concat(chunks);
    ValidIsWellFormed(Concat(chunks));
  }

  /** A chunk is refused exactly when no continuation makes the text so far valid. */
  lemma RefusedAtTheFirstHopelessChunk(fed: bytes, tail: bytes)
    ensures Collect(fed, tail).0 <==> exists t: bytes :: WellFormed(fed + tail + t)
    ensures WellFormed(Collect(fed, tail).1) || Collect(fed, tail).0
  {
    ViableIsExtendable(fed + tail);
    PrefixIsValid(fed + tail);
    ValidIsWellFormed((fed + tail)[..ValidUpTo(fed + tail)]);
  }

  // ----- Incomplete -----

  datatype Decoded =
    | Whole(text: bytes)
    | IncompleteSuffix(validPrefix: bytes, suffix: bytes)
    | InvalidSequence(validPrefix: bytes, invalid: bytes, remaining: bytes)

  function Decode(input: bytes): Decoded {
    match FromUtf8(input)
    case Valid => Whole(input)
    case Invalid(v, None) => IncompleteSuffix(input[..v], input[v..])
    case Invalid(v, Some(n)) => ErrorLengths(input); InvalidSequence(input[..v], input[v..v + n], input[v + n..])
  }

  /** Text, a text and the start of a sequence, or a text and an error: exactly one of the three. */
  lemma DecodeIsTheGrammar(input: bytes)
    ensures Decode(input).Whole? <==> WellFormed(input)
    ensures !Decode(input).InvalidSequence? <==> Extendable(input)
    ensures !Decode(input).Whole? ==> WellFormed(Decode(input).validPrefix)
  {
    ValidIsWellFormed(input);
    ViableIsExtendable(input);
    PrefixIsValid(input);
    ValidIsWellFormed(input[..ValidUpTo(input)]);
  }

  lemma DecodeSplits(input: bytes)
    ensures match Decode(input)
            case Whole(text) => text == input
            case IncompleteSuffix(p, s) => p + s == input && 1 <= |s| <= 3
            case InvalidSequence(p, s, rest) => p + s + rest == input && 1 <= |s| <= 3
  {
    hide FromUtf8;
    if FromUtf8(input).Invalid? { ErrorLengths(input); }
  }

  /** Collecting behind a complete text, by cases of `Decode`. */
  lemma CollectBehindText(text: bytes, input: bytes)
    requires FromUtf8(text).Valid?
    ensures Decode(input).Whole? ==>
              Collect(text, input) == (true, text + Decode(input).text) && FromUtf8(text + Decode(input).text).Valid?
    ensures !Decode(input).Whole? ==> FromUtf8(text + Decode(input).validPrefix).Valid?
    ensures Decode(input).IncompleteSuffix? ==>
              && Collect(text, input) == (true, text + Decode(input).validPrefix + Decode(input).suffix)
              && IsPending(Decode(input).suffix)
    ensures Decode(input).InvalidSequence? ==>
              Collect(text, input) == (false, text + Decode(input).validPrefix)
  {
    hide FromUtf8, Scan;
    if FromUtf8(input).Valid? {
      CheckAfterValid(text, input);
    } else {
      CollectInvalid(text, input);
      PrefixIsText(text, input);
      if FromUtf8(input).errorLen.None? { SuffixIsPending(input); }
    }
  }

  lemma PrefixIsText(text: bytes, input: bytes)
    requires FromUtf8(text).Valid?
    ensures FromUtf8(text + input[..ValidUpTo(input)]).Valid?
  {
    PrefixIsValid(input);
    CheckAfterValid(text, input[..ValidUpTo(input)]);
  }

  lemma CollectInvalid(text: bytes, input: bytes)
    requires FromUtf8(text).Valid? && FromUtf8(input).Invalid?
    ensures var v := ValidUpTo(input);
            Collect(text, input) == if FromUtf8(input).errorLen.None? then (true, text + input[..v] + input[v..])
                                    else (false, text + input[..v])
  {
    hide FromUtf8;
    CheckAfterValid(text, input);
    var v := ValidUpTo(input);
    assert (text + input)[..|text| + v] == text + input[..v];
    assert text + input == text + input[..v] + input[v..];
  }

  /** A carry that turns out bad is dropped with the rest of the chunk. */
  lemma CollectBadCarry(text: bytes, carry: bytes, input: bytes, n: nat)
    requires FromUtf8(text).Valid? && FromUtf8(carry + input) == Invalid(0, Some(n))
    ensures Collect(text + carry, input) == (false, text)
  {
    CheckAfterValid(text, carry + input);
    assert text + carry + input == text + (carry + input);
    assert (text + carry + input)[..|text|] == text;
  }

  lemma CollectPending(text: bytes, carry: bytes, input: bytes)
    requires FromUtf8(text).Valid? && IsPending(carry + input)
    ensures Collect(text + carry, input) == (true, text + (carry + input))
  {
    CheckAfterValid(text, carry + input);
    assert text + carry + input == text + (carry + input);
  }

  predicate IsPending(s: bytes) {
    s != [] && Scan(s).NeedMore?
  }

  datatype Completed = Completed(result: Result<bytes, bytes>, remaining: bytes)

  /** The four-byte carry of a sequence cut by a chunk boundary. */
  class Incomplete {
    const buffer: array<byte>
    var bufferLen: nat

    ghost const Repr: set<object> := {this, buffer}

    ghost predicate Valid() reads this, buffer {
      buffer.Length == 4 && 1 <= bufferLen <= 3 && IsPending(buffer[..bufferLen])
    }

    function Carry(): bytes
      reads this, buffer
      requires bufferLen <= buffer.Length
    {
      buffer[..bufferLen]
    }

    constructor (bytes: bytes)
      requires IsPending(bytes)
      ensures Valid() && fresh(buffer) && Carry() == bytes
    {
      var b := new byte[4](i => 0);
      PendingExtends(bytes, []);
      forall i | 0 <= i < |bytes| { b[i] := bytes[i]; }
      buffer := b;
      bufferLen := |bytes|;
      new;
      assert buffer[..bufferLen] == bytes;
    }

    method TakeBuffer() returns (b: bytes)
      requires bufferLen <= buffer.Length
      modifies this
      ensures b == old(Carry()) && bufferLen == 0
    {
      b := buffer[..bufferLen];
      bufferLen := 0;
    }

    /**
     * Splices input behind the carry and judges the first sequence. The two subtractions are
     * the source's `checked_sub(..).unwrap()`; their results being `nat` is what never failing
     * means.
     */
    method TryCompleteOffsets(input: bytes) returns (consumed: nat, result: Option<bool>)
      requires Valid()
      modifies this, buffer
      ensures buffer.Length == 4 && bufferLen <= 4 && consumed <= |input|
      ensures Carry() == old(Carry()) + input[..consumed]
      ensures result.None? ==> consumed == |input| && Valid()
      ensures result == Some(true) ==> Carry() != [] && FromUtf8(Carry()).Valid?
      ensures result == Some(false) ==> FromUtf8(old(Carry()) + input) == Invalid(0, Some(|Carry()|))
    {
      var initial := bufferLen;
      ghost var carry := Carry();
      var copied := Min(buffer.Length - initial, |input|);
      forall i | 0 <= i < copied { buffer[initial + i] := input[i]; }
      var spliced := buffer[..initial + copied];
      assert spliced == carry + input[..copied];
      PendingExtends(carry, input[..copied]);
      assert input[..copied] + input[copied..] == input;
      assert spliced + input[copied..] == carry + input;
      match FromUtf8(spliced) {
        case Valid =>
          bufferLen := |spliced|;
          assert Carry() == spliced;
          return copied, Some(true);
        case Invalid(validUpTo, errorLen) =>
          if validUpTo > 0 {
            consumed := validUpTo - initial;
            PrefixIsValid(spliced);
            bufferLen := validUpTo;
            assert Carry() == spliced[..validUpTo] == carry + input[..consumed];
            return consumed, Some(true);
          }
          match errorLen {
            case Some(n) =>
              consumed := n - initial;
              bufferLen := n;
              assert Carry() == spliced[..n] == carry + input[..consumed];
              BadStays(spliced, input[copied..]);
              return consumed, Some(false);
            case None =>
              bufferLen := |spliced|;
              assert Carry() == spliced;
              PendingExtends(spliced, []);
              return copied, None;
          }
      }
    }

    method TryComplete(input: bytes) returns (r: Option<Completed>)
      requires Valid()
      modifies this, buffer
      ensures r.None? ==> Valid() && Carry() == old(Carry()) + input
      ensures r.Some? ==>
        match r.value.result
        case Ok(text) => FromUtf8(text).Valid? && text + r.value.remaining == old(Carry()) + input
        case Err(bad) => FromUtf8(old(Carry()) + input) == Invalid(0, Some(|bad|))
                         && bad + r.value.remaining == old(Carry()) + input
    {
      ghost var carry := Carry();
      var consumed, result := TryCompleteOffsets(input);
      assert input == input[..consumed] + input[consumed..];
      if result.None? {
        return None;
      }
      var remaining := input[consumed..];
      var taken := TakeBuffer();
      assert taken + remaining == carry + input;
      return Some(Completed(if result.value then Ok(taken) else Err(taken), remaining));
    }
  }

  // ----- StringCollector -----

  class StringCollector {
    var data: bytes
    var incomplete: Incomplete?

    ghost function Repr(): set<object> reads this {
      {this} + if incomplete != null then incomplete.Repr else {}
    }

    /** The text is valid so far and at most one pending sequence of 1 to 3 bytes is carried. */
    ghost predicate Valid() reads this, if incomplete != null then incomplete.Repr else {} {
      FromUtf8(data).Valid? && (incomplete != null ==> incomplete.Valid())
    }

    ghost function Fed(): bytes
      reads this, if incomplete != null then incomplete.Repr else {}
      requires Valid()
    {
      data + if incomplete != null then incomplete.Carry() else []
    }

    constructor ()
      ensures Valid() && Fed() == [] && incomplete == null
    {
      data := [];
      incomplete := null;
    }

    function Len(): (n: nat)
      reads this, if incomplete != null then incomplete.Repr else {}
      requires Valid()
      ensures n == Min(|Fed()|, USIZE_MAX)
    {
      SaturatingAdd(|data|, if incomplete != null then incomplete.bufferLen else 0)
    }

    /** The part of `extend` behind the carry. */
    method ExtendText(input: bytes) returns (ok: bool)
      requires Valid() && incomplete == null
      modifies this
      ensures Valid() && (incomplete != null ==> fresh(incomplete.Repr))
      ensures (ok, Fed()) == Collect(old(data), input)
    {
      CollectBehindText(data, input);
      if input == [] {
        assert data + [] == data;
        return true;
      }
      match Decode(input) {
        case Whole(text) =>
          data := data + text;
          assert data + [] == data;
          return true;
        case IncompleteSuffix(prefix, suffix) =>
          data := data + prefix;
          incomplete := new Incomplete(suffix);
          return true;
        case InvalidSequence(prefix, _, _) =>
          data := data + prefix;
          assert data + [] == data;
          return false;
      }
    }

    method Extend(tail: bytes) returns (ok: bool)
      requires Valid()
      modifies Repr()
      ensures Valid() && fresh(Repr() - old(Repr()))
      ensures (ok, Fed()) == Collect(old(Fed()), tail)
    {
      var input := tail;
      ghost var all := Fed() + tail;
      assert incomplete == null ==> data + [] == data;
      if incomplete != null {
        var pending := incomplete;
        ghost var carry := pending.Carry();
        incomplete := null;
        var completed := pending.TryComplete(input);
        if completed.None? {
          incomplete := pending;
          CollectPending(data, carry, tail);
          return true;
        }
        input := completed.value.remaining;
        match completed.value.result {
          case Err(bad) =>
            CollectBadCarry(data, carry, tail, |bad|);
            assert data + [] == data;
            return false;
          case Ok(text) =>
            CheckAfterValid(data, text);
            assert data + (carry + tail) == (data + text) + input;
            data := data + text;
        }
      }
      assert data + input == all;
      ok := ExtendText(input);
    }

    /** `into_string`: the text, unless a sequence is still pending. */
    method IntoString() returns (r: Option<bytes>)
      requires Valid()
      ensures r == if FromUtf8(Fed()).Valid? then Some(Fed()) else None
    {
      if incomplete != null {
        PendingIsViable(data, incomplete.Carry());
        return None;
      }
      assert data + [] == data;
      return Some(data);
    }
  }

  lemma PendingIsViable(text: bytes, carry: bytes)
    requires FromUtf8(text).Valid? && IsPending(carry)
    ensures Viable(text + carry) && FromUtf8(text + carry).Invalid?
  {
    CheckAfterValid(text, carry);
  }

  lemma SuffixIsPending(s: bytes)
    requires FromUtf8(s).Invalid? && FromUtf8(s).errorLen.None?
    ensures IsPending(s[ValidUpTo(s)..])
  {
    RestAfterPrefix(s);
  }

  // ----- IncompleteMessage -----

  datatype MessageType = TextType | BinaryType

  /** A message under assembly, as the kind it was opened with and the bytes it holds. */
  datatype Partial = Partial(kind: MessageType, held: bytes)

  /** `IncompleteMessage::extend`: the size is judged before the bytes. */
  function ExtendPartial(p: Partial, tail: bytes, sizeLimit: Option<nat>): (Option<Error>, Partial) {
    var maxSize := Limit(sizeLimit);
    if |p.held| + |tail| > maxSize then
      (Some(MessageTooLong(|p.held| + |tail|, maxSize)), p)
    else if p.kind.BinaryType? then (None, p.(held := p.held + tail))
    else
      var (ok, held) := Collect(p.held, tail);
      (if ok then None else Some(InvalidUtf8), p.(held := held))
  }

  function CompletePartial(p: Partial): Result<Message, Error> {
    if p.kind.BinaryType? then Ok(BinaryMessage(p.held))
    else if FromUtf8(p.held).Valid? then Ok(TextMessage(p.held))
    else Err(InvalidUtf8)
  }

  datatype Collector = TextCollector(text: StringCollector) | BinaryCollector(data: bytes)

  class IncompleteMessage {
    var collector: Collector

    ghost function Repr(): set<object>
      reads this, if collector.TextCollector? then {collector.text} else {}
    {
      {this} + if collector.TextCollector? then collector.text.Repr() else {}
    }

    ghost predicate Valid() reads this, Repr() {
      collector.TextCollector? ==> this !in collector.text.Repr() && collector.text.Valid()
    }

    /** `usize` bounds every buffer the program can hold. */
    ghost predicate Representable() reads this, Repr() requires Valid() {
      |View().held| <= USIZE_MAX
    }

    ghost function View(): Partial
      reads this, Repr()
      requires Valid()
    {
      match collector
      case TextCollector(t) => Partial(TextType, t.Fed())
      case BinaryCollector(b) => Partial(BinaryType, b)
    }

    constructor (kind: MessageType)
      ensures Valid() && fresh(Repr()) && View() == Partial(kind, [])
    {
      if kind.TextType? {
        var t := new StringCollector();
        collector := TextCollector(t);
      } else {
        collector := BinaryCollector([]);
      }
    }

    function Len(): (n: nat)
      reads this, Repr()
      requires Valid() && Representable()
      ensures n == |View().held|
    {
      match collector
      case TextCollector(t) => t.Len()
      case BinaryCollector(b) => |b|
    }

    method Extend(tail: bytes, sizeLimit: Option<nat>) returns (e: Option<Error>)
      requires Valid() && Representable()
      requires sizeLimit.Some? ==> sizeLimit.value <= USIZE_MAX
      modifies Repr()
      ensures Valid() && Representable() && fresh(Repr() - old(Repr()))
      ensures (e, View()) == ExtendPartial(old(View()), tail, sizeLimit)
    {
      var maxSize := Limit(sizeLimit);
      var mySize := Len();
      var portion := |tail|;
      if mySize > maxSize || portion > maxSize - mySize {
        return Some(MessageTooLong(mySize + portion, maxSize));
      }
      match collector {
        case BinaryCollector(b) =>
          collector := BinaryCollector(b + tail);
          return None;
        case TextCollector(t) =>
          var ok := t.Extend(tail);
          return if ok then None else Some(InvalidUtf8);
      }
    }

    method Complete() returns (r: Result<Message, Error>)
      requires Valid()
      ensures r == CompletePartial(View())
    {
      match collector {
        case BinaryCollector(b) => return Ok(BinaryMessage(b));
        case TextCollector(t) =>
          var text := t.IntoString();
          return match text { case Some(s) => Ok(TextMessage(s)) case None => Err(InvalidUtf8) };
      }
    }
  }
}
