/**
 * The compressed data format, as a byte-aligned rendering of DEFLATE's structure: literals,
 * copies from a sliding window, the empty stored block that a sync flush ends with, and the end
 * of a DEFLATE stream. Distances, lengths and the flush marker are DEFLATE's own.
 */
module Lz {
  import opened Bytes

  datatype Token = Lit(b: byte) | Copy(dist: nat, len: nat)

  predicate IsToken(t: Token) {
    t.Copy? ==> 1 <= t.dist <= 32768 && 3 <= t.len <= 258
  }

  predicate AreTokens(ts: seq<Token>) {
    forall t :: t in ts ==> IsToken(t)
  }

  // ----- Meaning of tokens over a sliding window -----

  /** `len` bytes from `dist` back, one at a time, so a copy may read what it has just written. */
  function CopyOut(hist: bytes, dist: nat, len: nat): (r: bytes)
    requires 1 <= dist <= |hist|
    ensures |r| == len
    decreases len
  {
    if len == 0 then []
    else
      var b := hist[|hist| - dist];
      [b] + CopyOut(hist + [b], dist, len - 1)
  }

  function Resolve(t: Token, hist: bytes): Option<bytes> {
    match t
    case Lit(b) => Some([b])
    case Copy(dist, len) => if 1 <= dist <= |hist| then Some(CopyOut(hist, dist, len)) else None
  }

  function Slide(hist: bytes, out: bytes, size: nat): (r: bytes)
    ensures |r| <= size
  {
    Last(hist + out, size)
  }

  /** What the tokens spell, with at most `size` bytes of history to copy from. */
  function Expand(hist: bytes, size: nat, ts: seq<Token>): Option<bytes>
    decreases |ts|
  {
    if ts == [] then Some([])
    else match Resolve(ts[0], hist)
      case None => None
      case Some(piece) =>
        match Expand(Slide(hist, piece, size), size, ts[1..])
        case None => None
        case Some(rest) => Some(piece + rest)
  }

  lemma SlideTwice(hist: bytes, a: bytes, b: bytes, size: nat)
    ensures Slide(Slide(hist, a, size), b, size) == Slide(hist, a + b, size)
  {
    assert hist + (a + b) == hist + a + b;
  }

  lemma SlideNothing(hist: bytes, size: nat)
    requires |hist| <= size
    ensures Slide(hist, [], size) == hist
  {
    assert hist + [] == hist;
  }

  lemma {:induction false} ExpandAppend(hist: bytes, size: nat, a: seq<Token>, b: seq<Token>, x: bytes)
    requires Expand(hist, size, a) == Some(x) && |hist| <= size
    ensures Expand(hist, size, a + b) ==
      match Expand(Slide(hist, x, size), size, b) { case None => None case Some(y) => Some(x + y) }
    decreases |a|
  {
    if a == [] {
      SlideNothing(hist, size);
      assert a + b == b;
      var r := Expand(hist, size, b);
      if r.Some? { assert [] + r.value == r.value; }
    } else {
      hide Slide, Resolve;
      var piece := Resolve(a[0], hist).value;
      var h := Slide(hist, piece, size);
      var rest := Expand(h, size, a[1..]).value;
      assert (a + b)[1..] == a[1..] + b;
      ExpandAppend(h, size, a[1..], b, rest);
      SlideTwice(hist, piece, rest, size);
      var r := Expand(Slide(hist, x, size), size, b);
      if r.Some? { Assoc(piece, rest, r.value); }
    }
  }

  // ----- A longer history that ends in the encoder's decodes the same -----

  lemma {:induction false} CopySuffix(h: bytes, longer: bytes, dist: nat, len: nat)
    requires IsSuffix(h, longer) && 1 <= dist <= |h|
    ensures CopyOut(h, dist, len) == CopyOut(longer, dist, len)
    decreases len
  {
    if len > 0 {
      var b := h[|h| - dist];
      assert longer[|longer| - dist] == longer[|longer| - |h|..][|h| - dist];
      assert (longer + [b])[|longer| - |h|..] == longer[|longer| - |h|..] + [b];
      CopySuffix(h + [b], longer + [b], dist, len - 1);
    }
  }

  lemma SlideSuffix(h: bytes, longer: bytes, out: bytes, size: nat, wider: nat)
    requires IsSuffix(h, longer) && size <= wider
    ensures IsSuffix(Slide(h, out, size), Slide(longer, out, wider))
  {
    var skip := |longer| - |h|;
    assert (longer + out)[skip..] == h + out;
    var a, b := Slide(h, out, size), Slide(longer, out, wider);
    assert a == (longer + out)[|longer + out| - |a|..];
    assert b == (longer + out)[|longer + out| - |b|..];
    assert b[|b| - |a|..] == a;
  }

  lemma {:induction false} ExpandSuffix(h: bytes, longer: bytes, size: nat, wider: nat, ts: seq<Token>)
    requires IsSuffix(h, longer) && size <= wider
    requires Expand(h, size, ts).Some?
    ensures Expand(longer, wider, ts) == Expand(h, size, ts)
    decreases |ts|
  {
    if ts != [] {
      if ts[0].Copy? { CopySuffix(h, longer, ts[0].dist, ts[0].len); }
      var piece := Resolve(ts[0], h).value;
      SlideSuffix(h, longer, piece, size, wider);
      ExpandSuffix(Slide(h, piece, size), Slide(longer, piece, wider), size, wider, ts[1..]);
    }
  }

  /** Any message can be sent: literals spell it. */
  function Literals(s: bytes): (ts: seq<Token>)
    ensures AreTokens(ts)
  {
    if s == [] then [] else [Lit(s[0])] + Literals(s[1..])
  }

  lemma {:induction false} LiteralsSpell(hist: bytes, size: nat, s: bytes)
    ensures Expand(hist, size, Literals(s)) == Some(s)
    decreases |s|
  {
    if s != [] {
      LiteralsSpell(Slide(hist, [s[0]], size), size, s[1..]);
      assert Literals(s)[1..] == Literals(s[1..]);
      assert [s[0]] + s[1..] == s;
    }
  }

  // ----- Tokens as bytes -----

  /** What a sync flush ends a message with; the last four bytes are not sent (section 7.2.1 of RFC 7692). */
  const MARK: bytes := [0, 0, 0, 0xff, 0xff]
  const TRAILER: bytes := [0, 0, 0xff, 0xff]

  function TokenBytes(t: Token): bytes
    requires IsToken(t)
  {
    match t
    case Lit(b) => [1, b]
    case Copy(dist, len) => [2, (dist - 1) / 0x100, (dist - 1) % 0x100, len - 3]
  }

  function Serialize(ts: seq<Token>): bytes
    requires AreTokens(ts)
  {
    if ts == [] then [] else TokenBytes(ts[0]) + Serialize(ts[1..])
  }

  lemma {:induction false} SerializeAppend(a: seq<Token>, b: seq<Token>)
    requires AreTokens(a) && AreTokens(b)
    ensures AreTokens(a + b) && Serialize(a + b) == Serialize(a) + Serialize(b)
  {
    if a == [] {
      assert a + b == b;
    } else {
      assert (a + b)[1..] == a[1..] + b;
      SerializeAppend(a[1..], b);
    }
  }

  datatype Lexed = Pending | TokenRead(t: Token) | MarkRead | EndRead | Malformed

  /** Judges the bytes of one element read so far. */
  function Lex(s: bytes): Lexed
    requires s != []
  {
    match s[0]
    case 0 =>
      if s == MARK then MarkRead
      else if |s| < |MARK| && s == MARK[..|s|] then Pending
      else Malformed
    case 1 => if |s| < 2 then Pending else TokenRead(Lit(s[1]))
    case 2 =>
      if |s| < 4 then Pending
      else
        var dist := 1 + 0x100 * (s[1] as int) + s[2] as int;
        if dist <= 32768 then TokenRead(Copy(dist, 3 + s[3] as int)) else Malformed
    case 3 => EndRead
    case _ => Malformed
  }

  /** An inflater between bytes: its window, what it remembers, and an element cut short. */
  datatype Inflater = Inflater(size: nat, hist: bytes, pend: bytes)

  /** The history is within the window, and what is pending is the beginning of an element. */
  predicate IsInflater(d: Inflater) {
    |d.hist| <= d.size && (d.pend == [] || Lex(d.pend).Pending?)
  }

  /** Output so far, and the state after it unless the input was malformed. */
  datatype Fed = Fed(out: bytes, next: Option<Inflater>)

  function FeedByte(d: Inflater, b: byte): Fed {
    var s := d.pend + [b];
    match Lex(s)
    case Pending => Fed([], Some(d.(pend := s)))
    case TokenRead(t) =>
      (match Resolve(t, d.hist)
       case None => Fed([], None)
       case Some(piece) => Fed(piece, Some(Inflater(d.size, Slide(d.hist, piece, d.size), []))))
    case MarkRead => Fed([], Some(d.(pend := [])))
    case EndRead => Fed([], Some(Inflater(d.size, [], [])))
    case Malformed => Fed([], None)
  }

  function Feed(d: Inflater, input: bytes): Fed
    decreases |input|
  {
    if input == [] then Fed([], Some(d))
    else
      var first := FeedByte(d, input[0]);
      if first.next.None? then first
      else
        var rest := Feed(first.next.value, input[1..]);
        Fed(first.out + rest.out, rest.next)
  }

  /** Where the input is cut, even inside an element, does not matter. */
  lemma {:induction false} FeedAppend(d: Inflater, a: bytes, b: bytes)
    ensures Feed(d, a + b) ==
      if Feed(d, a).next.None? then Feed(d, a)
      else var rest := Feed(Feed(d, a).next.value, b); Fed(Feed(d, a).out + rest.out, rest.next)
    decreases |a|
  {
    if a == [] {
      assert a + b == b;
      assert [] + Feed(d, b).out == Feed(d, b).out;
    } else {
      assert (a + b)[1..] == a[1..] + b;
      var first := FeedByte(d, a[0]);
      if first.next.Some? {
        FeedAppend(first.next.value, a[1..], b);
        var mid := Feed(first.next.value, a[1..]);
        if mid.next.Some? {
          var rest := Feed(mid.next.value, b);
          assert first.out + (mid.out + rest.out) == first.out + mid.out + rest.out;
        }
      }
    }
  }

  lemma FeedLast(d: Inflater, b: byte)
    ensures Feed(d, [b]) == FeedByte(d, b)
  {
    var first := FeedByte(d, b);
    if first.next.Some? { assert first.out + Feed(first.next.value, []).out == first.out; }
  }

  /** An element is read when its last byte is, whatever came before being still open. */
  lemma {:induction false} FeedElement(d: Inflater, s: bytes, b: byte)
    requires forall k :: 1 <= k <= |s| ==> Lex(d.pend + s[..k]).Pending?
    ensures Feed(d, s + [b]) == FeedByte(d.(pend := d.pend + s), b)
    decreases |s|
  {
    if s == [] {
      assert d.pend + s == d.pend && s + [b] == [b];
      FeedLast(d, b);
    } else {
      hide Lex, Feed, FeedByte;
      OpenBehind(d.pend, s);
      FeedElement(d.(pend := d.pend + [s[0]]), s[1..], b);
      FeedOpenFirst(d, s[0], s[1..] + [b]);
      Rejoin(d.pend, s, [b]);
    }
  }

  lemma OpenBehind(pend: bytes, s: bytes)
    requires s != [] && forall k :: 1 <= k <= |s| ==> Lex(pend + s[..k]).Pending?
    ensures Lex(pend + [s[0]]).Pending?
    ensures forall k :: 1 <= k <= |s[1..]| ==> Lex(pend + [s[0]] + s[1..][..k]).Pending?
  {
    hide Lex;
    assert s[..1] == [s[0]];
    assert Lex(pend + s[..1]).Pending?;
    forall k | 1 <= k <= |s[1..]|
      ensures Lex(pend + [s[0]] + s[1..][..k]).Pending?
    {
      assert pend + [s[0]] + s[1..][..k] == pend + s[..k + 1];
    }
  }

  lemma Rejoin(pend: bytes, s: bytes, t: bytes)
    requires s != []
    ensures pend + [s[0]] + s[1..] == pend + s && s + t == [s[0]] + (s[1..] + t)
  {
  }

  /** A byte that leaves an element open only lengthens what is pending. */
  lemma FeedOpenFirst(d: Inflater, b: byte, rest: bytes)
    requires Lex(d.pend + [b]).Pending?
    ensures Feed(d, [b] + rest) == Feed(d.(pend := d.pend + [b]), rest)
  {
    assert ([b] + rest)[1..] == rest;
    var after := Feed(d.(pend := d.pend + [b]), rest);
    assert [] + after.out == after.out;
  }

  lemma FeedToken(d: Inflater, t: Token)
    requires IsToken(t) && d.pend == [] && Resolve(t, d.hist).Some?
    ensures var piece := Resolve(t, d.hist).value;
            Feed(d, TokenBytes(t)) == Fed(piece, Some(Inflater(d.size, Slide(d.hist, piece, d.size), [])))
  {
    var s := TokenBytes(t);
    var init, b := s[..|s| - 1], s[|s| - 1];
    assert s == init + [b];
    forall k | 1 <= k <= |init| ensures Lex(d.pend + init[..k]).Pending? {
      assert d.pend + init[..k] == init[..k];
    }
    FeedElement(d, init, b);
    hide Feed, Slide, Resolve;
    assert d.pend + init + [b] == s;
    assert Lex(s) == TokenRead(t);
  }

  lemma FeedMark(d: Inflater)
    requires d.pend == []
    ensures Feed(d, MARK) == Fed([], Some(d))
  {
    var init := MARK[..4];
    assert MARK == init + [0xff];
    forall k | 1 <= k <= |init| ensures Lex(d.pend + init[..k]).Pending? {
      assert d.pend + init[..k] == MARK[..k];
    }
    FeedElement(d, init, 0xff);
    assert d.pend + init + [0xff] == MARK;
  }

  /** The inflater computes the meaning of the tokens. */
  lemma {:induction false} FeedTokens(d: Inflater, ts: seq<Token>)
    requires AreTokens(ts) && d.pend == [] && |d.hist| <= d.size
    requires Expand(d.hist, d.size, ts).Some?
    ensures var out := Expand(d.hist, d.size, ts).value;
            Feed(d, Serialize(ts)) == Fed(out, Some(Inflater(d.size, Slide(d.hist, out, d.size), [])))
    decreases |ts|
  {
    if ts == [] {
      SlideNothing(d.hist, d.size);
    } else {
      var piece := Resolve(ts[0], d.hist).value;
      var d1 := Inflater(d.size, Slide(d.hist, piece, d.size), []);
      FeedToken(d, ts[0]);
      FeedTokens(d1, ts[1..]);
      FeedAppend(d, TokenBytes(ts[0]), Serialize(ts[1..]));
      SlideTwice(d.hist, piece, Expand(d1.hist, d.size, ts[1..]).value, d.size);
    }
  }

  // ----- One message -----

  /**
   * `payload` is `message` compressed against `hist`: any tokens that spell it within a window
   * of `size`, a sync flush, and the flush's last four bytes taken off again.
   */
  ghost predicate IsCompressed(hist: bytes, size: nat, message: bytes, payload: bytes) {
    exists ts: seq<Token> ::
      AreTokens(ts) && Expand(hist, size, ts) == Some(message) && payload == Serialize(ts) + [0]
  }

  /**
   * The reader's history only has to end in the writer's, and its window only has to be as
   * wide: then it recovers the message, and its history again ends in the writer's.
   */
  lemma DecodesTheSame(hist: bytes, size: nat, message: bytes, payload: bytes, d: Inflater)
    requires IsCompressed(hist, size, message, payload)
    requires IsSuffix(hist, d.hist) && size <= d.size && |d.hist| <= d.size && d.pend == []
    ensures Feed(d, payload + TRAILER) == Fed(message, Some(Inflater(d.size, Slide(d.hist, message, d.size), [])))
    ensures IsSuffix(Slide(hist, message, size), Slide(d.hist, message, d.size))
  {
    hide Feed, Slide, Serialize, Expand, IsSuffix;
    var ts: seq<Token> :|
      AreTokens(ts) && Expand(hist, size, ts) == Some(message) && payload == Serialize(ts) + [0];
    ExpandSuffix(hist, d.hist, size, d.size, ts);
    FeedTokens(d, ts);
    SlideSuffix(hist, d.hist, message, size, d.size);
    var d1 := Inflater(d.size, Slide(d.hist, message, d.size), []);
    FeedMark(d1);
    FeedAppend(d, Serialize(ts), MARK);
    Assoc(Serialize(ts), [0], TRAILER);
    assert [0] + TRAILER == MARK;
    assert message + [] == message;
  }

  predicate EndsWith(s: bytes, t: bytes) {
    |t| <= |s| && s[|s| - |t|..] == t
  }

  predicate TrailerAt(s: bytes, at: nat) {
    at + 4 <= |s| && s[at] == 0 && s[at + 1] == 0 && s[at + 2] == 0xff && s[at + 3] == 0xff
  }

  lemma SerializedStart(ts: seq<Token>)
    requires AreTokens(ts)
    ensures var s := Serialize(ts) + MARK;
            |s| >= 2 && s[0] <= 2 && (s[0] == 0 ==> s[1] == 0)
  {
  }

  lemma {:induction false} OneTrailer(ts: seq<Token>, at: nat)
    requires AreTokens(ts) && TrailerAt(Serialize(ts) + MARK, at)
    ensures at + 4 == |Serialize(ts) + MARK|
  {
    var s := Serialize(ts) + MARK;
    if ts != [] {
      var n := |TokenBytes(ts[0])|;
      var rest := Serialize(ts[1..]) + MARK;
      assert s == TokenBytes(ts[0]) + rest;
      SerializedStart(ts[1..]);
      if n <= at {
        assert forall i :: n <= i < |s| ==> s[i] == rest[i - n];
        OneTrailer(ts[1..], at - n);
      }
    }
  }

  /** A flush cut short never looks complete: the trailer occurs at the end of the flush only. */
  lemma TrailerOnlyAtTheEnd(ts: seq<Token>, k: nat)
    requires AreTokens(ts) && k <= |Serialize(ts) + MARK|
    requires EndsWith((Serialize(ts) + MARK)[..k], TRAILER)
    ensures k == |Serialize(ts) + MARK|
  {
    var s := Serialize(ts) + MARK;
    var w := s[..k][k - 4..];
    assert w[0] == s[k - 4] && w[1] == s[k - 3] && w[2] == s[k - 2] && w[3] == s[k - 1];
    OneTrailer(ts, k - 4);
  }
}
