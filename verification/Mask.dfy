/** Payload masking (src/protocol/frame/mask.rs; section 5.3 of RFC 6455). */
module Mask {
  import opened Bytes

  type MaskKey = m: bytes | |m| == 4 witness [0, 0, 0, 0]

  /** Exclusive or of the low `n` bits, bit by bit. */
  function XorBits(a: nat, b: nat, n: nat): (r: nat)
    ensures r < Pow2(n)
  {
    if n == 0 then 0 else (a % 2 + b % 2) % 2 + 2 * XorBits(a / 2, b / 2, n - 1)
  }

  function Xor(a: byte, b: byte): byte {
    assert Pow2(8) == 256;
    XorBits(a, b, 8)
  }

  /** The definition in section 5.3 of RFC 6455: octet i is combined with key octet i mod 4. */
  function Masked(s: bytes, mask: MaskKey): (r: bytes)
    ensures |r| == |s|
  {
    seq(|s|, i requires 0 <= i < |s| => Xor(s[i], mask[i % 4]))
  }

  lemma {:induction false} XorBitsTwice(a: nat, b: nat, n: nat)
    requires a < Pow2(n)
    ensures XorBits(XorBits(a, b, n), b, n) == a
  {
    if n > 0 {
      var low, high := (a % 2 + b % 2) % 2, XorBits(a / 2, b / 2, n - 1);
      XorBitsTwice(a / 2, b / 2, n - 1);
      Halves(low, high);
      Parity(a, b);
    }
  }

  lemma Parity(a: nat, b: nat)
    ensures ((a % 2 + b % 2) % 2 + b % 2) % 2 == a % 2
  {
  }

  lemma Halves(low: nat, high: nat)
    requires low < 2
    ensures (low + 2 * high) / 2 == high && (low + 2 * high) % 2 == low
  {
  }

  /** Masking twice restores the payload, so the server recovers what the client sent. */
  lemma MaskedTwice(s: bytes, mask: MaskKey)
    ensures Masked(Masked(s, mask), mask) == s
  {
    forall i | 0 <= i < |s|
      ensures Masked(Masked(s, mask), mask)[i] == s[i]
    {
      assert Pow2(8) == 256;
      XorBitsTwice(s[i], mask[i % 4], 8);
    }
  }

  // ----- Machine words -----

  /** A 32-bit word, as the number whose least significant byte comes first in `b`. */
  function LittleEndian(b: bytes): nat {
    if b == [] then 0 else b[0] as int + 0x100 * LittleEndian(b[1..])
  }

  function LittleEndianBytes(w: nat, n: nat): (b: bytes)
    ensures |b| == n
  {
    if n == 0 then [] else [w % 0x100] + LittleEndianBytes(w / 0x100, n - 1)
  }

  function Reverse(b: MaskKey): MaskKey { [b[3], b[2], b[1], b[0]] }

  function FromNeBytes(b: MaskKey, bigEndian: bool): nat {
    LittleEndian(if bigEndian then Reverse(b) else b)
  }

  function ToNeBytes(w: nat, bigEndian: bool): MaskKey {
    var b: MaskKey := LittleEndianBytes(w, 4);
    if bigEndian then Reverse(b) else b
  }

  function XorWord(a: nat, b: nat): nat { XorBits(a, b, 32) }

  const POW256: seq<nat> := [1, 0x100, 0x1_0000, 0x100_0000, 0x1_0000_0000]

  /** Rotation of a 32-bit word by `count` whole bytes. */
  function RotateRight(w: nat, count: nat): nat
    requires 1 <= count <= 3
  {
    w / POW256[count] + w % POW256[count] * POW256[4 - count]
  }

  function RotateLeft(w: nat, count: nat): nat
    requires 1 <= count <= 3
  {
    RotateRight(w, 4 - count)
  }

  lemma {:induction false} LittleEndianInverse(b: bytes)
    ensures LittleEndianBytes(LittleEndian(b), |b|) == b
  {
    if b != [] {
      LittleEndianInverse(b[1..]);
      var x: nat := LittleEndian(b[1..]);
      assert (b[0] as int + 0x100 * x) % 0x100 == b[0] && (b[0] as int + 0x100 * x) / 0x100 == x;
    }
  }

  function XorBytes(a: bytes, b: bytes): (r: bytes)
    requires |a| == |b|
    ensures |r| == |a|
    ensures forall i :: 0 <= i < |a| ==> r[i] == Xor(a[i], b[i])
  {
    if a == [] then [] else [Xor(a[0], b[0])] + XorBytes(a[1..], b[1..])
  }

  function ShiftLeft(x: nat, k: nat): nat {
    if k == 0 then x else 2 * ShiftLeft(x, k - 1)
  }

  /** XOR works on the low `k` bits and on the bits above them independently. */
  lemma {:induction false} XorSplits(x: nat, y: nat, a: nat, b: nat, n: nat, k: nat)
    requires a < Pow2(k) && b < Pow2(k)
    ensures XorBits(ShiftLeft(x, k) + a, ShiftLeft(y, k) + b, n + k)
         == ShiftLeft(XorBits(x, y, n), k) + XorBits(a, b, k)
  {
    if k == 0 {
      assert XorBits(a, b, 0) == 0;
      hide XorBits;
    } else {
      hide XorBits;
      XorSplits(x, y, Half(a), Half(b), n, k - 1);
      XorStep(ShiftLeft(x, k - 1), ShiftLeft(y, k - 1), a, b, n, k);
    }
  }

  lemma XorStep(x: nat, y: nat, a: nat, b: nat, n: nat, k: nat)
    requires k > 0
    ensures XorBits(2 * x + a, 2 * y + b, n + k) - XorBits(a, b, k)
         == 2 * (XorBits(x + Half(a), y + Half(b), n + (k - 1)) - XorBits(Half(a), Half(b), k - 1))
  {
    hide XorBits, Half, LowBit;
    XorLowest(x, y, a, b, n + k);
    XorLowest(0, 0, a, b, k);
  }

  lemma ShiftByByte(x: nat)
    ensures ShiftLeft(x, 8) == 0x100 * x
  {
    assert ShiftLeft(x, 2) == 4 * x by { assert ShiftLeft(x, 1) == 2 * x; }
    assert ShiftLeft(x, 5) == 32 * x by { assert ShiftLeft(x, 4) == 16 * x by { assert ShiftLeft(x, 3) == 8 * x; } }
    assert ShiftLeft(x, 7) == 128 * x by { assert ShiftLeft(x, 6) == 64 * x; }
  }

  function Half(a: nat): nat { a / 2 }
  function LowBit(a: nat, b: nat): nat { (a % 2 + b % 2) % 2 }

  /** The lowest bit is combined by itself. */
  lemma XorLowest(x: nat, y: nat, a: nat, b: nat, n: nat)
    requires n > 0
    ensures XorBits(2 * x + a, 2 * y + b, n) == LowBit(a, b) + 2 * XorBits(x + Half(a), y + Half(b), n - 1)
  {
    assert (2 * x + a) / 2 == x + a / 2 && (2 * x + a) % 2 == a % 2;
    assert (2 * y + b) / 2 == y + b / 2 && (2 * y + b) % 2 == b % 2;
  }

  /** XOR of two words is XOR of their bytes, whatever the width. */
  lemma {:induction false} XorIsBytewise(a: bytes, b: bytes)
    requires |a| == |b|
    ensures XorBits(LittleEndian(a), LittleEndian(b), 8 * |a|) == LittleEndian(XorBytes(a, b))
  {
    if a != [] {
      assert Pow2(8) == 0x100;
      XorSplits(LittleEndian(a[1..]), LittleEndian(b[1..]), a[0], b[0], 8 * |a[1..]|, 8);
      XorIsBytewise(a[1..], b[1..]);
      hide XorBits, ShiftLeft;
      ShiftByByte(LittleEndian(a[1..]));
      ShiftByByte(LittleEndian(b[1..]));
      ShiftByByte(LittleEndian(XorBytes(a[1..], b[1..])));
      assert XorBytes(a, b)[1..] == XorBytes(a[1..], b[1..]);
    }
  }

  /** One word of the fast loop masks four bytes, in either byte order. */
  lemma XorWordIsByteXor(a: MaskKey, b: MaskKey, bigEndian: bool)
    ensures ToNeBytes(XorWord(FromNeBytes(a, bigEndian), FromNeBytes(b, bigEndian)), bigEndian) == XorBytes(a, b)
  {
    var x, y := if bigEndian then Reverse(a) else a, if bigEndian then Reverse(b) else b;
    XorIsBytewise(x, y);
    LittleEndianInverse(XorBytes(x, y));
  }

  lemma {:induction false} LittleEndianSplits(a: bytes, b: bytes)
    requires |a| <= 4
    ensures LittleEndian(a) < POW256[|a|]
    ensures LittleEndian(a + b) == LittleEndian(a) + POW256[|a|] * LittleEndian(b)
  {
    if a == [] {
      assert a + b == b;
    } else {
      assert (a + b)[1..] == a[1..] + b;
      LittleEndianSplits(a[1..], b);
    }
  }

  /** Rotating the number rotates its bytes. */
  lemma RotateRightBytes(b: MaskKey, count: nat)
    requires 1 <= count <= 3
    ensures RotateRight(LittleEndian(b), count) == LittleEndian(b[count..] + b[..count])
  {
    hide LittleEndian;
    var low, high := LittleEndian(b[..count]), LittleEndian(b[count..]);
    assert b == b[..count] + b[count..];
    LittleEndianSplits(b[..count], b[count..]);
    LittleEndianSplits(b[count..], b[..count]);
    assert |b[count..]| == 4 - count;
    SplitNumber(low, high, count);
  }

  lemma SplitNumber(low: nat, high: nat, count: nat)
    requires 1 <= count <= 3 && low < POW256[count]
    ensures (low + POW256[count] * high) % POW256[count] == low
    ensures (low + POW256[count] * high) / POW256[count] == high
  {
    match count
    case 1 =>
    case 2 =>
    case _ =>
  }

  /** The key as seen from an offset of `head` bytes. */
  function Rotated(mask: MaskKey, head: nat): MaskKey
    requires head <= 3
  {
    mask[head..] + mask[..head]
  }

  function RotatedWord(mask: MaskKey, head: nat, bigEndian: bool): nat
    requires head <= 3
  {
    var w := FromNeBytes(mask, bigEndian);
    if head > 0 then if bigEndian then RotateLeft(w, head) else RotateRight(w, head) else w
  }

  lemma RotationRealignsTheKey(mask: MaskKey, head: nat, bigEndian: bool)
    requires head <= 3
    ensures RotatedWord(mask, head, bigEndian) == FromNeBytes(Rotated(mask, head), bigEndian)
  {
    if head > 0 {
      if bigEndian {
        var r := Reverse(mask);
        RotateRightBytes(r, 4 - head);
        assert r[4 - head..] + r[..4 - head] == Reverse(Rotated(mask, head));
      } else {
        RotateRightBytes(mask, head);
      }
    } else {
      assert Rotated(mask, head) == mask;
    }
  }

  // ----- The two loops -----

  /** `now` is `was` with `[lo..hi)` masked, the key starting at `lo`, and nothing else touched. */
  ghost predicate MaskedRange(was: bytes, now: bytes, lo: nat, hi: nat, key: MaskKey) {
    && |was| == |now|
    && forall k :: 0 <= k < |now| ==>
         now[k] == if lo <= k < hi then Xor(was[k], key[(k - lo) % 4]) else was[k]
  }

  method ApplyMaskFallback(buf: array<byte>, lo: nat, hi: nat, mask: MaskKey)
    requires lo <= hi <= buf.Length
    modifies buf
    ensures MaskedRange(old(buf[..]), buf[..], lo, hi, mask)
  {
    var i := lo;
    while i < hi
      invariant lo <= i <= hi
      invariant MaskedRange(old(buf[..]), buf[..], lo, i, mask)
    {
      buf[i] := Xor(buf[i], mask[(i - lo) % 4]);
      i := i + 1;
    }
  }

  method ApplyMaskWord(buf: array<byte>, at: nat, ghost key: MaskKey, maskWord: nat, bigEndian: bool)
    requires at + 4 <= buf.Length
    requires maskWord == FromNeBytes(key, bigEndian)
    modifies buf
    ensures MaskedRange(old(buf[..]), buf[..], at, at + 4, key)
  {
    var b: MaskKey := [buf[at], buf[at + 1], buf[at + 2], buf[at + 3]];
    XorWordIsByteXor(b, key, bigEndian);
    var out := ToNeBytes(XorWord(FromNeBytes(b, bigEndian), maskWord), bigEndian);
    buf[at], buf[at + 1], buf[at + 2], buf[at + 3] := out[0], out[1], out[2], out[3];
  }

  /** Two adjacent masked ranges are one, when the second key is the first seen from its offset. */
  lemma RangesJoin(was: bytes, mid: bytes, now: bytes, lo: nat, at: nat, hi: nat, key: MaskKey, next: MaskKey)
    requires lo <= at <= hi
    requires MaskedRange(was, mid, lo, at, key) && MaskedRange(mid, now, at, hi, next)
    requires next == Rotated(key, (at - lo) % 4)
    ensures MaskedRange(was, now, lo, hi, key)
  {
    forall k | 0 <= k < |now| && at <= k < hi
      ensures now[k] == Xor(was[k], key[(k - lo) % 4])
    {
      RotatedAt(key, at - lo, k - at);
    }
  }

  lemma RotatedAt(key: MaskKey, offset: nat, i: nat)
    ensures Rotated(key, offset % 4)[i % 4] == key[(offset + i) % 4]
  {
    var o, r := offset % 4, i % 4;
    assert (offset + i) % 4 == (o + r) % 4;
  }

  /** The loop over the aligned words that start at `start`. */
  method ApplyMaskWords(buf: array<byte>, start: nat, words: nat, ghost key: MaskKey, maskWord: nat, bigEndian: bool)
    requires start + 4 * words <= buf.Length
    requires maskWord == FromNeBytes(key, bigEndian)
    modifies buf
    ensures MaskedRange(old(buf[..]), buf[..], start, start + 4 * words, key)
  {
    var w := 0;
    while w < words
      invariant 0 <= w <= words
      invariant MaskedRange(old(buf[..]), buf[..], start, start + 4 * w, key)
    {
      ghost var mid := buf[..];
      ApplyMaskWord(buf, start + 4 * w, key, maskWord, bigEndian);
      assert Rotated(key, (4 * w) % 4) == key;
      RangesJoin(old(buf[..]), mid, buf[..], start, start + 4 * w, start + 4 * w + 4, key, key);
      w := w + 1;
    }
  }

  lemma SuffixKey(key: MaskKey, bigEndian: bool)
    ensures ToNeBytes(FromNeBytes(key, bigEndian), bigEndian) == key
  {
    LittleEndianInverse(if bigEndian then Reverse(key) else key);
  }

  /**
   * `prefix` bytes, then `words` aligned words, then the rest: `align_to` may choose any
   * such split of `buf[lo..hi]`.
   */
  method ApplyMaskFast32(buf: array<byte>, lo: nat, hi: nat, mask: MaskKey,
                         prefix: nat, words: nat, bigEndian: bool)
    requires lo <= hi <= buf.Length && prefix + 4 * words <= hi - lo
    modifies buf
    ensures MaskedRange(old(buf[..]), buf[..], lo, hi, mask)
  {
    ghost var was := buf[..];
    var start, rest := lo + prefix, lo + prefix + 4 * words;
    ApplyMaskFallback(buf, lo, start, mask);
    ghost var afterPrefix := buf[..];
    var maskWord := RotatedWord(mask, prefix % 4, bigEndian);
    ghost var key := Rotated(mask, prefix % 4);
    RotationRealignsTheKey(mask, prefix % 4, bigEndian);
    ApplyMaskWords(buf, start, words, key, maskWord, bigEndian);
    ghost var afterWords := buf[..];
    RangesJoin(was, afterPrefix, afterWords, lo, start, rest, mask, key);
    SuffixKey(key, bigEndian);
    ApplyMaskFallback(buf, rest, hi, ToNeBytes(maskWord, bigEndian));
    assert (rest - lo) % 4 == prefix % 4;
    RangesJoin(was, afterWords, buf[..], lo, rest, hi, mask, key);
  }

  /** `apply_mask` on a whole buffer; where the words lie is the allocator's choice. */
  method ApplyMask(buf: array<byte>, mask: MaskKey)
    modifies buf
    ensures buf[..] == Masked(old(buf[..]), mask)
  {
    assert 0 + 4 * 0 <= buf.Length;
    var prefix: nat, words: nat :| prefix + 4 * words <= buf.Length;
    var bigEndian: bool :| true;
    ApplyMaskFast32(buf, 0, buf.Length, mask, prefix, words, bigEndian);
  }
}
