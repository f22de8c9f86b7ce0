/** Transcoding between UTF-8 and UTF-16, replacing what is malformed. */
module Utf {

  type Bytes8 = seq<bv8>
  type Units16 = seq<bv16>

  const REPLACEMENT: bv32 := 0xfffd

  /** A code point that may be encoded: not a surrogate, not too large. */
  predicate Scalar(rune: bv32) {
    rune < 0xd800 || 0xe000 <= rune <= 0x10ffff
  }

  datatype Decoded = Decoded(rune: bv32, width: nat)

  // ---------- UTF-8 ----------

  predicate Tail(b: bv8) { b & 0xc0 == 0x80 }

  function Rune2(a: bv8, b: bv8): bv32 {
    (((a & 0x1f) as bv32) << 6) | ((b & 0x3f) as bv32)
  }

  function Rune3(a: bv8, b: bv8, c: bv8): bv32 {
    (((a & 0x0f) as bv32) << 12) | (((b & 0x3f) as bv32) << 6) | ((c & 0x3f) as bv32)
  }

  function Rune4(a: bv8, b: bv8, c: bv8, d: bv8): bv32 {
    (((a & 0x0f) as bv32) << 18) | (((b & 0x3f) as bv32) << 12) | (((c & 0x3f) as bv32) << 6) | ((d & 0x3f) as bv32)
  }

  const REJECT := Decoded(REPLACEMENT, 1)

  function Decode2(s: Bytes8): Decoded
    requires s != []
  {
    if |s| < 2 || !Tail(s[1]) || Rune2(s[0], s[1]) < 0x80 then REJECT else Decoded(Rune2(s[0], s[1]), 2)
  }

  function Decode3(s: Bytes8): Decoded
    requires s != []
  {
    if |s| < 3 || !Tail(s[1]) || !Tail(s[2]) then REJECT
    else
      var r := Rune3(s[0], s[1], s[2]);
      if r < 0x800 || 0xd800 <= r <= 0xdfff then REJECT else Decoded(r, 3)
  }

  function Decode4(s: Bytes8): Decoded
    requires s != []
  {
    if |s| < 4 || !Tail(s[1]) || !Tail(s[2]) || !Tail(s[3]) then REJECT
    else
      var r := Rune4(s[0], s[1], s[2], s[3]);
      if r < 0x10000 || r > 0x10ffff then REJECT else Decoded(r, 4)
  }

  /** The first code point and its width; a byte that starts no well-formed sequence is replaced. */
  function Utf8Decode(s: Bytes8): (r: Decoded)
    requires s != []
    ensures 1 <= r.width <= |s|
  {
    var top := s[0] & 0xf0;
    if top == 0xc0 || top == 0xd0 then Decode2(s)
    else if top == 0xe0 then Decode3(s)
    else if top == 0xf0 then Decode4(s)
    else if s[0] > 0x7f then REJECT
    else Decoded(s[0] as bv32, 1)
  }

  function Low8(x: bv32): bv8 { (x & 0xff) as bv8 }

  function Clamped(rune: bv32): (r: bv32)
    ensures Scalar(r) && (Scalar(rune) ==> r == rune)
  {
    if 0xd800 <= rune <= 0xdfff || rune > 0x10ffff then REPLACEMENT else rune
  }

  function Two(r: bv32): Bytes8 {
    [Low8(0xc0 | (r >> 6)), Low8(0x80 | (r & 63))]
  }

  function Three(r: bv32): Bytes8 {
    [Low8(0xe0 | (r >> 12)), Low8(0x80 | ((r >> 6) & 63)), Low8(0x80 | (r & 63))]
  }

  function Four(r: bv32): Bytes8 {
    [Low8(0xf0 | (r >> 18)), Low8(0x80 | ((r >> 12) & 63)), Low8(0x80 | ((r >> 6) & 63)), Low8(0x80 | (r & 63))]
  }

  function Encode8(r: bv32): (s: Bytes8)
    requires Scalar(r)
    ensures 1 <= |s| <= 4
  {
    if r < 0x80 then [Low8(r)]
    else if r < 0x800 then Two(r)
    else if r < 0x10000 then Three(r)
    else Four(r)
  }

  function Utf8Encode(rune: bv32): Bytes8 { Encode8(Clamped(rune)) }

  // ---------- the syntax of RFC 3629, section 4 ----------

  predicate Between(b: bv8, lo: bv8, hi: bv8) { lo <= b <= hi }

  /** The first two bytes of a sequence of three. */
  predicate Head3(a: bv8, b: bv8) {
    || (a == 0xe0 && Between(b, 0xa0, 0xbf))
    || (Between(a, 0xe1, 0xec) && Between(b, 0x80, 0xbf))
    || (a == 0xed && Between(b, 0x80, 0x9f))
    || (Between(a, 0xee, 0xef) && Between(b, 0x80, 0xbf))
  }

  /** The first two bytes of a sequence of four. */
  predicate Head4(a: bv8, b: bv8) {
    || (a == 0xf0 && Between(b, 0x90, 0xbf))
    || (Between(a, 0xf1, 0xf3) && Between(b, 0x80, 0xbf))
    || (a == 0xf4 && Between(b, 0x80, 0x8f))
  }

  /** A well-formed sequence for one character. */
  predicate Utf8Char(s: Bytes8) {
    || (|s| == 1 && Between(s[0], 0x00, 0x7f))
    || (|s| == 2 && Between(s[0], 0xc2, 0xdf) && Between(s[1], 0x80, 0xbf))
    || (|s| == 3 && Head3(s[0], s[1]) && Between(s[2], 0x80, 0xbf))
    || (|s| == 4 && Head4(s[0], s[1]) && Between(s[2], 0x80, 0xbf) && Between(s[3], 0x80, 0xbf))
  }

  // ---------- UTF-16 ----------

  predicate High(u: bv16) { 0xd800 <= u <= 0xdbff }

  predicate Low(u: bv16) { 0xdc00 <= u <= 0xdfff }

  function Offset(u: bv16, base: bv32): bv32 { (u as bv32) - base }

  function Join(t: bv32, u: bv32): bv32 { 0x10000 + (t << 10) + u }

  function Combine(hi: bv16, lo: bv16): bv32 {
    Join(Offset(hi, 0xd800), Offset(lo, 0xdc00))
  }

  function Utf16Decode(s: Units16): (r: Decoded)
    requires s != []
    ensures 1 <= r.width <= |s|
  {
    if Low(s[0]) then REJECT
    else if High(s[0]) then
      if |s| < 2 || !Low(s[1]) then REJECT else Decoded(Combine(s[0], s[1]), 2)
    else Decoded(s[0] as bv32, 1)
  }

  function Low16(x: bv32): bv16 { (x & 0xffff) as bv16 }

  function HighOf(r: bv32): bv16 { Low16(((r - 0x10000) >> 10) + 0xd800) }

  function LowOf(r: bv32): bv16 { Low16(((r - 0x10000) & 0x3ff) + 0xdc00) }

  function Encode16(r: bv32): (s: Units16)
    requires Scalar(r)
    ensures 1 <= |s| <= 2
  {
    if r >= 0x10000 then [HighOf(r), LowOf(r)] else [Low16(r)]
  }

  function Utf16Encode(rune: bv32): Units16 { Encode16(Clamped(rune)) }

  // ---------- one character there and back ----------

  lemma Rune2Decodes(r: bv32)
    requires 0x80 <= r < 0x800
    ensures var s := Two(r);
      && Tail(s[1]) && Rune2(s[0], s[1]) == r && (s[0] & 0xf0 == 0xc0 || s[0] & 0xf0 == 0xd0)
  {
  }

  lemma Rune3Decodes(r: bv32)
    requires 0x800 <= r < 0x10000
    ensures var s := Three(r);
      && Tail(s[1]) && Tail(s[2]) && Rune3(s[0], s[1], s[2]) == r && s[0] & 0xf0 == 0xe0
  {
  }

  lemma Rune4Decodes(r: bv32)
    requires 0x10000 <= r <= 0x10ffff
    ensures var s := Four(r);
      && Tail(s[1]) && Tail(s[2]) && Tail(s[3]) && Rune4(s[0], s[1], s[2], s[3]) == r && s[0] & 0xf0 == 0xf0
  {
  }

  lemma HighSplits(r: bv32)
    requires 0x10000 <= r <= 0x10ffff
    ensures High(HighOf(r)) && Offset(HighOf(r), 0xd800) == (r - 0x10000) >> 10
  {
  }

  lemma LowSplits(r: bv32)
    requires 0x10000 <= r <= 0x10ffff
    ensures Low(LowOf(r)) && Offset(LowOf(r), 0xdc00) == (r - 0x10000) & 0x3ff
  {
  }

  lemma TensJoin(r: bv32)
    requires 0x10000 <= r <= 0x10ffff
    ensures Join((r - 0x10000) >> 10, (r - 0x10000) & 0x3ff) == r
  {
  }

  lemma CombineSplits(r: bv32)
    requires 0x10000 <= r <= 0x10ffff
    ensures High(HighOf(r)) && Low(LowOf(r)) && Combine(HighOf(r), LowOf(r)) == r
  {
    hide HighOf, LowOf, High, Low, Offset, Join;
    HighSplits(r);
    LowSplits(r);
    TensJoin(r);
  }

  lemma SplitCombines(hi: bv16, lo: bv16)
    requires High(hi) && Low(lo)
    ensures var r := Combine(hi, lo); r >= 0x10000 && Scalar(r) && HighOf(r) == hi && LowOf(r) == lo
  {
  }

  // ---------- what the decoder accepts ----------

  lemma Accepts2(a: bv8, b: bv8)
    requires a & 0xf0 == 0xc0 || a & 0xf0 == 0xd0
    ensures Tail(b) && Rune2(a, b) >= 0x80 <==> Between(a, 0xc2, 0xdf) && Between(b, 0x80, 0xbf)
    ensures Tail(b) && Rune2(a, b) >= 0x80 ==>
      Rune2(a, b) < 0x800 && Two(Rune2(a, b)) == [a, b]
  {
  }

  lemma Accepts3(a: bv8, b: bv8, c: bv8)
    requires a & 0xf0 == 0xe0 && Tail(b) && Tail(c)
    ensures var r := Rune3(a, b, c);
      r < 0x10000 && (r >= 0x800 && !(0xd800 <= r <= 0xdfff) <==> Head3(a, b))
  {
  }

  lemma Components3(a: bv8, b: bv8, c: bv8)
    requires a & 0xf0 == 0xe0 && Tail(b) && Tail(c)
    ensures var r := Rune3(a, b, c);
      Low8(0xe0 | (r >> 12)) == a && Low8(0x80 | ((r >> 6) & 63)) == b && Low8(0x80 | (r & 63)) == c
  {
  }

  lemma ThreeIs(r: bv32, a: bv8, b: bv8, c: bv8)
    requires Low8(0xe0 | (r >> 12)) == a && Low8(0x80 | ((r >> 6) & 63)) == b && Low8(0x80 | (r & 63)) == c
    ensures Three(r) == [a, b, c]
  {
  }

  lemma Restores3(a: bv8, b: bv8, c: bv8)
    requires a & 0xf0 == 0xe0 && Tail(b) && Tail(c)
    ensures Three(Rune3(a, b, c)) == [a, b, c]
  {
    hide Rune3, Three, Tail, Low8;
    Components3(a, b, c);
    ThreeIs(Rune3(a, b, c), a, b, c);
  }

  /** The range of the four-byte code points, on the bits alone. */
  lemma Bits4(a: bv8, b: bv8, low: bv32)
    requires a & 0xf0 == 0xf0 && b & 0xc0 == 0x80 && low < 0x1000
    ensures var r := (((a & 0x0f) as bv32) << 18) | (((b & 0x3f) as bv32) << 12) | low;
      0x10000 <= r <= 0x10ffff
      <==> (a == 0xf0 && b >= 0x90) || 0xf1 <= a <= 0xf3 || (a == 0xf4 && b <= 0x8f)
  {
  }

  lemma Low4(c: bv8, d: bv8)
    ensures (((c & 0x3f) as bv32) << 6) | ((d & 0x3f) as bv32) < 0x1000
  {
  }

  lemma Associates(x: bv32, y: bv32, z: bv32, w: bv32)
    ensures x | y | z | w == x | y | (z | w)
  {
  }

  lemma Range4(a: bv8, b: bv8, c: bv8, d: bv8)
    requires a & 0xf0 == 0xf0 && Tail(b)
    ensures var r := Rune4(a, b, c, d); 0x10000 <= r <= 0x10ffff <==> Head4(a, b)
  {
    var x, y := ((a & 0x0f) as bv32) << 18, ((b & 0x3f) as bv32) << 12;
    var z, w := ((c & 0x3f) as bv32) << 6, (d & 0x3f) as bv32;
    Low4(c, d);
    Associates(x, y, z, w);
    Bits4(a, b, z | w);
    TailBetween(b);
  }

  lemma First4(a: bv8, b: bv8, c: bv8, d: bv8)
    requires a & 0xf0 == 0xf0 && Tail(b) && Head4(a, b)
    ensures var r := Rune4(a, b, c, d); Low8(0xf0 | (r >> 18)) == a && Low8(0x80 | ((r >> 12) & 63)) == b
  {
  }

  lemma Second4(a: bv8, b: bv8, c: bv8, d: bv8)
    requires Tail(c) && Tail(d)
    ensures var r := Rune4(a, b, c, d); Low8(0x80 | ((r >> 6) & 63)) == c && Low8(0x80 | (r & 63)) == d
  {
  }

  lemma FourIs(r: bv32, a: bv8, b: bv8, c: bv8, d: bv8)
    requires Low8(0xf0 | (r >> 18)) == a && Low8(0x80 | ((r >> 12) & 63)) == b
    requires Low8(0x80 | ((r >> 6) & 63)) == c && Low8(0x80 | (r & 63)) == d
    ensures Four(r) == [a, b, c, d]
  {
    hide Low8;
  }

  lemma Restores4(a: bv8, b: bv8, c: bv8, d: bv8)
    requires a & 0xf0 == 0xf0 && Tail(b) && Tail(c) && Tail(d) && Head4(a, b)
    ensures Four(Rune4(a, b, c, d)) == [a, b, c, d]
  {
    hide Rune4, Four, Tail, Low8, Head4;
    First4(a, b, c, d);
    Second4(a, b, c, d);
    FourIs(Rune4(a, b, c, d), a, b, c, d);
  }

  lemma Accepts4(a: bv8, b: bv8, c: bv8, d: bv8)
    requires a & 0xf0 == 0xf0 && Tail(b) && Tail(c) && Tail(d)
    ensures var r := Rune4(a, b, c, d);
      && (0x10000 <= r <= 0x10ffff <==> Head4(a, b))
      && (Head4(a, b) ==> Four(r) == [a, b, c, d])
  {
    hide Rune4, Four, Tail, Low8, Head4;
    Range4(a, b, c, d);
    if Head4(a, b) {
      Restores4(a, b, c, d);
    }
  }

  /** Which case the decoder and the encoder take. */
  lemma DecodeCases(s: Bytes8)
    requires s != []
    ensures s[0] & 0xf0 == 0xc0 || s[0] & 0xf0 == 0xd0 ==> Utf8Decode(s) == Decode2(s)
    ensures s[0] & 0xf0 == 0xe0 ==> Utf8Decode(s) == Decode3(s)
    ensures s[0] & 0xf0 == 0xf0 ==> Utf8Decode(s) == Decode4(s)
  {
    hide Decode2, Decode3, Decode4;
  }

  lemma Encodes2(a: bv8, b: bv8)
    requires (a & 0xf0 == 0xc0 || a & 0xf0 == 0xd0) && Between(a, 0xc2, 0xdf) && Between(b, 0x80, 0xbf)
    ensures var r := Rune2(a, b); r >= 0x80 && Tail(b) && Scalar(r) && Encode8(r) == [a, b]
  {
    Accepts2(a, b);
    hide Rune2, Two, Three, Four, Low8;
  }

  lemma Encodes3(a: bv8, b: bv8, c: bv8)
    requires a & 0xf0 == 0xe0 && Tail(b) && Tail(c) && Head3(a, b)
    ensures var r := Rune3(a, b, c);
      r >= 0x800 && !(0xd800 <= r <= 0xdfff) && Scalar(r) && Encode8(r) == [a, b, c]
  {
    hide Rune3, Two, Three, Four, Low8, Tail, Head3;
    Accepts3(a, b, c);
    Restores3(a, b, c);
  }

  lemma Encodes4(a: bv8, b: bv8, c: bv8, d: bv8)
    requires a & 0xf0 == 0xf0 && Tail(b) && Tail(c) && Tail(d) && Head4(a, b)
    ensures var r := Rune4(a, b, c, d);
      0x10000 <= r <= 0x10ffff && Scalar(r) && Encode8(r) == [a, b, c, d]
  {
    hide Rune4, Two, Three, Four, Low8, Tail, Head4;
    Accepts4(a, b, c, d);
  }

  lemma DecodesChar2(s: Bytes8)
    requires |s| >= 2 && Utf8Char(s[..2])
    ensures var r := Rune2(s[0], s[1]);
      Utf8Decode(s) == Decoded(r, 2) && Scalar(r) && Encode8(r) == s[..2]
  {
    hide Rune2, Rune3, Rune4, Low8, Encode8, Utf8Decode, Scalar, Tail, Between, Head3, Head4;
    FirstByte(s, 2);
    DecodeCases(s);
    assert Between(s[..2][0], 0xc2, 0xdf) && Between(s[..2][1], 0x80, 0xbf);
    Encodes2(s[0], s[1]);
  }

  lemma DecodesChar3(s: Bytes8)
    requires |s| >= 3 && Utf8Char(s[..3])
    ensures var r := Rune3(s[0], s[1], s[2]);
      Utf8Decode(s) == Decoded(r, 3) && Scalar(r) && Encode8(r) == s[..3]
  {
    hide Rune2, Rune3, Rune4, Low8, Encode8, Utf8Decode, Scalar, Tail, Between, Head3, Head4;
    FirstByte(s, 3);
    DecodeCases(s);
    assert Head3(s[..3][0], s[..3][1]) && Between(s[..3][2], 0x80, 0xbf);
    SecondTail(s[0], s[1]);
    TailBetween(s[2]);
    Encodes3(s[0], s[1], s[2]);
  }

  lemma DecodesChar4(s: Bytes8)
    requires |s| >= 4 && Utf8Char(s[..4])
    ensures var r := Rune4(s[0], s[1], s[2], s[3]);
      Utf8Decode(s) == Decoded(r, 4) && Scalar(r) && Encode8(r) == s[..4]
  {
    hide Rune2, Rune3, Rune4, Low8, Encode8, Utf8Decode, Scalar, Tail, Between, Head3, Head4;
    FirstByte(s, 4);
    DecodeCases(s);
    assert Head4(s[..4][0], s[..4][1]) && Between(s[..4][2], 0x80, 0xbf) && Between(s[..4][3], 0x80, 0xbf);
    SecondTail(s[0], s[1]);
    TailBetween(s[2]);
    TailBetween(s[3]);
    Encodes4(s[0], s[1], s[2], s[3]);
  }

  /** A well-formed character is decoded whole, and encoding the result gives it back. */
  lemma DecodesChar(s: Bytes8, n: nat)
    requires 0 < n <= |s| && Utf8Char(s[..n])
    ensures var r := Utf8Decode(s);
      r.width == n && Scalar(r.rune) && Encode8(r.rune) == s[..n]
  {
    if n == 1 {
      assert Between(s[..1][0], 0x00, 0x7f);
      SingleByte(s[0]);
      hide Low8, Rune2, Rune3, Rune4;
    } else {
      hide Encode8, Rune2, Rune3, Rune4, Utf8Decode, Scalar;
      if n == 2 {
        DecodesChar2(s);
      } else if n == 3 {
        DecodesChar3(s);
      } else {
        DecodesChar4(s);
      }
    }
  }

  lemma SingleByte(a: bv8)
    requires Between(a, 0x00, 0x7f)
    ensures Low8(a as bv32) == a && a as bv32 < 0x80
    ensures a & 0xf0 != 0xc0 && a & 0xf0 != 0xd0 && a & 0xf0 != 0xe0 && a & 0xf0 != 0xf0
  {
  }

  lemma TailBetween(b: bv8)
    ensures Tail(b) <==> Between(b, 0x80, 0xbf)
  {
  }

  lemma SecondTail(a: bv8, b: bv8)
    requires Head3(a, b) || Head4(a, b)
    ensures Tail(b)
  {
  }

  lemma FirstByte(s: Bytes8, n: nat)
    requires 0 < n <= |s| && Utf8Char(s[..n])
    ensures n == 2 ==> s[0] & 0xf0 == 0xc0 || s[0] & 0xf0 == 0xd0
    ensures n == 3 ==> s[0] & 0xf0 == 0xe0
    ensures n == 4 ==> s[0] & 0xf0 == 0xf0
  {
  }

  /** What the decoder takes whole is a well-formed character; anything else is one replaced byte. */
  lemma DecodesOnlyChars(s: Bytes8)
    requires s != []
    ensures var r := Utf8Decode(s); Utf8Char(s[..r.width]) || r == REJECT
  {
    hide Rune2, Rune3, Rune4, Low8;
    var r := Utf8Decode(s);
    if r.width == 2 {
      Accepts2(s[0], s[1]);
    } else if r.width == 3 {
      Accepts3(s[0], s[1], s[2]);
      TailBetween(s[2]);
    } else if r.width == 4 {
      Accepts4(s[0], s[1], s[2], s[3]);
      TailBetween(s[2]);
      TailBetween(s[3]);
    }
  }

  lemma RejectIsNoChar(s: Bytes8)
    requires s != [] && Utf8Char(s[..1])
    ensures Utf8Decode(s) != REJECT
  {
    DecodesChar(s, 1);
    hide Utf8Char, Utf8Decode, Low8;
  }

  /**
   * The decoder takes a sequence whole exactly if it is a character in the syntax of RFC 3629, giving the code point
   * that is encoded so; where no character starts, it consumes one byte as a replacement.
   */
  lemma DecodesExactly(s: Bytes8)
    requires s != []
    ensures forall n :: 0 < n <= |s| ==> (Utf8Char(s[..n]) <==> Utf8Decode(s) != REJECT && Utf8Decode(s).width == n)
    ensures Utf8Decode(s) != REJECT ==> Encode8(Utf8Decode(s).rune) == s[..Utf8Decode(s).width]
    ensures Scalar(Utf8Decode(s).rune)
  {
    hide Utf8Char, Utf8Decode, Encode8;
    var d := Utf8Decode(s);
    forall n | 0 < n <= |s| && Utf8Char(s[..n])
      ensures d != REJECT && d.width == n
    {
      DecodesChar(s, n);
      if n == 1 {
        RejectIsNoChar(s);
      }
    }
    DecodesOnlyChars(s);
    if d != REJECT {
      DecodesChar(s, d.width);
    }
  }

  /** Encoding gives a well-formed character that decodes to the code point, whatever follows. */
  lemma Encode8Decodes(r: bv32, rest: Bytes8)
    requires Scalar(r)
    ensures Utf8Decode(Encode8(r) + rest) == Decoded(r, |Encode8(r)|) && Utf8Char(Encode8(r))
  {
    hide Rune2, Rune3, Rune4, Low8, Utf8Decode, Tail, Head3, Head4;
    var s := Encode8(r) + rest;
    DecodeCases(s);
    if r < 0x80 {
      OneByte(r);
      DecodeOne(s);
    } else if r < 0x800 {
      Rune2Decodes(r);
      hide Two;
      Accepts2(s[0], s[1]);
    } else if r < 0x10000 {
      Rune3Decodes(r);
      hide Three;
      Accepts3(s[0], s[1], s[2]);
      TailBetween(s[2]);
    } else {
      Rune4Decodes(r);
      hide Four;
      Accepts4(s[0], s[1], s[2], s[3]);
      TailBetween(s[2]);
      TailBetween(s[3]);
    }
  }

  lemma DecodeOne(s: Bytes8)
    requires s != [] && Between(s[0], 0x00, 0x7f)
    ensures Utf8Decode(s) == Decoded(s[0] as bv32, 1)
  {
  }

  lemma OneByte(r: bv32)
    requires r < 0x80
    ensures var a := Low8(r);
      && Between(a, 0x00, 0x7f) && a as bv32 == r
      && a & 0xf0 != 0xc0 && a & 0xf0 != 0xd0 && a & 0xf0 != 0xe0 && a & 0xf0 != 0xf0
  {
  }

  // ---------- which code point ----------

  /** One more digit in base 64, counted from the least byte that continues a sequence. */
  function Next(x: bv32, b: bv8): bv32 { 64 * x + ((b as bv32) - 0x80) }

  /** The first digit, counted from the least byte of its kind. */
  function Start(a: bv8, least: bv32): bv32 { (a as bv32) - least }

  /** The number a well-formed sequence stands for. */
  function CodePoint(s: Bytes8): bv32
    requires Utf8Char(s)
  {
    if |s| == 1 then Start(s[0], 0)
    else if |s| == 2 then Next(Start(s[0], 0xc0), s[1])
    else if |s| == 3 then Next(Next(Start(s[0], 0xe0), s[1]), s[2])
    else Next(Next(Next(Start(s[0], 0xf0), s[1]), s[2]), s[3])
  }

  lemma Number2(a: bv8, b: bv8)
    requires Between(a, 0xc2, 0xdf) && Tail(b)
    ensures Rune2(a, b) == Next(Start(a, 0xc0), b)
  {
  }

  lemma Number3(a: bv8, b: bv8, c: bv8)
    requires Between(a, 0xe0, 0xef) && Tail(b) && Tail(c)
    ensures Rune3(a, b, c) == Next(Next(Start(a, 0xe0), b), c)
  {
  }

  lemma Number4(a: bv8, b: bv8, c: bv8, d: bv8)
    requires Between(a, 0xf0, 0xf4) && Tail(b) && Tail(c) && Tail(d)
    ensures Rune4(a, b, c, d) == Next(Next(Next(Start(a, 0xf0), b), c), d)
  {
  }

  lemma Lead(a: bv8, b: bv8)
    ensures Head3(a, b) ==> Between(a, 0xe0, 0xef)
    ensures Head4(a, b) ==> Between(a, 0xf0, 0xf4)
  {
  }

  lemma TailsOf(s: Bytes8)
    requires Utf8Char(s) && |s| >= 2
    ensures forall i :: 0 < i < |s| ==> Tail(s[i])
    ensures |s| == 2 ==> Between(s[0], 0xc2, 0xdf)
    ensures |s| == 3 ==> Between(s[0], 0xe0, 0xef)
    ensures |s| == 4 ==> Between(s[0], 0xf0, 0xf4)
  {
    hide Tail, Head3, Head4;
    forall i | 1 < i < |s| ensures Tail(s[i]) {
      TailBetween(s[i]);
    }
    TailBetween(s[1]);
    if |s| > 2 {
      Lead(s[0], s[1]);
      SecondTail(s[0], s[1]);
    }
  }

  lemma NumberIs(s: Bytes8)
    requires Utf8Char(s)
    ensures |s| == 2 ==> CodePoint(s) == Rune2(s[0], s[1])
    ensures |s| == 3 ==> CodePoint(s) == Rune3(s[0], s[1], s[2])
    ensures |s| == 4 ==> CodePoint(s) == Rune4(s[0], s[1], s[2], s[3])
  {
    hide Rune2, Rune3, Rune4, Tail, Between, Next, Start, Utf8Char;
    if |s| >= 2 {
      TailsOf(s);
    }
    if |s| == 2 {
      Number2(s[0], s[1]);
    } else if |s| == 3 {
      Number3(s[0], s[1], s[2]);
    } else if |s| == 4 {
      Number4(s[0], s[1], s[2], s[3]);
    }
  }

  lemma OneIs(s: Bytes8)
    requires Utf8Char(s) && |s| == 1
    ensures Between(s[0], 0x00, 0x7f) && CodePoint(s) == s[0] as bv32
  {
  }

  lemma CharLength(s: Bytes8)
    requires Utf8Char(s)
    ensures 1 <= |s| <= 4
  {
  }

  /** Decoding a well-formed sequence gives the number it stands for. */
  lemma CodePointRead(s: Bytes8, rest: Bytes8)
    requires Utf8Char(s)
    ensures Utf8Decode(s + rest) == Decoded(CodePoint(s), |s|)
  {
    hide *;
    var t := s + rest;
    assert t[..|s|] == s;
    assert forall i :: 0 <= i < |s| ==> t[i] == s[i];
    CharLength(s);
    NumberIs(s);
    if |s| == 1 {
      OneIs(s);
      DecodeOne(t);
    } else if |s| == 2 {
      DecodesChar2(t);
    } else if |s| == 3 {
      DecodesChar3(t);
    } else {
      DecodesChar4(t);
    }
  }

  /** A surrogate pair stands for its twenty bits above the first plane, and any other surrogate for nothing. */
  lemma PairRead(s: Units16)
    requires s != []
    ensures |s| >= 2 && 0xd800 <= s[0] < 0xdc00 && 0xdc00 <= s[1] < 0xe000 ==>
      Utf16Decode(s) == Decoded(0x10000 + 0x400 * ((s[0] as bv32) - 0xd800) + ((s[1] as bv32) - 0xdc00), 2)
    ensures s[0] < 0xd800 || s[0] >= 0xe000 ==> Utf16Decode(s) == Decoded(s[0] as bv32, 1)
    ensures 0xdc00 <= s[0] < 0xe000 ==> Utf16Decode(s) == Decoded(0xfffd, 1)
    ensures 0xd800 <= s[0] < 0xdc00 && !(|s| >= 2 && 0xdc00 <= s[1] < 0xe000) ==> Utf16Decode(s) == Decoded(0xfffd, 1)
  {
    if |s| >= 2 && High(s[0]) && Low(s[1]) {
      PairNumber(s[0], s[1]);
    }
    hide Combine;
  }

  lemma PairNumber(hi: bv16, lo: bv16)
    ensures Combine(hi, lo) == 0x10000 + 0x400 * ((hi as bv32) - 0xd800) + ((lo as bv32) - 0xdc00)
  {
  }

  lemma Low16Small(r: bv32)
    requires r < 0x10000
    ensures Low16(r) as bv32 == r
  {
  }

  lemma Widened(u: bv16)
    ensures High(u) <==> 0xd800 <= u as bv32 <= 0xdbff
    ensures Low(u) <==> 0xdc00 <= u as bv32 <= 0xdfff
    ensures u as bv32 < 0x10000
  {
  }

  lemma OneUnit(r: bv32)
    requires r < 0xd800 || 0xe000 <= r < 0x10000
    ensures var u := Low16(r); !High(u) && !Low(u) && u as bv32 == r
  {
    Low16Small(r);
    Widened(Low16(r));
    hide Low16, High, Low;
  }

  lemma Encode16Large(r: bv32) returns (hi: bv16, lo: bv16)
    requires 0x10000 <= r <= 0x10ffff
    ensures Scalar(r)
    ensures Encode16(r) == [hi, lo] && High(hi) && Low(lo) && Combine(hi, lo) == r
  {
    CombineSplits(r);
    hide Combine, HighOf, LowOf, Low16, High, Low;
    hi, lo := Encode16(r)[0], Encode16(r)[1];
  }

  lemma Encode16Small(r: bv32) returns (u: bv16)
    requires r < 0xd800 || 0xe000 <= r < 0x10000
    ensures Scalar(r)
    ensures Encode16(r) == [u] && !High(u) && !Low(u) && u as bv32 == r
  {
    OneUnit(r);
    hide Low16, High, Low;
    u := Low16(r);
  }

  lemma ScalarCases(r: bv32)
    requires Scalar(r)
    ensures r <= 0x10ffff && (r < 0x10000 ==> r < 0xd800 || 0xe000 <= r)
  {
  }

  lemma DecodePair(hi: bv16, lo: bv16, rest: Units16)
    requires High(hi) && Low(lo)
    ensures Utf16Decode([hi, lo] + rest) == Decoded(Combine(hi, lo), 2)
  {
    HighNotLow(hi);
    hide High, Low, Combine;
  }

  lemma DecodeSingle(u: bv16, rest: Units16)
    requires !High(u) && !Low(u)
    ensures Utf16Decode([u] + rest) == Decoded(u as bv32, 1)
  {
    hide High, Low;
  }

  lemma Encode16Decodes(r: bv32, rest: Units16)
    requires Scalar(r)
    ensures Utf16Decode(Encode16(r) + rest) == Decoded(r, |Encode16(r)|)
  {
    hide Combine, Low16, High, Low, Encode16, Scalar, Utf16Decode;
    ScalarCases(r);
    if r >= 0x10000 {
      var hi, lo := Encode16Large(r);
      DecodePair(hi, lo, rest);
    } else {
      var u := Encode16Small(r);
      DecodeSingle(u, rest);
    }
  }

  lemma PairEncodes(hi: bv16, lo: bv16)
    requires High(hi) && Low(lo)
    ensures var r := Combine(hi, lo); Scalar(r) && Encode16(r) == [hi, lo]
  {
    hide Combine, HighOf, LowOf, Low16, High, Low, Scalar;
    SplitCombines(hi, lo);
  }

  lemma SingleEncodes(u: bv16)
    requires !High(u) && !Low(u)
    ensures Scalar(u as bv32) && Encode16(u as bv32) == [u]
  {
    SingleUnit(u);
    hide Low16, High, Low;
  }

  lemma HighNotLow(u: bv16)
    ensures !(High(u) && Low(u))
  {
  }

  // ---------- whole strings ----------

  function ToWide(s: Bytes8): Units16
    decreases |s|
  {
    if s == [] then []
    else
      var d := Utf8Decode(s);
      Utf16Encode(d.rune) + ToWide(s[d.width..])
  }

  function FromWide(w: Units16): Bytes8
    decreases |w|
  {
    if w == [] then []
    else
      var d := Utf16Decode(w);
      Utf8Encode(d.rune) + FromWide(w[d.width..])
  }

  /** Writes `xs` into `a` behind the first `k` elements. */
  method Store<T>(a: array<T>, k: nat, xs: seq<T>)
    requires k + |xs| <= a.Length
    modifies a
    ensures a[..k + |xs|] == old(a[..k]) + xs
  {
    for j := 0 to |xs|
      invariant a[..k + j] == old(a[..k]) + xs[..j]
    {
      a[k + j] := xs[j];
      assert a[..k + j + 1] == a[..k + j] + [xs[j]];
    }
  }

  /** Counts first, then writes into a buffer of just that size. */
  method ToWideArray(s: Bytes8) returns (w: array<bv16>)
    ensures fresh(w) && w[..] == ToWide(s)
  {
    hide Utf8Decode, Utf16Encode;
    var len := 0;
    var tail := s;
    while tail != []
      invariant len + |ToWide(tail)| == |ToWide(s)|
      decreases |tail|
    {
      var d := Utf8Decode(tail);
      len := len + |Utf16Encode(d.rune)|;
      tail := tail[d.width..];
    }
    w := new bv16[len];
    tail := s;
    var k := 0;
    while tail != []
      invariant 0 <= k <= len && len == |ToWide(s)|
      invariant w[..k] + ToWide(tail) == ToWide(s)
      decreases |tail|
    {
      var d := Utf8Decode(tail);
      var units := Utf16Encode(d.rune);
      ghost var before := w[..k];
      ghost var rest := ToWide(tail[d.width..]);
      assert before + (units + rest) == before + units + rest;
      Store(w, k, units);
      k := k + |units|;
      tail := tail[d.width..];
    }
  }

  method FromWideArray(w: Units16) returns (s: array<bv8>)
    ensures fresh(s) && s[..] == FromWide(w)
  {
    hide Utf16Decode, Utf8Encode;
    var len := 0;
    var tail := w;
    while tail != []
      invariant len + |FromWide(tail)| == |FromWide(w)|
      decreases |tail|
    {
      var d := Utf16Decode(tail);
      len := len + |Utf8Encode(d.rune)|;
      tail := tail[d.width..];
    }
    s := new bv8[len];
    tail := w;
    var k := 0;
    while tail != []
      invariant 0 <= k <= len && len == |FromWide(w)|
      invariant s[..k] + FromWide(tail) == FromWide(w)
      decreases |tail|
    {
      var d := Utf16Decode(tail);
      var bytes := Utf8Encode(d.rune);
      ghost var before := s[..k];
      ghost var rest := FromWide(tail[d.width..]);
      assert before + (bytes + rest) == before + bytes + rest;
      Store(s, k, bytes);
      k := k + |bytes|;
      tail := tail[d.width..];
    }
  }

  // ---------- round trips ----------

  /** A sequence of well-formed characters. */
  ghost predicate ValidUtf8(s: Bytes8)
    decreases |s|
  {
    s == [] || exists n :: 0 < n <= |s| && Utf8Char(s[..n]) && ValidUtf8(s[n..])
  }

  /** Every surrogate is one of a pair, high then low. */
  predicate ValidUtf16(w: Units16)
    decreases |w|
  {
    if w == [] then true
    else if High(w[0]) then |w| >= 2 && Low(w[1]) && ValidUtf16(w[2..])
    else !Low(w[0]) && ValidUtf16(w[1..])
  }

  /** Valid UTF-8 survives the way to UTF-16 and back. */
  lemma {:induction false} Utf8RoundTrip(s: Bytes8)
    requires ValidUtf8(s)
    ensures FromWide(ToWide(s)) == s
    decreases |s|
  {
    hide Utf8Decode, Utf8Char, Encode8, Encode16, Utf16Decode, Scalar;
    if s != [] {
      var n :| 0 < n <= |s| && Utf8Char(s[..n]) && ValidUtf8(s[n..]);
      DecodesChar(s, n);
      var r := Utf8Decode(s).rune;
      Utf8RoundTrip(s[n..]);
      var rest := ToWide(s[n..]);
      Encode16Decodes(r, rest);
      assert (Encode16(r) + rest)[|Encode16(r)|..] == rest;
      assert s == s[..n] + s[n..];
    }
  }

  lemma Decodes16(w: Units16)
    requires w != [] && ValidUtf16(w)
    ensures var d := Utf16Decode(w);
      Scalar(d.rune) && Encode16(d.rune) == w[..d.width] && ValidUtf16(w[d.width..])
  {
    hide Combine, Low16, High, Low, Encode16, Scalar;
    HighNotLow(w[0]);
    if High(w[0]) {
      PairEncodes(w[0], w[1]);
    } else {
      SingleEncodes(w[0]);
    }
  }

  lemma SingleUnit(u: bv16)
    requires !High(u) && !Low(u)
    ensures Scalar(u as bv32) && u as bv32 < 0x10000 && Low16(u as bv32) == u
  {
    Widened(u);
    hide High, Low;
  }

  lemma FromWideStep(w: Units16)
    requires w != [] && Scalar(Utf16Decode(w).rune)
    ensures FromWide(w) == Encode8(Utf16Decode(w).rune) + FromWide(w[Utf16Decode(w).width..])
  {
    hide Utf16Decode, Encode8, Scalar;
  }

  /** A character in front of a text is transcoded in front of it. */
  lemma ToWideFront(r: bv32, rest: Bytes8)
    requires Scalar(r)
    ensures ToWide(Encode8(r) + rest) == Encode16(r) + ToWide(rest)
  {
    hide Utf8Decode, Utf8Char, Encode8, Encode16, Scalar;
    Encode8Decodes(r, rest);
    assert (Encode8(r) + rest)[|Encode8(r)|..] == rest;
  }

  /** Well-formed UTF-16 survives the way to UTF-8 and back. */
  lemma {:induction false} Utf16RoundTrip(w: Units16)
    requires ValidUtf16(w)
    ensures ToWide(FromWide(w)) == w
    decreases |w|
  {
    if w != [] {
      hide ToWide, FromWide, Encode8, Encode16, Utf16Decode, Scalar, ValidUtf16, Clamped;
      Decodes16(w);
      var d := Utf16Decode(w);
      Utf16RoundTrip(w[d.width..]);
      FromWideStep(w);
      ToWideFront(d.rune, FromWide(w[d.width..]));
      SplitAt(w, d.width);
    }
  }

  lemma SplitAt(w: Units16, k: nat)
    requires k <= |w|
    ensures w[..k] + w[k..] == w
  {
  }

  /** Even malformed input comes out well-formed. */
  lemma {:induction false} ToWideValid(s: Bytes8)
    ensures ValidUtf16(ToWide(s))
    decreases |s|
  {
    if s != [] {
      var d := Utf8Decode(s);
      ToWideValid(s[d.width..]);
      PrependValid16(Clamped(d.rune), ToWide(s[d.width..]));
    }
  }

  lemma PrependValid16(r: bv32, w: Units16)
    requires Scalar(r) && ValidUtf16(w)
    ensures ValidUtf16(Encode16(r) + w)
  {
    hide Combine, Low16;
    var all := Encode16(r) + w;
    if r >= 0x10000 {
      CombineSplits(r);
      assert all[2..] == w;
      HighNotLow(all[0]);
    } else {
      OneUnit(r);
      assert all[1..] == w;
    }
  }

  lemma {:induction false} FromWideValid(w: Units16)
    ensures ValidUtf8(FromWide(w))
    decreases |w|
  {
    if w != [] {
      hide Utf16Decode, Utf8Char, Encode8;
      var d := Utf16Decode(w);
      FromWideValid(w[d.width..]);
      var r, rest := Clamped(d.rune), FromWide(w[d.width..]);
      Encode8Decodes(r, rest);
      var all := Encode8(r) + rest;
      assert all[..|Encode8(r)|] == Encode8(r) && all[|Encode8(r)|..] == rest;
    }
  }
}
