/**
 The conversions of level1/chgenc.c between bytes and code points, in ten encodings: three
 schemes in either byte order, with or without a byte order mark.
 */
module Chgenc {

  type Octet = bv8
  type Code = bv32

  datatype Scheme = Utf8 | Utf16(big: bool) | Utf32(big: bool)

  /** `mark` tells the variants that write a byte order mark. */
  datatype Encoding = Encoding(scheme: Scheme, mark: bool)

  const REPLACEMENT: Code := 0xFFFD
  const BOM: Code := 0xFEFF

  /** The Unicode scalar values. */
  predicate Scalar(c: Code) {
    c <= 0x10FFFF && !(0xD800 <= c <= 0xDFFF)
  }

  predicate AllScalar(s: seq<Code>) {
    forall k :: 0 <= k < |s| ==> Scalar(s[k])
  }

  // ---------------------------------------------------------------- bits

  function Wide(b: Octet): Code { b as Code }

  function Low(c: Code): Octet { (c & 0xFF) as Octet }

  function TwoBytes(c: Octet, c1: Octet): Code {
    (Wide(c & 0x1F) << 6) | Wide(c1 & 0x3F)
  }

  function ThreeBytes(c: Octet, c1: Octet, c2: Octet): Code {
    (Wide(c & 0x0F) << 12) | (Wide(c1 & 0x3F) << 6) | Wide(c2 & 0x3F)
  }

  function FourBytes(c: Octet, c1: Octet, c2: Octet, c3: Octet): Code {
    (Wide(c & 0x07) << 18) | (Wide(c1 & 0x3F) << 12) | (Wide(c2 & 0x3F) << 6) | Wide(c3 & 0x3F)
  }

  predicate Continues(b: Octet) { b & 0xC0 == 0x80 }

  /** A 16-bit unit from two bytes. */
  function Unit16(big: bool, x: Octet, y: Octet): Code {
    if big then (Wide(x) << 8) | Wide(y) else Wide(x) | (Wide(y) << 8)
  }

  function Unit32(big: bool, x: Octet, y: Octet, z: Octet, w: Octet): Code {
    if big then (Wide(x) << 24) | (Wide(y) << 16) | (Wide(z) << 8) | Wide(w)
    else Wide(x) | (Wide(y) << 8) | (Wide(z) << 16) | (Wide(w) << 24)
  }

  function Pair(hi: Code, lo: Code): Code {
    0x10000 + (((hi - 0xD800) << 10) | (lo - 0xDC00))
  }

  // ---------------------------------------------------------------- decoding

  /** What the head of the input decodes to, how many bytes it takes, and whether the input ends in the middle of it. */
  datatype Head = Head(code: Code, size: nat, cut: bool)

  function Utf8Head(b: seq<Octet>): (r: Head)
    requires |b| > 0
    ensures 0 < r.size <= |b|
  {
    var c := b[0];
    if c < 0x80 then Head(Wide(c), 1, false)
    else if c & 0xE0 == 0xC0 then
      if |b| < 2 then Head(REPLACEMENT, |b|, true)
      else if !Continues(b[1]) then Head(REPLACEMENT, 2, false)
      else
        var cp := TwoBytes(c, b[1]);
        Head(if cp < 0x80 then REPLACEMENT else cp, 2, false)
    else if c & 0xF0 == 0xE0 then
      if |b| < 3 then Head(REPLACEMENT, |b|, true)
      else if !Continues(b[1]) || !Continues(b[2]) then Head(REPLACEMENT, 3, false)
      else
        var cp := ThreeBytes(c, b[1], b[2]);
        Head(if cp < 0x800 || !Scalar(cp) then REPLACEMENT else cp, 3, false)
    else if c & 0xF8 == 0xF0 then
      if |b| < 4 then Head(REPLACEMENT, |b|, true)
      else if !Continues(b[1]) || !Continues(b[2]) || !Continues(b[3]) then Head(REPLACEMENT, 4, false)
      else
        var cp := FourBytes(c, b[1], b[2], b[3]);
        Head(if cp < 0x10000 || !Scalar(cp) then REPLACEMENT else cp, 4, false)
    else Head(REPLACEMENT, 1, false)
  }

  function Utf16Head(big: bool, b: seq<Octet>): (r: Head)
    requires |b| >= 2
    ensures 2 <= r.size <= |b|
  {
    var unit := Unit16(big, b[0], b[1]);
    if 0xD800 <= unit <= 0xDBFF then
      if |b| < 4 then Head(REPLACEMENT, |b|, true)
      else
        var unit2 := Unit16(big, b[2], b[3]);
        Head(if 0xDC00 <= unit2 <= 0xDFFF then Pair(unit, unit2) else REPLACEMENT, 4, false)
    else Head(if 0xDC00 <= unit <= 0xDFFF then REPLACEMENT else unit, 2, false)
  }

  function Utf32Head(big: bool, b: seq<Octet>): Head
    requires |b| >= 4
  {
    var cp := Unit32(big, b[0], b[1], b[2], b[3]);
    Head(if Scalar(cp) then cp else REPLACEMENT, 4, false)
  }

  /** The least that can be decoded; fewer bytes at the end are dropped. */
  function UnitSize(s: Scheme): nat {
    match s
    case Utf8 => 1
    case Utf16(_) => 2
    case Utf32(_) => 4
  }

  function HeadOf(s: Scheme, b: seq<Octet>): (r: Head)
    requires |b| >= UnitSize(s)
    ensures 0 < r.size <= |b|
  {
    match s
    case Utf8 => Utf8Head(b)
    case Utf16(big) => Utf16Head(big, b)
    case Utf32(big) => Utf32Head(big, b)
  }

  function Codes(s: Scheme, b: seq<Octet>): seq<Code>
    decreases |b|
  {
    if |b| < UnitSize(s) then []
    else
      var h := HeadOf(s, b);
      if h.cut then [h.code] else [h.code] + Codes(s, b[h.size..])
  }

  function MarkBytes(s: Scheme): seq<Octet> {
    match s
    case Utf8 => [0xEF, 0xBB, 0xBF]
    case Utf16(big) => if big then [0xFE, 0xFF] else [0xFF, 0xFE]
    case Utf32(big) => if big then [0x00, 0x00, 0xFE, 0xFF] else [0xFF, 0xFE, 0x00, 0x00]
  }

  /** A mark at the start is skipped, whether or not the encoding is the variant with the mark. */
  function Skipped(s: Scheme, b: seq<Octet>): nat {
    if MarkBytes(s) <= b then |MarkBytes(s)| else 0
  }

  function Decoded(e: Encoding, b: seq<Octet>): seq<Code> {
    Codes(e.scheme, b[Skipped(e.scheme, b)..])
  }

  // ---------------------------------------------------------------- encoding

  function Utf8Bytes(code: Code): seq<Octet> {
    if code <= 0x7F then [Low(code)]
    else if code <= 0x7FF then [0xC0 | Low(code >> 6), 0x80 | Low(code & 0x3F)]
    else if code <= 0xFFFF then
      var c := if 0xD800 <= code <= 0xDFFF then REPLACEMENT else code;
      [0xE0 | Low(c >> 12), 0x80 | Low((c >> 6) & 0x3F), 0x80 | Low(c & 0x3F)]
    else if code <= 0x10FFFF then
      [0xF0 | Low(code >> 18), 0x80 | Low((code >> 12) & 0x3F), 0x80 | Low((code >> 6) & 0x3F), 0x80 | Low(code & 0x3F)]
    else [0xEF, 0xBB, 0xBF, 0xEF, 0xBF, 0xBD]
  }

  function Bytes16(big: bool, unit: Code): seq<Octet> {
    if big then [Low(unit >> 8), Low(unit)] else [Low(unit), Low(unit >> 8)]
  }

  /** The halves of a surrogate pair, each in 16 bits. */
  function HighHalf(code: Code): Code { (0xD800 + (((code - 0x10000) >> 10) & 0xFFFF)) & 0xFFFF }

  function LowHalf(code: Code): Code { (0xDC00 + ((code - 0x10000) & 0x3FF)) & 0xFFFF }

  function Utf16Bytes(big: bool, code: Code): seq<Octet> {
    if code <= 0xFFFF then Bytes16(big, if 0xD800 <= code <= 0xDFFF then REPLACEMENT else code)
    else Bytes16(big, HighHalf(code)) + Bytes16(big, LowHalf(code))
  }

  function Utf32Bytes(big: bool, c: Code): seq<Octet> {
    if big then [Low(c >> 24), Low(c >> 16), Low(c >> 8), Low(c)] else [Low(c), Low(c >> 8), Low(c >> 16), Low(c >> 24)]
  }

  function BytesOf(s: Scheme, c: Code): seq<Octet> {
    match s
    case Utf8 => Utf8Bytes(c)
    case Utf16(big) => Utf16Bytes(big, c)
    case Utf32(big) => Utf32Bytes(big, c)
  }

  function AllBytes(s: Scheme, codes: seq<Code>): seq<Octet> {
    if codes == [] then [] else BytesOf(s, codes[0]) + AllBytes(s, codes[1..])
  }

  function Encoded(e: Encoding, codes: seq<Code>): seq<Octet> {
    (if e.mark then MarkBytes(e.scheme) else []) + AllBytes(e.scheme, codes)
  }

  // ---------------------------------------------------------------- one code point

  lemma Utf8OneByte(c: Code)
    requires c <= 0x7F
    ensures Low(c) < 0x80 && Wide(Low(c)) == c
  {
  }

  lemma Utf8TwoBytes(c: Code)
    requires 0x7F < c <= 0x7FF
    ensures var x, y := 0xC0 | Low(c >> 6), 0x80 | Low(c & 0x3F);
      x >= 0x80 && x & 0xE0 == 0xC0 && Continues(y) && TwoBytes(x, y) == c
  {
  }

  /** The three bytes have the form of a sequence that decodes to `c`. */
  ghost predicate FormThree(x: Octet, y: Octet, z: Octet, c: Code) {
    x >= 0x80 && x & 0xE0 != 0xC0 && x & 0xF0 == 0xE0 && Continues(y) && Continues(z) && ThreeBytes(x, y, z) == c
  }

  ghost predicate FormFour(x: Octet, y: Octet, z: Octet, w: Octet, c: Code) {
    && x >= 0x80 && x & 0xE0 != 0xC0 && x & 0xF0 != 0xE0 && x & 0xF8 == 0xF0
    && Continues(y) && Continues(z) && Continues(w) && FourBytes(x, y, z, w) == c
  }

  lemma Utf8ThreeBytes(c: Code)
    requires 0x7FF < c <= 0xFFFF
    ensures FormThree(0xE0 | Low(c >> 12), 0x80 | Low((c >> 6) & 0x3F), 0x80 | Low(c & 0x3F), c)
  {
  }

  lemma Utf8FourBytes(c: Code)
    requires 0xFFFF < c <= 0x10FFFF
    ensures FormFour(0xF0 | Low(c >> 18), 0x80 | Low((c >> 12) & 0x3F), 0x80 | Low((c >> 6) & 0x3F), 0x80 | Low(c & 0x3F), c)
  {
  }

  lemma JoinBig16(u: Code)
    requires u <= 0xFFFF
    ensures Unit16(true, Low(u >> 8), Low(u)) == u
  {
  }

  lemma JoinLittle16(u: Code)
    requires u <= 0xFFFF
    ensures Unit16(false, Low(u), Low(u >> 8)) == u
  {
  }

  lemma Join32(c: Code)
    ensures (Wide(Low(c >> 24)) << 24) | (Wide(Low(c >> 16)) << 16) | (Wide(Low(c >> 8)) << 8) | Wide(Low(c)) == c
    ensures Wide(Low(c)) | (Wide(Low(c >> 8)) << 8) | (Wide(Low(c >> 16)) << 16) | (Wide(Low(c >> 24)) << 24) == c
  {
  }

  lemma HighHalfIs(c: Code)
    requires 0xFFFF < c <= 0x10FFFF
    ensures HighHalf(c) == 0xD800 + ((c - 0x10000) >> 10) && 0xD800 <= HighHalf(c) <= 0xDBFF
    ensures HighHalf(c) - 0xD800 == (c - 0x10000) >> 10
  {
    TopTenBits(c - 0x10000);
  }

  lemma TopTenBits(d: Code)
    requires d <= 0xFFFFF
    ensures (0xD800 + ((d >> 10) & 0xFFFF)) & 0xFFFF == 0xD800 + (d >> 10) && 0xD800 <= 0xD800 + (d >> 10) <= 0xDBFF
    ensures ((d >> 10) << 10) | (d & 0x3FF) == d
  {
  }

  lemma LowHalfIs(c: Code)
    ensures LowHalf(c) == 0xDC00 + ((c - 0x10000) & 0x3FF) && 0xDC00 <= LowHalf(c) <= 0xDFFF
    ensures LowHalf(c) - 0xDC00 == (c - 0x10000) & 0x3FF
  {
    LowTenBits(c - 0x10000);
  }

  lemma LowTenBits(d: Code)
    ensures (0xDC00 + (d & 0x3FF)) & 0xFFFF == 0xDC00 + (d & 0x3FF) && 0xDC00 <= 0xDC00 + (d & 0x3FF) <= 0xDFFF
  {
  }

  lemma Utf16Halves(c: Code)
    requires 0xFFFF < c <= 0x10FFFF
    ensures 0xD800 <= HighHalf(c) <= 0xDBFF && 0xDC00 <= LowHalf(c) <= 0xDFFF && Pair(HighHalf(c), LowHalf(c)) == c
  {
    HighHalfIs(c);
    LowHalfIs(c);
    TopTenBits(c - 0x10000);
  }

  lemma HeadOfTwo(b: seq<Octet>, x: Octet, y: Octet, c: Code)
    requires [x, y] <= b && x >= 0x80 && x & 0xE0 == 0xC0 && Continues(y)
    requires TwoBytes(x, y) == c && c >= 0x80
    ensures Utf8Head(b) == Head(c, 2, false)
  {
    assert b[0] == x && b[1] == y;
  }

  lemma HeadOfThree(b: seq<Octet>, x: Octet, y: Octet, z: Octet, c: Code)
    requires [x, y, z] <= b && FormThree(x, y, z, c) && c >= 0x800 && Scalar(c)
    ensures Utf8Head(b) == Head(c, 3, false)
  {
    assert b[0] == x && b[1] == y && b[2] == z;
  }

  lemma HeadOfFour(b: seq<Octet>, x: Octet, y: Octet, z: Octet, w: Octet, c: Code)
    requires [x, y, z, w] <= b && FormFour(x, y, z, w, c) && c >= 0x10000 && Scalar(c)
    ensures Utf8Head(b) == Head(c, 4, false)
  {
    assert b[0] == x && b[1] == y && b[2] == z && b[3] == w;
  }

  lemma Utf8HeadOfShort(c: Code, b: seq<Octet>)
    requires c <= 0x7FF && Utf8Bytes(c) <= b
    ensures Utf8Head(b) == Head(c, |Utf8Bytes(c)|, false)
  {
    if c <= 0x7F {
      Utf8OneByte(c);
      assert b[0] == Low(c);
    } else {
      Utf8TwoBytes(c);
      HeadOfTwo(b, 0xC0 | Low(c >> 6), 0x80 | Low(c & 0x3F), c);
    }
  }

  lemma ThreeBytesOf(c: Code)
    requires 0x7FF < c <= 0xFFFF && Scalar(c)
    ensures Utf8Bytes(c) == [0xE0 | Low(c >> 12), 0x80 | Low((c >> 6) & 0x3F), 0x80 | Low(c & 0x3F)]
  {
    hide Low;
  }

  lemma Utf8HeadOfThree(c: Code, b: seq<Octet>)
    requires 0x7FF < c <= 0xFFFF && Scalar(c) && Utf8Bytes(c) <= b
    ensures Utf8Head(b) == Head(c, |Utf8Bytes(c)|, false)
  {
    hide Utf8Head, Utf8Bytes, FormThree, Low;
    ThreeBytesOf(c);
    Utf8ThreeBytes(c);
    HeadOfThree(b, 0xE0 | Low(c >> 12), 0x80 | Low((c >> 6) & 0x3F), 0x80 | Low(c & 0x3F), c);
  }

  lemma Utf8HeadOfFour(c: Code, b: seq<Octet>)
    requires 0xFFFF < c && Scalar(c) && Utf8Bytes(c) <= b
    ensures Utf8Head(b) == Head(c, |Utf8Bytes(c)|, false)
  {
    hide Utf8Head, Low, FormFour;
    Utf8FourBytes(c);
    HeadOfFour(b, 0xF0 | Low(c >> 18), 0x80 | Low((c >> 12) & 0x3F), 0x80 | Low((c >> 6) & 0x3F), 0x80 | Low(c & 0x3F), c);
  }

  lemma Utf8HeadOfBytes(c: Code, rest: seq<Octet>)
    requires Scalar(c)
    ensures |Utf8Bytes(c)| >= 1 && Utf8Head(Utf8Bytes(c) + rest) == Head(c, |Utf8Bytes(c)|, false)
  {
    var b := Utf8Bytes(c) + rest;
    if c <= 0x7FF {
      Utf8HeadOfShort(c, b);
    } else if c <= 0xFFFF {
      Utf8HeadOfThree(c, b);
    } else {
      Utf8HeadOfFour(c, b);
    }
  }

  lemma Utf32HeadOfBytes(big: bool, c: Code, rest: seq<Octet>)
    requires Scalar(c)
    ensures Utf32Head(big, Utf32Bytes(big, c) + rest) == Head(c, 4, false)
  {
    Join32(c);
    var b := Utf32Bytes(big, c) + rest;
    if big {
      assert b[0] == Low(c >> 24) && b[1] == Low(c >> 16) && b[2] == Low(c >> 8) && b[3] == Low(c);
    } else {
      assert b[0] == Low(c) && b[1] == Low(c >> 8) && b[2] == Low(c >> 16) && b[3] == Low(c >> 24);
    }
  }

  lemma Utf16HeadOfBytes(big: bool, c: Code, rest: seq<Octet>)
    requires Scalar(c)
    ensures |Utf16Bytes(big, c)| >= 2 && Utf16Head(big, Utf16Bytes(big, c) + rest) == Head(c, |Utf16Bytes(big, c)|, false)
  {
    if c <= 0xFFFF {
      JoinBig16(c);
      JoinLittle16(c);
    } else {
      Utf16Halves(c);
      JoinBig16(HighHalf(c));
      JoinLittle16(HighHalf(c));
      JoinBig16(LowHalf(c));
      JoinLittle16(LowHalf(c));
    }
  }

  /** Decoding starts with the code point whose bytes come first, whatever follows. */
  lemma HeadOfBytes(s: Scheme, c: Code, rest: seq<Octet>)
    requires Scalar(c)
    ensures |BytesOf(s, c)| >= UnitSize(s)
    ensures HeadOf(s, BytesOf(s, c) + rest) == Head(c, |BytesOf(s, c)|, false)
  {
    match s
    case Utf8 => Utf8HeadOfBytes(c, rest);
    case Utf16(big) => Utf16HeadOfBytes(big, c, rest);
    case Utf32(big) => Utf32HeadOfBytes(big, c, rest);
  }

  // ---------------------------------------------------------------- whole texts

  /** Decoding undoes encoding, on any sequence of scalar values. */
  lemma {:induction false} CodesOfAllBytes(s: Scheme, codes: seq<Code>)
    requires AllScalar(codes)
    ensures Codes(s, AllBytes(s, codes)) == codes
  {
    if codes != [] {
      var first, rest := BytesOf(s, codes[0]), AllBytes(s, codes[1..]);
      HeadOfBytes(s, codes[0], rest);
      assert (first + rest)[|first|..] == rest;
      CodesOfAllBytes(s, codes[1..]);
    }
  }

  lemma MarkIsBom(s: Scheme)
    ensures MarkBytes(s) == BytesOf(s, BOM)
  {
  }

  /** The bytes of a text start with the mark exactly when the text starts with U+FEFF. */
  lemma MarkStartsText(s: Scheme, codes: seq<Code>)
    requires AllScalar(codes)
    ensures MarkBytes(s) <= AllBytes(s, codes) <==> codes != [] && codes[0] == BOM
  {
    MarkIsBom(s);
    var b := AllBytes(s, codes);
    if codes != [] {
      HeadOfBytes(s, codes[0], AllBytes(s, codes[1..]));
      if MarkBytes(s) <= b {
        var rest := b[|MarkBytes(s)|..];
        assert b == MarkBytes(s) + rest;
        HeadOfBytes(s, BOM, rest);
      }
    } else {
      assert b == [];
    }
  }

  /** What comes back from an encoding: everything, but for a leading U+FEFF where no mark was written. */
  lemma RoundTrip(e: Encoding, codes: seq<Code>)
    requires AllScalar(codes)
    ensures Decoded(e, Encoded(e, codes)) == if !e.mark && codes != [] && codes[0] == BOM then codes[1..] else codes
  {
    var s, body, b := e.scheme, AllBytes(e.scheme, codes), Encoded(e, codes);
    MarkIsBom(s);
    MarkStartsText(s, codes);
    if e.mark {
      assert b == MarkBytes(s) + body && b[Skipped(s, b)..] == body;
      CodesOfAllBytes(s, codes);
    } else {
      assert b == body;
      if codes != [] && codes[0] == BOM {
        assert body[|MarkBytes(s)|..] == AllBytes(s, codes[1..]);
        CodesOfAllBytes(s, codes[1..]);
      } else {
        assert b[0..] == b;
        CodesOfAllBytes(s, codes);
      }
    }
  }

  lemma TwoBytesRange(c: Octet, c1: Octet)
    ensures TwoBytes(c, c1) <= 0x7FF
  {
  }

  lemma PairIsScalar(hi: Code, lo: Code)
    requires 0xD800 <= hi <= 0xDBFF && 0xDC00 <= lo <= 0xDFFF
    ensures 0x10000 <= Pair(hi, lo) <= 0x10FFFF
  {
  }

  lemma Unit16Range(big: bool, x: Octet, y: Octet)
    ensures Unit16(big, x, y) <= 0xFFFF
  {
  }

  lemma HeadIsScalar(s: Scheme, b: seq<Octet>)
    requires |b| >= UnitSize(s)
    ensures Scalar(HeadOf(s, b).code)
  {
    match s
    case Utf8 =>
      if |b| >= 2 {
        TwoBytesRange(b[0], b[1]);
      }
    case Utf16(big) =>
      Unit16Range(big, b[0], b[1]);
      if |b| >= 4 {
        var hi, lo := Unit16(big, b[0], b[1]), Unit16(big, b[2], b[3]);
        if 0xD800 <= hi <= 0xDBFF && 0xDC00 <= lo <= 0xDFFF {
          PairIsScalar(hi, lo);
        }
      }
    case Utf32(_) =>
  }

  /** Whatever the bytes, only scalar values come out. */
  lemma {:induction false} CodesAreScalar(s: Scheme, b: seq<Octet>)
    ensures AllScalar(Codes(s, b))
    decreases |b|
  {
    if |b| >= UnitSize(s) {
      var h := HeadOf(s, b);
      HeadIsScalar(s, b);
      if !h.cut {
        CodesAreScalar(s, b[h.size..]);
      }
    }
  }

  lemma DecodesScalars(e: Encoding, b: seq<Octet>)
    ensures AllScalar(Decoded(e, b))
  {
    CodesAreScalar(e.scheme, b[Skipped(e.scheme, b)..]);
  }

  /** Exactly these texts survive: scalar values only, and no leading U+FEFF unless a mark is written in front of it. */
  lemma RoundTripExactly(e: Encoding, codes: seq<Code>)
    ensures Decoded(e, Encoded(e, codes)) == codes <==>
            AllScalar(codes) && (e.mark || codes == [] || codes[0] != BOM)
  {
    DecodesScalars(e, Encoded(e, codes));
    if AllScalar(codes) {
      RoundTrip(e, codes);
    }
  }

  /** What was decoded from anything survives any further encoding, up to a leading U+FEFF without a mark. */
  lemma ConversionLosesNothing(from: Encoding, to: Encoding, b: seq<Octet>)
    ensures var codes := Decoded(from, b);
      Decoded(to, Encoded(to, codes)) == if !to.mark && codes != [] && codes[0] == BOM then codes[1..] else codes
  {
    DecodesScalars(from, b);
    RoundTrip(to, Decoded(from, b));
  }

  /** A file converted there and back again is the file it was, byte for byte. */
  lemma ThereAndBack(e: Encoding, via: Encoding, codes: seq<Code>)
    requires AllScalar(codes) && (codes == [] || codes[0] != BOM)
    ensures var b := Encoded(e, codes); Encoded(e, Decoded(via, Encoded(via, Decoded(e, b)))) == b
  {
    RoundTrip(e, codes);
    RoundTrip(via, codes);
  }

  // ---------------------------------------------------------------- nothing but the proper bytes

  lemma OneByteBack(x: Octet)
    requires x < 0x80
    ensures Utf8Bytes(Wide(x)) == [x]
  {
  }

  lemma TwoBytesBack(x: Octet, y: Octet)
    requires x & 0xE0 == 0xC0 && Continues(y)
    ensures var c := TwoBytes(x, y); c <= 0x7FF && 0xC0 | Low(c >> 6) == x && 0x80 | Low(c & 0x3F) == y
  {
  }

  lemma ThreeBytesBack(x: Octet, y: Octet, z: Octet)
    requires x & 0xF0 == 0xE0 && Continues(y) && Continues(z)
    ensures var c := ThreeBytes(x, y, z);
      && c <= 0xFFFF
      && 0xE0 | Low(c >> 12) == x && 0x80 | Low((c >> 6) & 0x3F) == y && 0x80 | Low(c & 0x3F) == z
  {
  }

  lemma FourBytesBack(x: Octet, y: Octet, z: Octet, w: Octet)
    requires x & 0xF8 == 0xF0 && Continues(y) && Continues(z) && Continues(w)
    ensures var c := FourBytes(x, y, z, w);
      && 0xF0 | Low(c >> 18) == x && 0x80 | Low((c >> 12) & 0x3F) == y
      && 0x80 | Low((c >> 6) & 0x3F) == z && 0x80 | Low(c & 0x3F) == w
  {
  }

  lemma TwoBytesAre(c: Code, x: Octet, y: Octet)
    requires 0x7F < c <= 0x7FF && 0xC0 | Low(c >> 6) == x && 0x80 | Low(c & 0x3F) == y
    ensures Utf8Bytes(c) == [x, y]
  {
  }

  lemma ThreeBytesAre(c: Code, x: Octet, y: Octet, z: Octet)
    requires 0x7FF < c <= 0xFFFF && Scalar(c)
    requires 0xE0 | Low(c >> 12) == x && 0x80 | Low((c >> 6) & 0x3F) == y && 0x80 | Low(c & 0x3F) == z
    ensures Utf8Bytes(c) == [x, y, z]
  {
  }

  lemma FourBytesAre(c: Code, x: Octet, y: Octet, z: Octet, w: Octet)
    requires 0xFFFF < c && Scalar(c) && 0xF0 | Low(c >> 18) == x && 0x80 | Low((c >> 12) & 0x3F) == y
    requires 0x80 | Low((c >> 6) & 0x3F) == z && 0x80 | Low(c & 0x3F) == w
    ensures Utf8Bytes(c) == [x, y, z, w]
  {
  }

  lemma CanonicalTwo(b: seq<Octet>, h: Head)
    requires |b| >= 2 && b[0] >= 0x80 && b[0] & 0xE0 == 0xC0 && h == Utf8Head(b) && h.code != REPLACEMENT
    ensures Utf8Bytes(h.code) == b[..h.size]
  {
    TwoBytesBack(b[0], b[1]);
    TwoBytesAre(h.code, b[0], b[1]);
  }

  lemma CanonicalThree(b: seq<Octet>, h: Head)
    requires |b| >= 3 && b[0] >= 0x80 && b[0] & 0xE0 != 0xC0 && b[0] & 0xF0 == 0xE0
    requires h == Utf8Head(b) && h.code != REPLACEMENT
    ensures Utf8Bytes(h.code) == b[..h.size]
  {
    ThreeBytesBack(b[0], b[1], b[2]);
    ThreeBytesAre(h.code, b[0], b[1], b[2]);
  }

  lemma CanonicalFour(b: seq<Octet>, h: Head)
    requires |b| >= 4 && b[0] >= 0x80 && b[0] & 0xE0 != 0xC0 && b[0] & 0xF0 != 0xE0 && b[0] & 0xF8 == 0xF0
    requires h == Utf8Head(b) && h.code != REPLACEMENT
    ensures Utf8Bytes(h.code) == b[..h.size]
  {
    FourBytesBack(b[0], b[1], b[2], b[3]);
    FourBytesAre(h.code, b[0], b[1], b[2], b[3]);
  }

  lemma Utf8Canonical(b: seq<Octet>)
    requires |b| >= 1 && !Utf8Head(b).cut && Utf8Head(b).code != REPLACEMENT
    ensures Utf8Bytes(Utf8Head(b).code) == b[..Utf8Head(b).size]
  {
    var h := Utf8Head(b);
    if b[0] < 0x80 {
      OneByteBack(b[0]);
    } else if b[0] & 0xE0 == 0xC0 {
      CanonicalTwo(b, h);
    } else if b[0] & 0xF0 == 0xE0 {
      CanonicalThree(b, h);
    } else {
      CanonicalFour(b, h);
    }
  }

  lemma Split16(x: Octet, y: Octet)
    ensures Low((Wide(x) << 8) | Wide(y)) == y && Low(((Wide(x) << 8) | Wide(y)) >> 8) == x
    ensures Low(Wide(x) | (Wide(y) << 8)) == x && Low((Wide(x) | (Wide(y) << 8)) >> 8) == y
  {
  }

  lemma Unit16Back(big: bool, x: Octet, y: Octet)
    ensures Bytes16(big, Unit16(big, x, y)) == [x, y]
  {
    Split16(x, y);
  }

  lemma PairBack(hi: Code, lo: Code)
    requires 0xD800 <= hi <= 0xDBFF && 0xDC00 <= lo <= 0xDFFF
    ensures HighHalf(Pair(hi, lo)) == hi && LowHalf(Pair(hi, lo)) == lo && Pair(hi, lo) > 0xFFFF
  {
  }

  lemma Utf16Canonical(big: bool, b: seq<Octet>)
    requires |b| >= 2 && !Utf16Head(big, b).cut && Utf16Head(big, b).code != REPLACEMENT
    ensures Utf16Bytes(big, Utf16Head(big, b).code) == b[..Utf16Head(big, b).size]
  {
    var unit := Unit16(big, b[0], b[1]);
    Unit16Back(big, b[0], b[1]);
    Unit16Range(big, b[0], b[1]);
    if 0xD800 <= unit <= 0xDBFF {
      Unit16Back(big, b[2], b[3]);
      PairBack(unit, Unit16(big, b[2], b[3]));
    }
  }

  lemma Split32(x: Octet, y: Octet, z: Octet, w: Octet)
    ensures var c := (Wide(x) << 24) | (Wide(y) << 16) | (Wide(z) << 8) | Wide(w);
      Low(c >> 24) == x && Low(c >> 16) == y && Low(c >> 8) == z && Low(c) == w
    ensures var c := Wide(x) | (Wide(y) << 8) | (Wide(z) << 16) | (Wide(w) << 24);
      Low(c >> 24) == w && Low(c >> 16) == z && Low(c >> 8) == y && Low(c) == x
  {
  }

  lemma Utf32Canonical(big: bool, b: seq<Octet>)
    requires |b| >= 4 && Utf32Head(big, b).code != REPLACEMENT
    ensures Utf32Bytes(big, Utf32Head(big, b).code) == b[..4]
  {
    Split32(b[0], b[1], b[2], b[3]);
  }

  /** A code point other than the replacement comes from its own bytes: no overlong or otherwise different form is taken for it. */
  lemma OnlyFromItsBytes(s: Scheme, b: seq<Octet>)
    requires |b| >= UnitSize(s) && !HeadOf(s, b).cut && HeadOf(s, b).code != REPLACEMENT
    ensures BytesOf(s, HeadOf(s, b).code) == b[..HeadOf(s, b).size]
  {
    match s
    case Utf8 => Utf8Canonical(b);
    case Utf16(big) => Utf16Canonical(big, b);
    case Utf32(big) => Utf32Canonical(big, b);
  }

  lemma CutIsReplaced(s: Scheme, b: seq<Octet>)
    requires |b| >= UnitSize(s) && HeadOf(s, b).cut
    ensures HeadOf(s, b).code == REPLACEMENT
  {
  }

  /** How many bytes the head of the input announces: by its lead byte, by its first unit, or always four. */
  function Announced(s: Scheme, b: seq<Octet>): nat
    requires |b| >= UnitSize(s)
  {
    match s
    case Utf8 =>
      if 0xC0 <= b[0] < 0xE0 then 2 else if 0xE0 <= b[0] < 0xF0 then 3 else if 0xF0 <= b[0] < 0xF8 then 4 else 1
    case Utf16(big) => if 0xD8 <= (if big then b[0] else b[1]) <= 0xDB then 4 else 2
    case Utf32(_) => 4
  }

  lemma LeadBytes(c: Octet)
    ensures c & 0xE0 == 0xC0 <==> 0xC0 <= c < 0xE0
    ensures c & 0xF0 == 0xE0 <==> 0xE0 <= c < 0xF0
    ensures c & 0xF8 == 0xF0 <==> 0xF0 <= c < 0xF8
  {
  }

  lemma LeadUnit(hi: Octet, lo: Octet)
    ensures 0xD800 <= (Wide(hi) << 8) | Wide(lo) <= 0xDBFF <==> 0xD8 <= hi <= 0xDB
    ensures 0xD800 <= Wide(lo) | (Wide(hi) << 8) <= 0xDBFF <==> 0xD8 <= hi <= 0xDB
  {
  }

  /** The head takes what it announces, well-formed or not, and all of the input where that is cut short. */
  lemma HeadTakesWhatItAnnounces(s: Scheme, b: seq<Octet>)
    requires |b| >= UnitSize(s)
    ensures var h, n := HeadOf(s, b), Announced(s, b);
      h.size == (if |b| < n then |b| else n) && (h.cut <==> |b| < n)
  {
    match s
    case Utf8 => LeadBytes(b[0]);
    case Utf16(big) =>
      LeadUnit(b[0], b[1]);
      LeadUnit(b[1], b[0]);
    case Utf32(_) =>
  }

  /**
   One step of decoding, said without the decoder: the code point whose bytes stand at the front,
   and the replacement where they are those of none.
   */
  lemma HeadExactly(s: Scheme, b: seq<Octet>, c: Code)
    requires |b| >= UnitSize(s) && Scalar(c) && c != REPLACEMENT
    ensures HeadOf(s, b).code == c <==> BytesOf(s, c) <= b
  {
    var h := HeadOf(s, b);
    if BytesOf(s, c) <= b {
      var rest := b[|BytesOf(s, c)|..];
      assert b == BytesOf(s, c) + rest;
      HeadOfBytes(s, c, rest);
    } else if h.code == c {
      if h.cut {
        CutIsReplaced(s, b);
      } else {
        OnlyFromItsBytes(s, b);
      }
      assert false;
    }
  }

  lemma CodesOfHead(s: Scheme, b: seq<Octet>)
    requires |b| >= UnitSize(s) && REPLACEMENT !in Codes(s, b)
    ensures var h := HeadOf(s, b);
      !h.cut && h.code != REPLACEMENT && Codes(s, b) == [h.code] + Codes(s, b[h.size..]) && REPLACEMENT !in Codes(s, b[h.size..])
  {
    var h := HeadOf(s, b);
    assert h.code in Codes(s, b);
    if h.cut {
      CutIsReplaced(s, b);
      assert false;
    }
  }

  /** If nothing had to be replaced, encoding again gives the bytes back, up to a tail too short for a unit. */
  lemma {:induction false} CleanBytesComeBack(s: Scheme, b: seq<Octet>)
    requires REPLACEMENT !in Codes(s, b)
    ensures AllBytes(s, Codes(s, b)) <= b && |b| < |AllBytes(s, Codes(s, b))| + UnitSize(s)
    decreases |b|
  {
    hide HeadOf, BytesOf;
    if |b| >= UnitSize(s) {
      var h := HeadOf(s, b);
      CodesOfHead(s, b);
      OnlyFromItsBytes(s, b);
      var codes := Codes(s, b);
      assert codes[0] == h.code && codes[1..] == Codes(s, b[h.size..]);
      CleanBytesComeBack(s, b[h.size..]);
      assert b == b[..h.size] + b[h.size..];
    }
  }

  // ---------------------------------------------------------------- the loops

  /** One code point from the input at `i`; `rest` and `left` are what decodes from there on, before and after. */
  method NextCode(s: Scheme, b: seq<Octet>, i: nat, ghost rest: seq<Code>)
      returns (code: Code, next: nat, cut: bool, ghost left: seq<Code>)
    requires i + UnitSize(s) <= |b| && rest == Codes(s, b[i..])
    ensures i < next <= |b| && rest == [code] + left
    ensures left == if cut then [] else Codes(s, b[next..])
  {
    var h := HeadOf(s, b[i..]);
    code, next, cut := h.code, i + h.size, h.cut;
    assert b[i..][h.size..] == b[next..];
    left := if cut then [] else Codes(s, b[next..]);
  }

  method Decode(b: seq<Octet>, e: Encoding) returns (out: seq<Code>)
    ensures out == Decoded(e, b)
  {
    out := DecodeFrom(e.scheme, b, Skipped(e.scheme, b));
  }

  method DecodeFrom(s: Scheme, b: seq<Octet>, start: nat) returns (out: seq<Code>)
    requires start <= |b|
    ensures out == Codes(s, b[start..])
  {
    var i: nat := start;
    ghost var rest := Codes(s, b[start..]);
    ghost var all := rest;
    out := [];
    while i + UnitSize(s) <= |b|
      invariant i <= |b| && rest == Codes(s, b[i..])
      invariant all == out + rest
      decreases |b| - i
    {
      var code, next, cut;
      ghost var before, was := out, rest;
      code, next, cut, rest := NextCode(s, b, i, rest);
      out := out + [code];
      Regroup(before, was, code, rest);
      if cut {
        return;
      }
      i := next;
    }
  }

  lemma Regroup(out: seq<Code>, rest: seq<Code>, code: Code, left: seq<Code>)
    requires rest == [code] + left
    ensures out + rest == out + [code] + left
  {
  }

  method Encode(codes: seq<Code>, e: Encoding) returns (out: seq<Octet>)
    ensures out == Encoded(e, codes)
  {
    hide BytesOf, MarkBytes;
    ghost var all := Encoded(e, codes);
    out := if e.mark then MarkBytes(e.scheme) else [];
    assert codes[0..] == codes;
    for i := 0 to |codes|
      invariant all == out + AllBytes(e.scheme, codes[i..])
    {
      assert codes[i..][1..] == codes[i + 1..];
      out := out + BytesOf(e.scheme, codes[i]);
    }
  }

  /** The program: decode, then encode. */
  method Convert(b: seq<Octet>, from: Encoding, to: Encoding) returns (out: seq<Octet>)
    ensures var codes := Decoded(from, b);
      AllScalar(codes) && Decoded(to, out) == if !to.mark && codes != [] && codes[0] == BOM then codes[1..] else codes
  {
    var codes := Decode(b, from);
    out := Encode(codes, to);
    DecodesScalars(from, b);
    ConversionLosesNothing(from, to, b);
  }
}
