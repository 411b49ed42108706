/**
 The forms of the encodings in numbers: what the bytes of a code point add up to in each scheme and
 byte order, and what stands for bytes that are none of these, for the bit operations of
 level1/chgenc.c in both directions.
 */
module ChgencForms {
  import opened Chgenc

  // ---------------------------------------------------------------- UTF-8, section 3 of RFC 3629

  predicate Follower(b: Octet) { 0x80 <= b <= 0xBF }

  predicate Lead2(b: Octet) { 0xC0 <= b <= 0xDF }

  predicate Lead3(b: Octet) { 0xE0 <= b <= 0xEF }

  predicate Lead4(b: Octet) { 0xF0 <= b <= 0xF7 }

  function Sum2(x: Octet, y: Octet): Code {
    (Wide(x) - 0xC0) * 64 + (Wide(y) - 0x80)
  }

  function Sum3(x: Octet, y: Octet, z: Octet): Code {
    (Wide(x) - 0xE0) * 4096 + (Wide(y) - 0x80) * 64 + (Wide(z) - 0x80)
  }

  function Sum4(x: Octet, y: Octet, z: Octet, w: Octet): Code {
    (Wide(x) - 0xF0) * 262144 + (Wide(y) - 0x80) * 4096 + (Wide(z) - 0x80) * 64 + (Wide(w) - 0x80)
  }

  predicate Utf8Form(b: seq<Octet>, c: Code) {
    || (|b| == 1 && c < 0x80 && c == Wide(b[0]))
    || (|b| == 2 && 0x80 <= c < 0x800 && c == Sum2(b[0], b[1]) && Lead2(b[0]) && Follower(b[1]))
    || (|b| == 3 && 0x800 <= c < 0x10000 && c == Sum3(b[0], b[1], b[2]) && Lead3(b[0]) && Follower(b[1]) && Follower(b[2]))
    || (&& |b| == 4 && 0x10000 <= c < 0x110000 && c == Sum4(b[0], b[1], b[2], b[3])
        && Lead4(b[0]) && Follower(b[1]) && Follower(b[2]) && Follower(b[3]))
  }

  // The bytes that the encoder writes.

  function First2(c: Code): Octet { 0xC0 | Low(c >> 6) }

  function First3(c: Code): Octet { 0xE0 | Low(c >> 12) }

  function First4(c: Code): Octet { 0xF0 | Low(c >> 18) }

  /** The byte for the six bits from bit 0, 6 or 12 on. */
  function Next0(c: Code): Octet { 0x80 | Low(c & 0x3F) }

  function Next6(c: Code): Octet { 0x80 | Low((c >> 6) & 0x3F) }

  function Next12(c: Code): Octet { 0x80 | Low((c >> 12) & 0x3F) }

  lemma ShortPieces(c: Code)
    requires c < 0x800
    ensures Utf8Bytes(c) == if c < 0x80 then [Low(c)] else [First2(c), Next0(c)]
  {
    hide Low;
  }

  lemma ThreePieces(c: Code)
    requires 0x800 <= c < 0x10000 && Scalar(c)
    ensures Utf8Bytes(c) == [First3(c), Next6(c), Next0(c)]
  {
    hide Low;
  }

  lemma FourPieces(c: Code)
    requires 0x10000 <= c < 0x110000
    ensures Utf8Bytes(c) == [First4(c), Next12(c), Next6(c), Next0(c)]
  {
    hide Low;
  }

  lemma PiecesAre(c: Code)
    requires Scalar(c)
    ensures Utf8Bytes(c) ==
      if c < 0x80 then [Low(c)] else if c < 0x800 then [First2(c), Next0(c)]
      else if c < 0x10000 then [First3(c), Next6(c), Next0(c)] else [First4(c), Next12(c), Next6(c), Next0(c)]
  {
    hide Utf8Bytes, Low, First2, First3, First4, Next0, Next6, Next12;
    if c < 0x800 {
      ShortPieces(c);
    } else if c < 0x10000 {
      ThreePieces(c);
    } else {
      FourPieces(c);
    }
  }

  lemma Bits1(c: Code)
    requires c < 0x80
    ensures c == Wide(Low(c))
  {
  }

  lemma Bits2(c: Code)
    requires 0x80 <= c < 0x800
    ensures c == Sum2(First2(c), Next0(c)) && Lead2(First2(c)) && Follower(Next0(c))
  {
  }

  lemma Bits3(c: Code)
    requires 0x800 <= c < 0x10000
    ensures c == Sum3(First3(c), Next6(c), Next0(c)) && Lead3(First3(c)) && Follower(Next6(c)) && Follower(Next0(c))
  {
  }

  lemma Bits4(c: Code)
    requires 0x10000 <= c < 0x110000
    ensures c == Sum4(First4(c), Next12(c), Next6(c), Next0(c))
    ensures Lead4(First4(c)) && Follower(Next12(c)) && Follower(Next6(c)) && Follower(Next0(c))
  {
  }

  // The sum determines the bytes.

  lemma Back1(x: Octet)
    ensures x == Low(Wide(x))
  {
  }

  lemma Back2(x: Octet, y: Octet)
    requires Lead2(x) && Follower(y)
    ensures x == First2(Sum2(x, y)) && y == Next0(Sum2(x, y))
  {
  }

  lemma Back3(x: Octet, y: Octet, z: Octet)
    requires Lead3(x) && Follower(y) && Follower(z)
    ensures x == First3(Sum3(x, y, z)) && y == Next6(Sum3(x, y, z)) && z == Next0(Sum3(x, y, z))
  {
  }

  lemma Back4(x: Octet, y: Octet, z: Octet, w: Octet)
    requires Lead4(x) && Follower(y) && Follower(z) && Follower(w)
    ensures x == First4(Sum4(x, y, z, w)) && y == Next12(Sum4(x, y, z, w))
    ensures z == Next6(Sum4(x, y, z, w)) && w == Next0(Sum4(x, y, z, w))
  {
  }

  lemma Utf8BytesForm(c: Code)
    requires Scalar(c)
    ensures Utf8Form(Utf8Bytes(c), c)
  {
    hide Utf8Bytes, Low, Wide, Sum2, Sum3, Sum4, Lead2, Lead3, Lead4, Follower, First2, First3, First4, Next0, Next6, Next12;
    PiecesAre(c);
    if c < 0x80 {
      Bits1(c);
    } else if c < 0x800 {
      Bits2(c);
    } else if c < 0x10000 {
      Bits3(c);
    } else {
      Bits4(c);
    }
  }

  lemma Utf8FormBytes(b: seq<Octet>, c: Code)
    requires Scalar(c) && Utf8Form(b, c)
    ensures b == Utf8Bytes(c)
  {
    hide Utf8Bytes, Low, Wide, Sum2, Sum3, Sum4, Lead2, Lead3, Lead4, Follower, First2, First3, First4, Next0, Next6, Next12;
    PiecesAre(c);
    if |b| == 1 {
      Back1(b[0]);
    } else if |b| == 2 {
      Back2(b[0], b[1]);
    } else if |b| == 3 {
      Back3(b[0], b[1], b[2]);
    } else {
      Back4(b[0], b[1], b[2], b[3]);
    }
  }

  // ---------------------------------------------------------------- UTF-16, section 2 of RFC 2781, and UTF-32

  function Sum16(big: bool, x: Octet, y: Octet): Code {
    if big then Wide(x) * 256 + Wide(y) else Wide(y) * 256 + Wide(x)
  }

  function Sum32(big: bool, x: Octet, y: Octet, z: Octet, w: Octet): Code {
    if big then Wide(x) * 0x100_0000 + Wide(y) * 0x1_0000 + Wide(z) * 256 + Wide(w)
    else Wide(w) * 0x100_0000 + Wide(z) * 0x1_0000 + Wide(y) * 256 + Wide(x)
  }

  predicate IsPair(hi: Code, lo: Code) { 0xD800 <= hi < 0xDC00 <= lo < 0xE000 }

  function PairSum(hi: Code, lo: Code): Code {
    0x10000 + (hi - 0xD800) * 1024 + (lo - 0xDC00)
  }

  predicate Utf16Form(big: bool, b: seq<Octet>, c: Code) {
    || (|b| == 2 && c < 0x10000 && c == Sum16(big, b[0], b[1]))
    || (&& |b| == 4 && c >= 0x10000 && c == PairSum(Sum16(big, b[0], b[1]), Sum16(big, b[2], b[3]))
        && IsPair(Sum16(big, b[0], b[1]), Sum16(big, b[2], b[3])))
  }

  predicate Utf32Form(big: bool, b: seq<Octet>, c: Code) {
    |b| == 4 && c == Sum32(big, b[0], b[1], b[2], b[3])
  }

  lemma BigSum16(x: Octet, y: Octet)
    ensures Wide(x) * 256 + Wide(y) == (Wide(x) << 8) | Wide(y)
  {
  }

  lemma LittleSum16(x: Octet, y: Octet)
    ensures Wide(y) * 256 + Wide(x) == Wide(x) | (Wide(y) << 8)
  {
  }

  lemma BigSum32(x: Octet, y: Octet, z: Octet, w: Octet)
    ensures Wide(x) * 0x100_0000 + Wide(y) * 0x1_0000 + Wide(z) * 256 + Wide(w)
         == (Wide(x) << 24) | (Wide(y) << 16) | (Wide(z) << 8) | Wide(w)
  {
  }

  lemma LittleSum32(x: Octet, y: Octet, z: Octet, w: Octet)
    ensures Wide(w) * 0x100_0000 + Wide(z) * 0x1_0000 + Wide(y) * 256 + Wide(x)
         == Wide(x) | (Wide(y) << 8) | (Wide(z) << 16) | (Wide(w) << 24)
  {
  }

  lemma PairSumIsPair(hi: Code, lo: Code)
    requires IsPair(hi, lo)
    ensures PairSum(hi, lo) == Pair(hi, lo)
  {
  }

  lemma Sum16IsUnit(big: bool, x: Octet, y: Octet)
    ensures Sum16(big, x, y) == Unit16(big, x, y)
  {
    hide Wide;
    BigSum16(x, y);
    LittleSum16(x, y);
  }

  lemma Sum32IsUnit(big: bool, x: Octet, y: Octet, z: Octet, w: Octet)
    ensures Sum32(big, x, y, z, w) == Unit32(big, x, y, z, w)
  {
    hide Wide;
    BigSum32(x, y, z, w);
    LittleSum32(x, y, z, w);
  }

  /** The bytes of a unit add up to it. */
  lemma UnitOfBytes(big: bool, unit: Code)
    requires unit <= 0xFFFF
    ensures |Bytes16(big, unit)| == 2 && Unit16(big, Bytes16(big, unit)[0], Bytes16(big, unit)[1]) == unit
  {
    hide Low, Unit16;
    JoinBig16(unit);
    JoinLittle16(unit);
  }

  lemma HalvesArePair(c: Code)
    requires 0xFFFF < c <= 0x10FFFF
    ensures IsPair(HighHalf(c), LowHalf(c)) && PairSum(HighHalf(c), LowHalf(c)) == c
    ensures HighHalf(c) <= 0xFFFF && LowHalf(c) <= 0xFFFF
  {
    hide HighHalf, LowHalf, PairSum, Pair;
    Utf16Halves(c);
    PairSumIsPair(HighHalf(c), LowHalf(c));
  }

  lemma PairHalves(hi: Code, lo: Code)
    requires IsPair(hi, lo)
    ensures HighHalf(PairSum(hi, lo)) == hi && LowHalf(PairSum(hi, lo)) == lo && PairSum(hi, lo) > 0xFFFF
  {
    hide HighHalf, LowHalf, PairSum, Pair;
    PairSumIsPair(hi, lo);
    PairBack(hi, lo);
  }

  lemma Utf16BytesForm(big: bool, c: Code)
    requires Scalar(c)
    ensures Utf16Form(big, Utf16Bytes(big, c), c)
  {
    hide Sum16, Unit16, PairSum, IsPair, HighHalf, LowHalf, Bytes16;
    var b := Utf16Bytes(big, c);
    if c <= 0xFFFF {
      UnitOfBytes(big, c);
      Sum16IsUnit(big, b[0], b[1]);
    } else {
      HalvesArePair(c);
      UnitOfBytes(big, HighHalf(c));
      UnitOfBytes(big, LowHalf(c));
      Sum16IsUnit(big, b[0], b[1]);
      Sum16IsUnit(big, b[2], b[3]);
    }
  }

  lemma Sum16Back(big: bool, x: Octet, y: Octet)
    ensures Bytes16(big, Sum16(big, x, y)) == [x, y]
  {
    hide Sum16, Unit16, Bytes16;
    Sum16IsUnit(big, x, y);
    Unit16Back(big, x, y);
  }

  lemma Utf16FormBytes(big: bool, b: seq<Octet>, c: Code)
    requires Scalar(c) && Utf16Form(big, b, c)
    ensures b == Utf16Bytes(big, c)
  {
    hide Sum16, PairSum, IsPair, HighHalf, LowHalf, Bytes16;
    Sum16Back(big, b[0], b[1]);
    if |b| == 4 {
      Sum16Back(big, b[2], b[3]);
      PairHalves(Sum16(big, b[0], b[1]), Sum16(big, b[2], b[3]));
    }
  }

  // Bytes 1, 2 and 3 of a word; byte 0 is `Low`.

  function Byte1(c: Code): Octet { Low(c >> 8) }

  function Byte2(c: Code): Octet { Low(c >> 16) }

  function Byte3(c: Code): Octet { Low(c >> 24) }

  lemma Bytes32Are(big: bool, c: Code)
    ensures Utf32Bytes(big, c) == if big then [Byte3(c), Byte2(c), Byte1(c), Low(c)] else [Low(c), Byte1(c), Byte2(c), Byte3(c)]
  {
  }

  lemma BigJoin(c: Code)
    ensures Unit32(true, Byte3(c), Byte2(c), Byte1(c), Low(c)) == c
  {
  }

  lemma LittleJoin(c: Code)
    ensures Unit32(false, Low(c), Byte1(c), Byte2(c), Byte3(c)) == c
  {
  }

  lemma BigSplit(x: Octet, y: Octet, z: Octet, w: Octet)
    ensures var c := Unit32(true, x, y, z, w); Byte3(c) == x && Byte2(c) == y && Byte1(c) == z && Low(c) == w
  {
  }

  lemma LittleSplit(x: Octet, y: Octet, z: Octet, w: Octet)
    ensures var c := Unit32(false, x, y, z, w); Byte3(c) == w && Byte2(c) == z && Byte1(c) == y && Low(c) == x
  {
  }

  lemma Utf32Exactly(big: bool, b: seq<Octet>, c: Code)
    ensures Utf32Form(big, b, c) <==> b == Utf32Bytes(big, c)
  {
    hide Utf32Bytes, Low, Byte1, Byte2, Byte3, Sum32, Unit32;
    Bytes32Are(big, c);
    BigJoin(c);
    LittleJoin(c);
    if |b| == 4 {
      Sum32IsUnit(big, b[0], b[1], b[2], b[3]);
      BigSplit(b[0], b[1], b[2], b[3]);
      LittleSplit(b[0], b[1], b[2], b[3]);
    }
  }

  // ---------------------------------------------------------------- what a step yields

  /** These bytes are the form of the code point in this scheme. */
  predicate Form(s: Scheme, b: seq<Octet>, c: Code) {
    match s
    case Utf8 => Utf8Form(b, c)
    case Utf16(big) => Utf16Form(big, b, c)
    case Utf32(big) => Utf32Form(big, b, c)
  }

  /** The encoder writes exactly the forms. */
  lemma FormExactly(s: Scheme, b: seq<Octet>, c: Code)
    requires Scalar(c)
    ensures Form(s, b, c) <==> b == BytesOf(s, c)
  {
    hide Utf8Form, Utf16Form, Utf32Form, Utf8Bytes, Utf16Bytes, Utf32Bytes, Scalar;
    match s
    case Utf8 =>
      Utf8BytesForm(c);
      if Utf8Form(b, c) {
        Utf8FormBytes(b, c);
      }
    case Utf16(big) =>
      Utf16BytesForm(big, c);
      if Utf16Form(big, b, c) {
        Utf16FormBytes(big, b, c);
      }
    case Utf32(big) => Utf32Exactly(big, b, c);
  }

  /** A form at the front of the input is decoded to its code point, and taken whole. */
  lemma FormIsDecoded(s: Scheme, b: seq<Octet>, n: nat, c: Code)
    requires Scalar(c) && n <= |b| && Form(s, b[..n], c)
    ensures UnitSize(s) <= |b| && HeadOf(s, b) == Head(c, n, false)
  {
    hide Form, HeadOf, BytesOf, Scalar;
    FormExactly(s, b[..n], c);
    HeadOfBytes(s, c, b[n..]);
    assert b == b[..n] + b[n..];
  }

  /** No form of a scalar value stands at the front. */
  ghost predicate NoForm(s: Scheme, b: seq<Octet>) {
    forall n: nat, c {:trigger Form(s, b[..n], c)} :: n <= |b| && Scalar(c) ==> !Form(s, b[..n], c)
  }

  /** Where none does the step yields U+FFFD: EF BF BD in UTF-8. */
  lemma OtherwiseReplaced(s: Scheme, b: seq<Octet>)
    requires |b| >= UnitSize(s) && NoForm(s, b)
    ensures HeadOf(s, b).code == 0xFFFD && Utf8Bytes(HeadOf(s, b).code) == [0xEF, 0xBF, 0xBD]
  {
    hide Form, HeadOf, BytesOf, Scalar, Utf8Bytes;
    var c := HeadOf(s, b).code;
    HeadIsScalar(s, b);
    if c != REPLACEMENT {
      HeadExactly(s, b, c);
      var n := |BytesOf(s, c)|;
      assert b[..n] == BytesOf(s, c);
      FormExactly(s, b[..n], c);
    }
    ReplacementBytes();
  }

  lemma ReplacementBytes()
    ensures Utf8Bytes(0xFFFD) == [0xEF, 0xBF, 0xBD]
  {
    Utf8FormBytes([0xEF, 0xBF, 0xBD], 0xFFFD);
  }

  /** A cut sequence is none of the forms, and ends the decoding with that code point. */
  lemma CutIsNoForm(s: Scheme, b: seq<Octet>)
    requires |b| >= UnitSize(s) && HeadOf(s, b).cut
    ensures NoForm(s, b) && Codes(s, b) == [0xFFFD]
  {
    hide Form, HeadOf, Scalar, Utf8Bytes;
    forall n: nat, c | n <= |b| && Scalar(c) ensures !Form(s, b[..n], c) {
      if Form(s, b[..n], c) {
        FormIsDecoded(s, b, n, c);
        assert false;
      }
    }
    OtherwiseReplaced(s, b);
  }

  /** The marks, byte for byte. */
  lemma MarksAre(codes: seq<Code>)
    ensures [0xEF, 0xBB, 0xBF] <= Encoded(Encoding(Utf8, true), codes)
    ensures [0xFE, 0xFF] <= Encoded(Encoding(Utf16(true), true), codes) && [0xFF, 0xFE] <= Encoded(Encoding(Utf16(false), true), codes)
    ensures [0, 0, 0xFE, 0xFF] <= Encoded(Encoding(Utf32(true), true), codes)
    ensures [0xFF, 0xFE, 0, 0] <= Encoded(Encoding(Utf32(false), true), codes)
  {
  }

  /** What is no scalar value: a surrogate is written as U+FFFD, except in UTF-32, which writes every number as it is. */
  lemma NonScalarBytes(c: Code, big: bool)
    ensures 0xD800 <= c <= 0xDFFF ==>
              && BytesOf(Utf8, c) == [0xEF, 0xBF, 0xBD]
              && BytesOf(Utf16(big), c) == if big then [0xFF, 0xFD] else [0xFD, 0xFF]
    ensures c > 0x10FFFF ==> BytesOf(Utf8, c) == [0xEF, 0xBB, 0xBF, 0xEF, 0xBF, 0xBD]
    ensures |BytesOf(Utf32(big), c)| == 4
    ensures var b := BytesOf(Utf32(big), c); Sum32(big, b[0], b[1], b[2], b[3]) == c
  {
    ReplacementBytes();
    Utf32Exactly(big, Utf32Bytes(big, c), c);
  }
}
