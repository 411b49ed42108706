/**
 Words of 32 bits, and what the operations of section 3.2 of FIPS 180-4 do to each bit.

 The functions are those of the macros of src/smoltar/sha256.c.  Bit by bit a rotation is a step around
 the word, a shift drops what it moves out, and the three-word functions choose or take the majority.
 */
module WordBits {

  type Word = bv32

  /** A place in a word, and by how much one can shift it. */
  /** Addition of words, modulo 2 to the 32. */
  function Add(x: Word, y: Word): Word { x + y }

  function And(x: Word, y: Word): Word { x & y }

  function ExOr(x: Word, y: Word): Word { x ^ y }

  function Not(x: Word): Word { x ^ 0xFFFF_FFFF }

  function Right(x: Word, n: bv6): Word
    requires n < 32
  {
    x >> n
  }

  function RotRight(x: Word, n: bv6): Word
    requires 0 < n < 32
  {
    (x >> n) | (x << (32 - n))
  }

  predicate Bit(x: Word, i: bv6)
    requires i < 32
  {
    (x >> i) & 1 == 1
  }

  // On the operators themselves.

  lemma AndAt(x: Word, y: Word, i: bv6)
    requires i < 32
    ensures Bit(x & y, i) == (Bit(x, i) && Bit(y, i))
  {
  }

  lemma XorAt(x: Word, y: Word, i: bv6)
    requires i < 32
    ensures Bit(x ^ y, i) == (Bit(x, i) != Bit(y, i))
  {
  }

  lemma NotAt(x: Word, i: bv6)
    requires i < 32
    ensures Bit(x ^ 0xFFFF_FFFF, i) == !Bit(x, i)
  {
  }

  lemma RightAt(x: Word, n: bv6, i: bv6)
    requires 0 < n < 32 && i < 32
    ensures Bit(x >> n, i) == (i + n < 32 && Bit(x, (i + n) & 31))
  {
  }

  lemma RotRightAt(x: Word, n: bv6, i: bv6)
    requires 0 < n < 32 && i < 32
    ensures Bit((x >> n) | (x << (32 - n)), i) == Bit(x, (i + n) & 31)
  {
  }

  // On the functions.

  lemma AndBits(x: Word, y: Word, i: bv6)
    requires i < 32
    ensures Bit(And(x, y), i) == (Bit(x, i) && Bit(y, i))
  {
    hide Bit;
    AndAt(x, y, i);
  }

  lemma ExOrBits(x: Word, y: Word, i: bv6)
    requires i < 32
    ensures Bit(ExOr(x, y), i) == (Bit(x, i) != Bit(y, i))
  {
    hide Bit;
    XorAt(x, y, i);
  }

  lemma NotBits(x: Word, i: bv6)
    requires i < 32
    ensures Bit(Not(x), i) == !Bit(x, i)
  {
    hide Bit;
    NotAt(x, i);
  }

  lemma RightBits(x: Word, n: bv6, i: bv6)
    requires 0 < n < 32 && i < 32
    ensures Bit(Right(x, n), i) == (i + n < 32 && Bit(x, (i + n) & 31))
  {
    hide Bit;
    RightAt(x, n, i);
  }

  /** A rotation moves each bit down by `n`, around the end of the word. */
  lemma RotRightBits(x: Word, n: bv6, i: bv6)
    requires 0 < n < 32 && i < 32
    ensures Bit(RotRight(x, n), i) == Bit(x, (i + n) & 31)
  {
    hide Bit;
    RotRightAt(x, n, i);
  }

  // ---------------------------------------------------------------- section 4.1.2

  function Ch(x: Word, y: Word, z: Word): Word { ExOr(And(x, y), And(Not(x), z)) }

  function Maj(x: Word, y: Word, z: Word): Word { ExOr(ExOr(And(x, y), And(x, z)), And(y, z)) }

  function Ep0(x: Word): Word { ExOr(ExOr(RotRight(x, 2), RotRight(x, 13)), RotRight(x, 22)) }

  function Ep1(x: Word): Word { ExOr(ExOr(RotRight(x, 6), RotRight(x, 11)), RotRight(x, 25)) }

  function Sig0(x: Word): Word { ExOr(ExOr(RotRight(x, 7), RotRight(x, 18)), Right(x, 3)) }

  function Sig1(x: Word): Word { ExOr(ExOr(RotRight(x, 17), RotRight(x, 19)), Right(x, 10)) }

  /** `Ch` chooses. */
  lemma ChBits(x: Word, y: Word, z: Word, i: bv6)
    requires i < 32
    ensures Bit(Ch(x, y, z), i) == if Bit(x, i) then Bit(y, i) else Bit(z, i)
  {
    hide Bit, And, Not, ExOr;
    NotBits(x, i);
    AndBits(x, y, i);
    AndBits(Not(x), z, i);
    ExOrBits(And(x, y), And(Not(x), z), i);
  }

  /** `Maj` takes the majority. */
  lemma MajBits(x: Word, y: Word, z: Word, i: bv6)
    requires i < 32
    ensures Bit(Maj(x, y, z), i) == ((Bit(x, i) && Bit(y, i)) || (Bit(x, i) && Bit(z, i)) || (Bit(y, i) && Bit(z, i)))
  {
    hide Bit, And, Not, ExOr;
    AndBits(x, y, i);
    AndBits(x, z, i);
    AndBits(y, z, i);
    ExOrBits(And(x, y), And(x, z), i);
    ExOrBits(ExOr(And(x, y), And(x, z)), And(y, z), i);
  }

  lemma SumBits(x: Word, y: Word, z: Word, i: bv6)
    requires i < 32
    ensures Bit(ExOr(ExOr(x, y), z), i) == ((Bit(x, i) != Bit(y, i)) != Bit(z, i))
  {
    hide Bit, ExOr;
    ExOrBits(x, y, i);
    ExOrBits(ExOr(x, y), z, i);
  }

  lemma ThreeRotations(x: Word, l: bv6, m: bv6, n: bv6, i: bv6)
    requires 0 < l < 32 && 0 < m < 32 && 0 < n < 32 && i < 32
    ensures Bit(ExOr(ExOr(RotRight(x, l), RotRight(x, m)), RotRight(x, n)), i)
         == ((Bit(x, (i + l) & 31) != Bit(x, (i + m) & 31)) != Bit(x, (i + n) & 31))
  {
    hide Bit, RotRight, ExOr;
    SumBits(RotRight(x, l), RotRight(x, m), RotRight(x, n), i);
    RotRightBits(x, l, i);
    RotRightBits(x, m, i);
    RotRightBits(x, n, i);
  }

  lemma RotationsAndShift(x: Word, l: bv6, m: bv6, n: bv6, i: bv6)
    requires 0 < l < 32 && 0 < m < 32 && 0 < n < 32 && i < 32
    ensures Bit(ExOr(ExOr(RotRight(x, l), RotRight(x, m)), Right(x, n)), i)
         == ((Bit(x, (i + l) & 31) != Bit(x, (i + m) & 31)) != (i + n < 32 && Bit(x, (i + n) & 31)))
  {
    hide Bit, RotRight, ExOr, Right;
    SumBits(RotRight(x, l), RotRight(x, m), Right(x, n), i);
    RotRightBits(x, l, i);
    RotRightBits(x, m, i);
    RightBits(x, n, i);
  }

  /** The sums of three rotations. */
  lemma EpBits(x: Word, i: bv6)
    requires i < 32
    ensures Bit(Ep0(x), i) == ((Bit(x, (i + 2) & 31) != Bit(x, (i + 13) & 31)) != Bit(x, (i + 22) & 31))
    ensures Bit(Ep1(x), i) == ((Bit(x, (i + 6) & 31) != Bit(x, (i + 11) & 31)) != Bit(x, (i + 25) & 31))
  {
    hide Bit, RotRight, ExOr;
    ThreeRotations(x, 2, 13, 22, i);
    ThreeRotations(x, 6, 11, 25, i);
  }

  /** The sums of two rotations and a shift. */
  lemma SigBits(x: Word, i: bv6)
    requires i < 32
    ensures Bit(Sig0(x), i) == ((Bit(x, (i + 7) & 31) != Bit(x, (i + 18) & 31)) != (i + 3 < 32 && Bit(x, (i + 3) & 31)))
    ensures Bit(Sig1(x), i) == ((Bit(x, (i + 17) & 31) != Bit(x, (i + 19) & 31)) != (i + 10 < 32 && Bit(x, (i + 10) & 31)))
  {
    hide Bit, RotRight, ExOr, Right;
    RotationsAndShift(x, 7, 18, 3, i);
    RotationsAndShift(x, 17, 19, 10, i);
  }

  /** Addition keeps the low 32 bits of the sum. */
  lemma AddIsModular(x: Word, y: Word)
    ensures Add(x, y) as bv64 == ((x as bv64) + (y as bv64)) & 0xFFFF_FFFF
  {
  }
}
