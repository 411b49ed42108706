/**
 The numbers, the checksum and the header of the archives of src/smoltar/smoltar.c.

 Numbers are octal digits in fields of fixed width; the checksum is the sum of all bytes of the header
 with spaces in its own field; a header is one block.
 */
module SmoltarFormat {
  import opened Bytes

  const BLOCK_SIZE := 512
  const ZERO_DIGIT: Byte := 48
  const SPACE: Byte := 32

  // ---------------------------------------------------------------- octal fields

  function Pow8(n: nat): (r: nat)
    ensures r > 0
  {
    if n == 0 then 1 else 8 * Pow8(n - 1)
  }

  /** The last `k` octal digits of a number. */
  function OctalDigits(v: nat, k: nat): (r: seq<Byte>)
    ensures |r| == k
    decreases k, v
  {
    if k == 0 then [] else OctalDigits(v / 8, k - 1) + [ZERO_DIGIT + v % 8]
  }

  function Most(k: nat): nat { Pow8(k) - 1 }

  /** A field of `n` bytes: digits, or all sevens where the number is too large, and a NUL. */
  function OctalField(v: nat, n: nat): (r: seq<Byte>)
    requires n >= 2
    ensures |r| == n
  {
    OctalDigits(if v <= Most(n - 1) then v else Most(n - 1), n - 1) + [0]
  }

  predicate OctalDigit(b: Byte) { ZERO_DIGIT <= b <= ZERO_DIGIT + 7 }

  /** The number at the start of `s`, up to the first byte that is not an octal digit, behind the digits of `acc`. */
  function LeadingOctal(s: seq<Byte>, acc: nat): nat
    decreases |s|
  {
    if s == [] || !OctalDigit(s[0]) then acc else LeadingOctal(s[1..], 8 * acc + (s[0] - ZERO_DIGIT))
  }

  /** Reading the digits of a number gives the number. */
  lemma {:induction false} DigitsReadBack(v: nat, k: nat, rest: seq<Byte>)
    requires v < Pow8(k)
    ensures LeadingOctal(OctalDigits(v, k) + rest, 0) == LeadingOctal(rest, v)
    decreases k
  {
    if k == 0 {
      assert OctalDigits(v, k) + rest == rest;
    } else {
      var last := [ZERO_DIGIT + v % 8];
      DigitsReadBack(v / 8, k - 1, last + rest);
      assert OctalDigits(v, k) + rest == OctalDigits(v / 8, k - 1) + (last + rest);
      assert (last + rest)[1..] == rest;
    }
  }

  /** A number survives a field of `n` bytes if it fits, and becomes the largest that fits if not. */
  lemma FieldReadsBack(v: nat, n: nat, rest: seq<Byte>)
    requires n >= 2
    ensures LeadingOctal(OctalField(v, n) + rest, 0) == if v < Pow8(n - 1) then v else Pow8(n - 1) - 1
  {
    var w := if v <= Most(n - 1) then v else Most(n - 1);
    DigitsReadBack(w, n - 1, [0] + rest);
    assert OctalField(v, n) + rest == OctalDigits(w, n - 1) + ([0] + rest);
  }

  /** What is left of a number when its last `k` octal digits are taken off. */
  function Shifted(v: nat, k: nat): nat {
    if k == 0 then v else Shifted(v, k - 1) / 8
  }

  lemma {:induction false} ShiftedFirst(v: nat, k: nat)
    ensures Shifted(v / 8, k) == Shifted(v, k + 1)
  {
    if k > 0 {
      ShiftedFirst(v, k - 1);
    }
  }

  /** One more digit in front. */
  lemma {:induction false} DigitInFront(v: nat, k: nat)
    ensures OctalDigits(v, k + 1) == [ZERO_DIGIT + Shifted(v, k) % 8] + OctalDigits(v, k)
    decreases k
  {
    if k == 0 {
      assert OctalDigits(v / 8, 0) == [];
    } else {
      ShiftedFirst(v, k - 1);
      DigitInFront(v / 8, k - 1);
      assert OctalDigits(v, k + 1) == OctalDigits(v / 8, k) + [ZERO_DIGIT + v % 8];
      assert OctalDigits(v, k) == OctalDigits(v / 8, k - 1) + [ZERO_DIGIT + v % 8];
    }
  }

  /** The number is too large exactly when more than one digit would be left for the first place. */
  lemma {:induction false} TooLarge(v: nat, k: nat)
    ensures Shifted(v, k) > 7 <==> v >= Pow8(k + 1)
    decreases k
  {
    if k > 0 {
      ShiftedFirst(v, k - 1);
      TooLarge(v / 8, k - 1);
    }
  }

  lemma {:induction false} AllSevens(k: nat)
    ensures OctalDigits(Most(k), k) == seq(k, _ => ZERO_DIGIT + 7)
  {
    if k > 0 {
      AllSevens(k - 1);
      assert Most(k) / 8 == Most(k - 1) && Most(k) % 8 == 7;
    }
  }

  /** Write the field of `size` bytes at `at`. */
  method FormatOctal(dest: array<Byte>, at: nat, v: nat, size: nat)
    requires size >= 2 && at + size <= dest.Length
    modifies dest
    ensures forall k {:trigger dest[k]} :: 0 <= k < dest.Length ==>
              dest[k] == if at <= k < at + size then OctalField(v, size)[k - at] else old(dest[k])
  {
    dest[at + size - 1] := 0;
    var value := WriteDigits(dest, at, v, size - 2);
    TooLarge(v, size - 2);
    DigitInFront(v, size - 2);
    if value > 7 {
      for i := 0 to size - 1
        invariant forall k {:trigger dest[k]} :: 0 <= k < dest.Length && !(at <= k < at + size - 1) ==>
                    dest[k] == if k == at + size - 1 then 0 else old(dest[k])
        invariant forall k {:trigger dest[k]} :: at <= k < at + i ==> dest[k] == ZERO_DIGIT + 7
      {
        dest[at + i] := ZERO_DIGIT + 7;
      }
      AllSevens(size - 1);
    } else {
      dest[at] := ZERO_DIGIT + value % 8;
    }
  }

  /** The last `count` digits, from right to left; what is left of the number is returned. */
  method WriteDigits(dest: array<Byte>, at: nat, v: nat, count: nat) returns (value: nat)
    requires at + count + 1 <= dest.Length
    modifies dest
    ensures value == Shifted(v, count)
    ensures forall k {:trigger dest[k]} :: 0 <= k < dest.Length ==>
              dest[k] == if at < k <= at + count then OctalDigits(v, count)[k - at - 1] else old(dest[k])
  {
    value := v;
    var i: nat := count;
    while i > 0
      invariant i <= count && value == Shifted(v, count - i)
      invariant forall k {:trigger dest[k]} :: 0 <= k < dest.Length ==>
                  dest[k] == if at + i < k <= at + count then OctalDigits(v, count - i)[k - at - i - 1] else old(dest[k])
    {
      DigitInFront(v, count - i);
      dest[at + i] := ZERO_DIGIT + value % 8;
      value := value / 8;
      i := i - 1;
    }
  }

  /** `parse_octal`: the loop over a field. */
  method ParseOctal(str: seq<Byte>) returns (result: nat)
    ensures result == LeadingOctal(str, 0)
  {
    result := 0;
    var i: nat := 0;
    while i < |str| && OctalDigit(str[i])
      invariant i <= |str| && LeadingOctal(str, 0) == LeadingOctal(str[i..], result)
    {
      assert str[i..][1..] == str[i + 1..];
      result := 8 * result + (str[i] - ZERO_DIGIT);
      i := i + 1;
    }
  }

  // ---------------------------------------------------------------- the checksum

  predicate InChecksum(i: nat) { 148 <= i < 156 }

  /** The sum of the first `n` bytes, the checksum field counted as spaces. */
  function SumTo(h: seq<Byte>, n: nat): (r: nat)
    requires n <= |h|
    ensures r <= 255 * n
  {
    if n == 0 then 0 else SumTo(h, n - 1) + if InChecksum(n - 1) then SPACE else h[n - 1]
  }

  function Checksum(h: seq<Byte>): nat
    requires |h| == BLOCK_SIZE
  {
    SumTo(h, BLOCK_SIZE)
  }

  method CalculateChecksum(h: array<Byte>) returns (sum: nat)
    requires h.Length == BLOCK_SIZE
    ensures sum == Checksum(h[..])
  {
    sum := 0;
    for i := 0 to BLOCK_SIZE
      invariant sum == SumTo(h[..], i)
    {
      if i >= 148 && i < 156 {
        sum := sum + SPACE;
      } else {
        sum := sum + h[i];
      }
    }
  }

  /** The field itself does not matter for the sum. */
  lemma {:induction false} SumIgnoresField(a: seq<Byte>, b: seq<Byte>, n: nat)
    requires n <= |a| && |a| == |b| && forall k :: 0 <= k < |a| && !InChecksum(k) ==> a[k] == b[k]
    ensures SumTo(a, n) == SumTo(b, n)
  {
    if n > 0 {
      SumIgnoresField(a, b, n - 1);
    }
  }

  // ---------------------------------------------------------------- the header

  const NAME_SIZE := 100
  const SEPARATORS: seq<Byte> := [47, 92]
  const USTAR: seq<Byte> := [117, 115, 116, 97, 114]

  /** The header of a regular file, with spaces for its checksum. `hex` is the SHA-256 in hexadecimal. */
  function BlankByte(name: seq<Byte>, size: nat, now: nat, hex: seq<Byte>, k: nat): Byte
  {
    if k < 100 then if k < |name| && k < NAME_SIZE - 1 then name[k] else 0
    else if k < 108 then OctalField(420, 8)[k - 100]
    else if k < 116 then OctalField(0, 8)[k - 108]
    else if k < 124 then OctalField(0, 8)[k - 116]
    else if k < 136 then OctalField(size, 12)[k - 124]
    else if k < 148 then OctalField(now, 12)[k - 136]
    else if k < 156 then SPACE
    else if k == 156 then ZERO_DIGIT
    else if k < 257 then if k - 157 < |hex| && k - 157 < 99 then hex[k - 157] else 0
    else if k < 262 then USTAR[k - 257]
    else if k == 263 || k == 264 then ZERO_DIGIT
    else 0
  }

  function Blank(name: seq<Byte>, size: nat, now: nat, hex: seq<Byte>): (r: seq<Byte>)
    ensures |r| == BLOCK_SIZE
  {
    seq(BLOCK_SIZE, k requires 0 <= k < BLOCK_SIZE => BlankByte(name, size, now, hex, k))
  }

  /** The whole header: seven digits of checksum, and the space that stays behind them. */
  function Header(name: seq<Byte>, size: nat, now: nat, hex: seq<Byte>): (r: seq<Byte>)
    ensures |r| == BLOCK_SIZE
  {
    var blank := Blank(name, size, now, hex);
    var field := OctalField(Checksum(blank), 8);
    seq(BLOCK_SIZE, k requires 0 <= k < BLOCK_SIZE => if 148 <= k < 155 then field[k - 148] else blank[k])
  }

  lemma ChecksumFits(h: seq<Byte>)
    requires |h| == BLOCK_SIZE
    ensures Checksum(h) < Pow8(7)
  {
    assert Pow8(7) == 8 * (8 * (8 * (8 * (8 * (8 * 8)))));
  }

  /** Every header that is written passes the test of the reader. */
  lemma HeaderPassesChecksum(name: seq<Byte>, size: nat, now: nat, hex: seq<Byte>)
    ensures var h := Header(name, size, now, hex); LeadingOctal(h[148..156], 0) == Checksum(h)
  {
    var h, blank := Header(name, size, now, hex), Blank(name, size, now, hex);
    SumIgnoresField(h, blank, BLOCK_SIZE);
    ChecksumFits(blank);
    var sum := Checksum(blank);
    var digits := OctalDigits(sum, 7);
    DigitsReadBack(sum, 7, [SPACE]);
    assert h[148..156] == digits + [SPACE];
  }

  /** The size field reads back, or as the largest size where the size does not fit. */
  lemma HeaderSize(name: seq<Byte>, size: nat, now: nat, hex: seq<Byte>)
    ensures LeadingOctal(Header(name, size, now, hex)[124..136], 0) == if size < Pow8(11) then size else Pow8(11) - 1
  {
    FieldReadsBack(size, 12, []);
    assert Header(name, size, now, hex)[124..136] == OctalField(size, 12) + [];
  }

  /** The characters of a string, up to its NUL. */
  function CString(s: seq<Byte>): seq<Byte> {
    if s == [] || s[0] == 0 then [] else [s[0]] + CString(s[1..])
  }

  lemma {:induction false} CStringOf(name: seq<Byte>, rest: seq<Byte>)
    requires 0 !in name && rest != [] && rest[0] == 0
    ensures CString(name + rest) == name
  {
    if name == [] {
      assert name + rest == rest;
    } else {
      assert (name + rest)[1..] == name[1..] + rest;
      CStringOf(name[1..], rest);
    }
  }

  function Shortened(name: seq<Byte>): seq<Byte> {
    if |name| < NAME_SIZE then name else name[..NAME_SIZE - 1]
  }

  /** The name reads back, cut to 99 bytes. */
  lemma HeaderName(name: seq<Byte>, size: nat, now: nat, hex: seq<Byte>, end: nat)
    requires 0 !in name && NAME_SIZE <= end <= BLOCK_SIZE
    ensures CString(Header(name, size, now, hex)[..end]) == Shortened(name)
  {
    var h, short := Header(name, size, now, hex)[..end], Shortened(name);
    assert h == short + h[|short|..];
    CStringOf(short, h[|short|..]);
  }

  predicate HasSeparator(name: seq<Byte>) {
    exists k :: 0 <= k < |name| && name[k] in SEPARATORS
  }

  /** Copy at most `limit` bytes into a field that is already zero. */
  method Put(h: array<Byte>, at: nat, s: seq<Byte>, limit: nat)
    requires at + limit <= h.Length
    modifies h
    ensures forall k {:trigger h[k]} :: 0 <= k < h.Length ==>
              h[k] == if at <= k < at + limit && k - at < |s| then s[k - at] else old(h[k])
  {
    var n := if |s| < limit then |s| else limit;
    for i := 0 to n
      invariant forall k {:trigger h[k]} :: 0 <= k < h.Length ==> h[k] == if at <= k < at + i then s[k - at] else old(h[k])
    {
      h[at + i] := s[i];
    }
  }

  method SeparatorIn(name: seq<Byte>) returns (found: bool)
    ensures found == HasSeparator(name)
  {
    for k := 0 to |name|
      invariant forall j :: 0 <= j < k ==> name[j] !in SEPARATORS
    {
      if name[k] == 47 || name[k] == 92 {
        return true;
      }
    }
    return false;
  }

  method InitHeader(h: array<Byte>, name: seq<Byte>, size: nat, now: nat, hex: seq<Byte>) returns (ok: bool)
    requires h.Length == BLOCK_SIZE
    modifies h
    ensures ok == !HasSeparator(name)
    ensures ok ==> h[..] == Header(name, size, now, hex)
  {
    var bad := SeparatorIn(name);
    if bad {
      return false;
    }
    Clear(h);
    FirstFields(h, name, size, now);
    LastFields(h, name, size, now, hex);
    StoreChecksum(h, name, size, now, hex);
    ok := true;
  }

  method Clear(h: array<Byte>)
    requires h.Length == BLOCK_SIZE
    modifies h
    ensures forall k {:trigger h[k]} :: 0 <= k < BLOCK_SIZE ==> h[k] == 0
  {
    for i := 0 to BLOCK_SIZE
      invariant forall k {:trigger h[k]} :: 0 <= k < i ==> h[k] == 0
    {
      h[i] := 0;
    }
  }

  /** Up to the checksum. */
  method FirstFields(h: array<Byte>, name: seq<Byte>, size: nat, now: nat)
    requires h.Length == BLOCK_SIZE && forall k {:trigger h[k]} :: 0 <= k < BLOCK_SIZE ==> h[k] == 0
    modifies h
    ensures forall k {:trigger h[k]} :: 0 <= k < BLOCK_SIZE ==> h[k] == if k < 148 then BlankByte(name, size, now, [], k) else 0
  {
    Put(h, 0, name, NAME_SIZE - 1);
    FormatOctal(h, 100, 420, 8);
    FormatOctal(h, 108, 0, 8);
    FormatOctal(h, 116, 0, 8);
    FormatOctal(h, 124, size, 12);
    FormatOctal(h, 136, now, 12);
  }

  method LastFields(h: array<Byte>, name: seq<Byte>, size: nat, now: nat, hex: seq<Byte>)
    requires h.Length == BLOCK_SIZE
    requires forall k {:trigger h[k]} :: 0 <= k < BLOCK_SIZE ==> h[k] == if k < 148 then BlankByte(name, size, now, [], k) else 0
    modifies h
    ensures h[..] == Blank(name, size, now, hex)
  {
    h[156] := ZERO_DIGIT;
    Put(h, 157, hex, 99);
    Put(h, 257, USTAR, 5);
    h[262] := 0;
    h[263] := ZERO_DIGIT;
    h[264] := ZERO_DIGIT;
    Put(h, 148, [SPACE, SPACE, SPACE, SPACE, SPACE, SPACE, SPACE, SPACE], 8);
  }

  method StoreChecksum(h: array<Byte>, name: seq<Byte>, size: nat, now: nat, hex: seq<Byte>)
    requires h.Length == BLOCK_SIZE && h[..] == Blank(name, size, now, hex)
    modifies h
    ensures h[..] == Header(name, size, now, hex)
  {
    ghost var blank := h[..];
    var sum := CalculateChecksum(h);
    assert forall k :: 0 <= k < BLOCK_SIZE ==> h[k] == blank[k];
    FormatOctal(h, 148, sum, 8);
    h[155] := SPACE;
  }
}
