/**
 The header of src/smoltar/smoltar.c field by field, as the ustar format places them, and what becomes
 of an archive with a damaged header.
 */
module SmoltarDamage {
  import opened Bytes
  import opened SmoltarFormat
  import opened Smoltar

  // ---------------------------------------------------------------- the fields

  /** The ASCII codes of a string. */
  function Ascii(s: string): seq<Byte> {
    seq(|s|, k requires 0 <= k < |s| => s[k] as int % 256)
  }

  lemma OctalOfMode()
    ensures OctalField(420, 8) == Ascii("0000644") + [0]
  {
    var a, b, c := OctalDigits(0, 4), OctalDigits(6, 5), OctalDigits(52, 6);
    ZeroDigits(4);
    assert OctalDigits(420, 7) == c + [52] && c == b + [52] && b == a + [54];
  }

  lemma {:induction false} ZeroDigits(k: nat)
    ensures OctalDigits(0, k) == seq(k, _ => 48)
  {
    if k > 0 {
      ZeroDigits(k - 1);
    }
  }

  lemma HeaderByte(f: File, k: nat)
    requires k < 512 && !(148 <= k < 155)
    ensures HeaderOf(f)[k] == BlankByte(f.name, |f.contents|, f.now, HexDigest(f.contents), k)
  {
    hide BlankByte, OctalField, Checksum, HexDigest;
  }

  /** The name, cut to 99 bytes, and zeros behind it. */
  lemma NameField(f: File, k: nat)
    requires k < 100
    ensures HeaderOf(f)[k] == if k < |f.name| && k < 99 then f.name[k] else 0
  {
    hide HeaderOf, OctalField, HexDigest;
    HeaderByte(f, k);
  }

  lemma FieldAt(f: File, at: nat, field: seq<Byte>)
    requires at + |field| <= 512 && (at + |field| <= 148 || 156 <= at)
    requires forall k :: 0 <= k < |field| ==> BlankByte(f.name, |f.contents|, f.now, HexDigest(f.contents), at + k) == field[k]
    ensures HeaderOf(f)[at..at + |field|] == field
  {
    hide HeaderOf, BlankByte, HexDigest;
    forall k | 0 <= k < |field| ensures HeaderOf(f)[at + k] == field[k] {
      HeaderByte(f, at + k);
    }
  }

  /** Mode 644, owner and group 0, size and time. */
  lemma NumberFields(f: File)
    ensures HeaderOf(f)[100..108] == Ascii("0000644") + [0]
    ensures HeaderOf(f)[108..116] == Ascii("0000000") + [0] && HeaderOf(f)[116..124] == Ascii("0000000") + [0]
    ensures HeaderOf(f)[124..136] == OctalField(|f.contents|, 12) && HeaderOf(f)[136..148] == OctalField(f.now, 12)
  {
    hide HeaderOf, HexDigest, OctalField;
    FieldAt(f, 100, OctalField(420, 8));
    FieldAt(f, 108, OctalField(0, 8));
    FieldAt(f, 116, OctalField(0, 8));
    FieldAt(f, 124, OctalField(|f.contents|, 12));
    FieldAt(f, 136, OctalField(f.now, 12));
    OctalOfMode();
    OctalOfZero();
  }

  lemma OctalOfZero()
    ensures OctalField(0, 8) == Ascii("0000000") + [0]
  {
    ZeroDigits(7);
  }

  /** The checksum in seven digits and a space. */
  lemma ChecksumField(f: File)
    ensures HeaderOf(f)[148..156] == OctalDigits(Checksum(HeaderOf(f)), 7) + Ascii(" ")
  {
    var h, blank := HeaderOf(f), Blank(f.name, |f.contents|, f.now, HexDigest(f.contents));
    SumIgnoresField(h, blank, BLOCK_SIZE);
    ChecksumFits(blank);
    hide BlankByte, HexDigest;
  }

  /** A regular file, the digest in the place of a link name, the magic `ustar` and version 00. */
  lemma TypeAndMagic(f: File)
    ensures HeaderOf(f)[156] == Ascii("0")[0] && HeaderOf(f)[157..221] == HexDigest(f.contents)
    ensures HeaderOf(f)[257..265] == Ascii("ustar") + [0] + Ascii("00")
  {
    hide HeaderOf, HexDigest, OctalField;
    HeaderByte(f, 156);
    FieldAt(f, 157, HexDigest(f.contents));
    FieldAt(f, 257, Ascii("ustar") + [0] + Ascii("00"));
  }

  lemma SeparatorsAre(name: seq<Byte>)
    ensures HasSeparator(name) <==> Ascii("/")[0] in name || Ascii("\\")[0] in name
  {
  }

  // ---------------------------------------------------------------- damage

  lemma {:induction false} SumOfChanged(h: seq<Byte>, i: nat, b: Byte, n: nat)
    requires i < |h| && n <= |h| && !InChecksum(i)
    ensures SumTo(h[i := b], n) == SumTo(h, n) + if i < n then b - h[i] else 0
  {
    if n > 0 {
      SumOfChanged(h, i, b, n - 1);
    }
  }

  /** A byte changed outside the field of the checksum is noticed by it. */
  lemma ChangeIsNoticed(h: seq<Byte>, i: nat, b: Byte)
    requires |h| == 512 && i < 512 && !(148 <= i < 156) && b != h[i]
    requires Checksum(h) == LeadingOctal(h[148..156], 0)
    ensures Checksum(h[i := b]) != LeadingOctal(h[i := b][148..156], 0)
  {
    SumOfChanged(h, i, b, 512);
    assert h[i := b][148..156] == h[148..156];
  }

  /** Reading stops at a damaged header, with success only where its first byte has become the end marker. */
  lemma StopsAtDamage(h: seq<Byte>, i: nat, b: Byte, rest: seq<Byte>, disk: Disk, mode: Mode, prefix: seq<Byte>)
    requires |h| == 512 && i < 512 && !(148 <= i < 156) && b != h[i] && h[0] != 0
    requires Checksum(h) == LeadingOctal(h[148..156], 0)
    ensures ExtractRun(h[i := b] + rest, disk, mode, prefix) == (i == 0 && b == 0, disk)
  {
    var damaged := h[i := b] + rest;
    ChangeIsNoticed(h, i, b);
    assert damaged[..BLOCK_SIZE] == h[i := b] && damaged[0] == h[i := b][0];
  }

  lemma {:induction false} InstallsFront(files: seq<File>, rest: seq<Byte>, disk: Disk, mode: Mode, prefix: seq<Byte>)
    requires AllStorable(files)
    ensures ExtractRun(Entries(files) + rest, disk, mode, prefix) == ExtractRun(rest, InstallAll(disk, files, mode, prefix), mode, prefix)
    decreases |files|
  {
    if files == [] {
      assert Entries(files) + rest == rest;
    } else {
      assert Entries(files) + rest == Entry(files[0]) + (Entries(files[1..]) + rest);
      ExtractEntry(files[0], Entries(files[1..]) + rest, disk, mode, prefix);
      InstallsFront(files[1..], rest, Install(disk, files[0], mode, prefix), mode, prefix);
    }
  }

  lemma {:induction false} EntriesSplit(files: seq<File>, k: nat)
    requires k <= |files|
    ensures Entries(files) == Entries(files[..k]) + Entries(files[k..])
    decreases k
  {
    hide Entry;
    if k == 0 {
      assert files[0..] == files && Entries(files[..0]) == [];
    } else {
      EntriesSplit(files[1..], k - 1);
      assert files[..k][1..] == files[1..][..k - 1] && files[1..][k - 1..] == files[k..];
    }
  }

  lemma ArchiveAround(files: seq<File>, k: nat) returns (rest: seq<Byte>)
    requires k < |files|
    ensures Archive(files) == Entries(files[..k]) + (HeaderOf(files[k]) + rest)
  {
    hide HeaderOf, PadLength;
    EntriesSplit(files, k);
    var body := files[k].contents + Zeros(PadLength(|files[k].contents|));
    rest := body + Entries(files[k + 1..]) + Zeros(2 * BLOCK_SIZE);
    assert files[k..][1..] == files[k + 1..];
    assert Entries(files[k..]) == HeaderOf(files[k]) + body + Entries(files[k + 1..]);
  }

  lemma ChangeInside(front: seq<Byte>, h: seq<Byte>, rest: seq<Byte>, i: nat, b: Byte)
    requires i < |h|
    ensures (front + (h + rest))[|front| + i := b] == front + (h[i := b] + rest)
  {
  }

  /**
   One byte changed in the header of a file, outside its checksum: extraction fails there, with the files
   in front of it installed, unless the first byte of the name has become 0, which ends the archive.
   */
  lemma DamagedArchive(files: seq<File>, k: nat, i: nat, b: Byte, disk: Disk, mode: Mode, prefix: seq<Byte>)
    requires AllStorable(files) && k < |files| && i < 512 && !(148 <= i < 156) && b != HeaderOf(files[k])[i]
    ensures var at := |Entries(files[..k])| + i;
      && at < |Archive(files)|
      && ExtractRun(Archive(files)[at := b], disk, mode, prefix)
         == (i == 0 && b == 0, InstallAll(disk, files[..k], mode, prefix))
  {
    hide ExtractRun, Archive, Entries, HeaderOf, InstallAll, Storable;
    var front, h := Entries(files[..k]), HeaderOf(files[k]);
    var rest := ArchiveAround(files, k);
    HeaderFields(files[k]);
    ChangeInside(front, h, rest, i, b);
    InstallsFront(files[..k], h[i := b] + rest, disk, mode, prefix);
    StopsAtDamage(h, i, b, rest, InstallAll(disk, files[..k], mode, prefix), mode, prefix);
  }
}
