/** What becomes of an archive of src/smoltar/smoltar.c that is cut short or damaged in its contents, and of the files on disk. */
module SmoltarCut {
  import opened Bytes
  import opened SmoltarFormat
  import opened Smoltar
  import opened SmoltarDamage

  // ---------------------------------------------------------------- sizes and digits

  /** The blocks of the entries: one for each header, and those of the contents. */
  function Blocks(files: seq<File>): nat {
    if files == [] then 0 else 1 + (|files[0].contents| + 511) / 512 + Blocks(files[1..])
  }

  /** An archive is whole blocks of 512 bytes, the last two of them zeros. */
  lemma {:induction false} ArchiveIsBlocks(files: seq<File>)
    ensures |Archive(files)| == 512 * (Blocks(files) + 2)
    ensures forall k :: 512 * Blocks(files) <= k < |Archive(files)| ==> Archive(files)[k] == 0
    decreases |files|
  {
    EntriesAreBlocks(files);
  }

  lemma {:induction false} EntriesAreBlocks(files: seq<File>)
    ensures |Entries(files)| == 512 * Blocks(files)
    decreases |files|
  {
    if files != [] {
      EntriesAreBlocks(files[1..]);
      PadsToRoundUp(|files[0].contents|);
    }
  }

  /** A digest is written with two hexadecimal digits a byte, the high one first. */
  lemma {:induction false} HexIs(digest: seq<Byte>, i: nat)
    requires i < |digest|
    ensures Hex(digest)[2 * i] == Ascii("0123456789abcdef")[digest[i] / 16]
    ensures Hex(digest)[2 * i + 1] == Ascii("0123456789abcdef")[digest[i] % 16]
    decreases |digest|
  {
    if i == 0 {
      DigitIs(digest[0] / 16);
      DigitIs(digest[0] % 16);
    } else {
      HexIs(digest[1..], i - 1);
    }
  }

  lemma DigitIs(n: nat)
    requires n < 16
    ensures HexChar(n) == Ascii("0123456789abcdef")[n]
  {
  }

  // ---------------------------------------------------------------- files on disk

  lemma RestOf(files: seq<File>)
    requires files != []
    ensures forall j :: 0 <= j < |files[1..]| ==> files[1..][j] == files[j + 1]
  {
  }

  /** In safe mode a name that is new gets the contents of the first file that has it. */
  lemma {:induction false} SafeTakesFirst(disk: Disk, files: seq<File>, prefix: seq<Byte>, k: nat)
    requires k < |files| && NameFor(prefix, files[k]) !in disk
    requires forall j :: 0 <= j < k ==> NameFor(prefix, files[j]) != NameFor(prefix, files[k])
    ensures var r, name := InstallAll(disk, files, Safe, prefix), NameFor(prefix, files[k]);
      name in r && r[name] == files[k].contents
    decreases |files|
  {
    hide NameFor;
    RestOf(files);
    var next := Install(disk, files[0], Safe, prefix);
    if k == 0 {
      SafeKeeps(next, files[1..], prefix, NameFor(prefix, files[0]));
    } else {
      SafeTakesFirst(next, files[1..], prefix, k - 1);
    }
  }

  lemma {:induction false} SafeKeeps(disk: Disk, files: seq<File>, prefix: seq<Byte>, name: seq<Byte>)
    requires name in disk
    ensures var r := InstallAll(disk, files, Safe, prefix); name in r && r[name] == disk[name]
    decreases |files|
  {
    hide NameFor;
    if files != [] {
      SafeKeeps(Install(disk, files[0], Safe, prefix), files[1..], prefix, name);
    }
  }

  /** In normal mode each name ends with contents that have the digest of the last file of that name. */
  lemma {:induction false} NormalMatchesDigest(disk: Disk, files: seq<File>, prefix: seq<Byte>, k: nat)
    requires k < |files|
    requires forall j :: k < j < |files| ==> NameFor(prefix, files[j]) != NameFor(prefix, files[k])
    ensures var r, name := InstallAll(disk, files, Normal, prefix), NameFor(prefix, files[k]);
      name in r && Sha256.Digest(r[name]) == Sha256.Digest(files[k].contents)
    decreases |files|
  {
    hide NameFor, HexDigest, Sha256.Digest;
    RestOf(files);
    var next := Install(disk, files[0], Normal, prefix);
    if k == 0 {
      var name := NameFor(prefix, files[0]);
      NormalKeeps(next, files[1..], prefix, name);
      SameHex(next[name], files[0].contents);
    } else {
      NormalMatchesDigest(next, files[1..], prefix, k - 1);
    }
  }

  lemma {:induction false} NormalKeeps(disk: Disk, files: seq<File>, prefix: seq<Byte>, name: seq<Byte>)
    requires name in disk && forall j :: 0 <= j < |files| ==> NameFor(prefix, files[j]) != name
    ensures var r := InstallAll(disk, files, Normal, prefix); name in r && r[name] == disk[name]
    decreases |files|
  {
    hide NameFor, HexDigest;
    if files != [] {
      RestOf(files);
      NormalKeeps(Install(disk, files[0], Normal, prefix), files[1..], prefix, name);
    }
  }

  /** In normal mode a file that has the digests of all files of its name is not touched. */
  lemma {:induction false} NormalLeavesEqual(disk: Disk, files: seq<File>, prefix: seq<Byte>, name: seq<Byte>)
    requires name in disk
    requires forall j :: 0 <= j < |files| && NameFor(prefix, files[j]) == name ==>
               Sha256.Digest(files[j].contents) == Sha256.Digest(disk[name])
    ensures var r := InstallAll(disk, files, Normal, prefix); name in r && r[name] == disk[name]
    decreases |files|
  {
    hide NameFor, Sha256.Digest, Hex;
    if files != [] {
      RestOf(files);
      NormalLeavesEqual(Install(disk, files[0], Normal, prefix), files[1..], prefix, name);
    }
  }

  /** The digits tell digests apart. */
  lemma SameHex(a: seq<Byte>, b: seq<Byte>)
    ensures HexDigest(a) == HexDigest(b) <==> Sha256.Digest(a) == Sha256.Digest(b)
  {
    hide Sha256.Digest, Hex;
    HexTellsApart(Sha256.Digest(a), Sha256.Digest(b));
  }

  lemma {:induction false} HexTellsApart(a: seq<Byte>, b: seq<Byte>)
    ensures Hex(a) == Hex(b) <==> a == b
    decreases |a|
  {
    if Hex(a) == Hex(b) && a != [] {
      var x, y := Hex(a), Hex(b);
      DigitsTellApart(a[0] / 16, b[0] / 16);
      DigitsTellApart(a[0] % 16, b[0] % 16);
      assert x[0] == y[0] && x[1] == y[1] && x[2..] == Hex(a[1..]) && y[2..] == Hex(b[1..]);
      HexTellsApart(a[1..], b[1..]);
      assert a == [a[0]] + a[1..] && b == [b[0]] + b[1..];
    }
  }

  lemma DigitsTellApart(n: nat, m: nat)
    requires n < 16 && m < 16
    ensures HexChar(n) == HexChar(m) <==> n == m
  {
  }

  // ---------------------------------------------------------------- archives that are cut short

  /** Whether a file is extracted at all. */
  predicate Wanted(disk: Disk, f: File, mode: Mode, prefix: seq<Byte>) {
    var name := NameFor(prefix, f);
    name in disk ==> mode == Force || (mode == Normal && HexDigest(disk[name]) != HexDigest(f.contents))
  }

  lemma ExtractHeader(f: File, body: seq<Byte>, disk: Disk, mode: Mode, prefix: seq<Byte>)
    requires Storable(f)
    ensures var step := ExtractOne(HeaderOf(f), body, disk, mode, prefix);
      ExtractRun(HeaderOf(f) + body, disk, mode, prefix)
      == if step.ok then ExtractRun(After(body, step.taken), step.disk, mode, prefix) else (false, step.disk)
  {
    hide HeaderOf, Magic, ExtractOne;
    HeaderFields(f);
    var h, b := HeaderOf(f), HeaderOf(f) + body;
    assert b[..BLOCK_SIZE] == h && b[BLOCK_SIZE..] == body && b[0] == h[0];
  }

  /** The whole blocks at the front. */
  function InBlocks(s: seq<Byte>): seq<Byte> {
    s[..|s| / 512 * 512]
  }

  lemma ReadsHeader(f: File, disk: Disk, mode: Mode, prefix: seq<Byte>)
    requires Storable(f)
    ensures var h := HeaderOf(f);
      && SizeOf(h) == |f.contents| && OutputName(prefix, h) == NameFor(prefix, f)
      && (ShouldExtract(disk, OutputName(prefix, h), StoredDigest(h), mode) <==> Wanted(disk, f, mode, prefix))
  {
    hide HeaderOf, SizeOf, StoredDigest, Magic, Checksum, HexDigest, Shortened, CString;
    HeaderFields(f);
  }

  lemma ExtractOneIs(f: File, body: seq<Byte>, disk: Disk, mode: Mode, prefix: seq<Byte>)
    requires Storable(f)
    ensures var size, name := |f.contents|, NameFor(prefix, f);
      ExtractOne(HeaderOf(f), body, disk, mode, prefix)
      == if !Wanted(disk, f, mode, prefix) then Step(true, disk, RoundUp(size))
         else if |body| < size then Step(false, disk[name := InBlocks(body)], |body|)
         else Step(|body| >= RoundUp(size), disk[name := body[..size]], RoundUp(size))
  {
    hide InBlocks, HeaderOf, SizeOf, NameFor, OutputName, StoredDigest, ShouldExtract, Wanted, RoundUp, PadLength;
    ReadsHeader(f, disk, mode, prefix);
    PadsToRoundUp(|f.contents|);
    WholeBlocksOf(body);
  }

  lemma WholeBlocksOf(s: seq<Byte>)
    ensures s[..|s| / BLOCK_SIZE * BLOCK_SIZE] == InBlocks(s)
  {
  }

  lemma EntryLength(f: File)
    ensures |Entry(f)| == 512 + RoundUp(|f.contents|)
  {
    PadsToRoundUp(|f.contents|);
  }

  lemma CutBody(f: File, n: nat)
    requires 512 <= n < |Entry(f)|
    ensures var size, body := |f.contents|, Entry(f)[512..n];
      && Entry(f)[..n] == HeaderOf(f) + body && |body| == n - 512
      && (n - 512 < size ==> body == f.contents[..n - 512])
      && (n - 512 >= size ==> body[..size] == f.contents)
  {
    hide HeaderOf;
    var h, rest := HeaderOf(f), f.contents + Zeros(PadLength(|f.contents|));
    assert Entry(f)[..n] == h + rest[..n - 512] && Entry(f)[512..n] == rest[..n - 512];
  }

  /**
   What an entry cut after `n` bytes leaves: inside its header, or where the file is not wanted, nobody
   notices; inside the contents the whole blocks are installed, inside the zeros all of them, and extraction fails.
   */
  function CutOutcome(f: File, n: nat, disk: Disk, mode: Mode, prefix: seq<Byte>): (bool, Disk) {
    var name, size := NameFor(prefix, f), |f.contents|;
    if n < 512 || !Wanted(disk, f, mode, prefix) then (true, disk)
    else (false, disk[name := if n - 512 < size then InBlocks(f.contents[..n - 512]) else f.contents])
  }

  lemma CutEntryExtracts(f: File, n: nat, disk: Disk, mode: Mode, prefix: seq<Byte>)
    requires Storable(f) && n < |Entry(f)|
    ensures ExtractRun(Entry(f)[..n], disk, mode, prefix) == CutOutcome(f, n, disk, mode, prefix)
  {
    hide HeaderOf, Wanted, Entry, ExtractOne, InBlocks;
    if n >= 512 {
      EntryLength(f);
      CutBody(f, n);
      ExtractHeader(f, Entry(f)[512..n], disk, mode, prefix);
      ExtractOneIs(f, Entry(f)[512..n], disk, mode, prefix);
    }
  }

  lemma CutLayout(files: seq<File>, k: nat, n: nat)
    requires k < |files| && n < |Entry(files[k])|
    ensures |Entries(files[..k])| + n < |Archive(files)|
    ensures Archive(files)[..|Entries(files[..k])| + n] == Entries(files[..k]) + Entry(files[k])[..n]
  {
    hide Entry;
    EntriesSplit(files, k);
    assert files[k..][1..] == files[k + 1..];
    var front, entry := Entries(files[..k]), Entry(files[k]);
    var rest := Entries(files[k + 1..]) + Zeros(2 * BLOCK_SIZE);
    assert Archive(files) == front + (entry + rest);
  }

  /** The same for whole archives: the files in front of the cut are installed in any case. */
  lemma CutArchiveExtracts(files: seq<File>, k: nat, n: nat, disk: Disk, mode: Mode, prefix: seq<Byte>)
    requires AllStorable(files) && k < |files| && n < |Entry(files[k])|
    ensures var cut := |Entries(files[..k])| + n;
      && cut < |Archive(files)|
      && ExtractRun(Archive(files)[..cut], disk, mode, prefix)
         == CutOutcome(files[k], n, InstallAll(disk, files[..k], mode, prefix), mode, prefix)
  {
    hide ExtractRun, Archive, Entries, Entry, InstallAll, CutOutcome, Storable;
    CutLayout(files, k, n);
    InstallsFront(files[..k], Entry(files[k])[..n], disk, mode, prefix);
    CutEntryExtracts(files[k], n, InstallAll(disk, files[..k], mode, prefix), mode, prefix);
  }

  // ---------------------------------------------------------------- damaged contents

  /** An entry whose contents have been replaced by as many other bytes. */
  function Replaced(f: File, contents: seq<Byte>): seq<Byte> {
    HeaderOf(f) + (contents + Zeros(PadLength(|f.contents|)))
  }

  lemma ReplacedExtracts(f: File, contents: seq<Byte>, rest: seq<Byte>, disk: Disk, prefix: seq<Byte>)
    requires Storable(f) && |contents| == |f.contents|
    ensures ExtractRun(Replaced(f, contents) + rest, disk, Force, prefix)
         == ExtractRun(rest, disk[NameFor(prefix, f) := contents], Force, prefix)
  {
    hide HeaderOf, ExtractRun, ExtractOne;
    var other := f.(contents := contents);
    BodyLayout(other, rest);
    assert Replaced(f, contents) + rest == HeaderOf(f) + Body(other, rest);
    ExtractHeader(f, Body(other, rest), disk, Force, prefix);
    ExtractOneIs(f, Body(other, rest), disk, Force, prefix);
  }

  lemma ArchiveAroundEntry(files: seq<File>, k: nat) returns (rest: seq<Byte>)
    requires k < |files|
    ensures Archive(files) == Entries(files[..k]) + (Entry(files[k]) + rest)
    ensures rest == Archive(files[k + 1..])
  {
    hide Entry;
    EntriesSplit(files, k);
    rest := Entries(files[k + 1..]) + Zeros(2 * BLOCK_SIZE);
    assert files[k..][1..] == files[k + 1..];
  }

  lemma {:induction false} InstallAllSplit(files: seq<File>, k: nat, disk: Disk, mode: Mode, prefix: seq<Byte>)
    requires k <= |files|
    ensures InstallAll(disk, files, mode, prefix)
         == InstallAll(InstallAll(disk, files[..k], mode, prefix), files[k..], mode, prefix)
    decreases k
  {
    hide Install;
    if k == 0 {
      assert files[0..] == files;
    } else {
      InstallAllSplit(files[1..], k - 1, Install(disk, files[0], mode, prefix), mode, prefix);
      assert files[..k][1..] == files[1..][..k - 1] && files[1..][k - 1..] == files[k..];
    }
  }

  lemma ChangedEntry(f: File, i: nat, b: Byte)
    requires i < |f.contents|
    ensures 512 + i < |Entry(f)| && Entry(f)[512 + i := b] == Replaced(f, f.contents[i := b])
  {
    hide HeaderOf;
  }

  /** Extraction does not look at the digest: in force mode a byte changed in the contents is installed like any other. */
  lemma ContentsAreNotChecked(files: seq<File>, k: nat, i: nat, b: Byte, disk: Disk, prefix: seq<Byte>)
    requires AllStorable(files) && k < |files| && i < |files[k].contents|
    ensures var at := |Entries(files[..k])| + 512 + i;
            var changed := files[k].(contents := files[k].contents[i := b]);
      && at < |Archive(files)|
      && ExtractRun(Archive(files)[at := b], disk, Force, prefix) == (true, InstallAll(disk, files[k := changed], Force, prefix))
  {
    hide ExtractRun, Archive, Entries, Entry, Replaced, NameFor, HeaderOf;
    var f, front := files[k], Entries(files[..k]);
    var contents := f.contents[i := b];
    var changed := f.(contents := contents);
    var rest := ArchiveAroundEntry(files, k);
    ChangedEntry(f, i, b);
    ChangeInside(front, Entry(f), rest, 512 + i, b);
    InstallsFront(files[..k], Replaced(f, contents) + rest, disk, Force, prefix);
    var before := InstallAll(disk, files[..k], Force, prefix);
    ReplacedExtracts(f, contents, rest, before, prefix);
    ExtractArchiveInstalls(files[k + 1..], before[NameFor(prefix, f) := contents], Force, prefix);
    InstallAllSplit(files[k := changed], k, disk, Force, prefix);
    assert files[k := changed][..k] == files[..k] && files[k := changed][k..] == [changed] + files[k + 1..];
    InstallOne(before, changed, files[k + 1..], prefix);
    SameNames(f, changed, prefix);
  }

  lemma SameNames(f: File, g: File, prefix: seq<Byte>)
    requires f.name == g.name
    ensures NameFor(prefix, f) == NameFor(prefix, g)
  {
  }

  lemma InstallOne(disk: Disk, f: File, rest: seq<File>, prefix: seq<Byte>)
    ensures InstallAll(disk, [f] + rest, Force, prefix) == InstallAll(disk[NameFor(prefix, f) := f.contents], rest, Force, prefix)
  {
    assert ([f] + rest)[1..] == rest;
  }
}
