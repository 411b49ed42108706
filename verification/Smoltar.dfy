/** Writing, extracting and listing the archives of src/smoltar/smoltar.c, over sequences of bytes. */
module Smoltar {
  import opened Bytes
  import opened SmoltarFormat
  import Sha256

  /** A file to put into an archive; `now` is the clock when its header is made. */
  datatype File = File(name: seq<Byte>, contents: seq<Byte>, now: nat)

  datatype Mode = Force | Normal | Safe

  /** The files that exist, by name. */
  type Disk = map<seq<Byte>, seq<Byte>>

  // ---------------------------------------------------------------- digests

  function HexChar(n: nat): Byte
    requires n < 16
  {
    if n < 10 then 48 + n else 97 + (n - 10)
  }

  function Hex(digest: seq<Byte>): (r: seq<Byte>)
    ensures |r| == 2 * |digest| && 0 !in r
  {
    if digest == [] then [] else [HexChar(digest[0] / 16), HexChar(digest[0] % 16)] + Hex(digest[1..])
  }

  function HexDigest(contents: seq<Byte>): (r: seq<Byte>)
    ensures |r| == 64 && 0 !in r
  {
    Hex(Sha256.Digest(contents))
  }

  method Sha256ToHex(digest: array<Byte>) returns (hex: seq<Byte>)
    ensures hex == Hex(digest[..])
  {
    hex := [];
    for i := 0 to digest.Length
      invariant Hex(digest[..]) == hex + Hex(digest[i..])
    {
      assert digest[i..][1..] == digest[i + 1..];
      hex := hex + [HexChar(digest[i] / 16), HexChar(digest[i] % 16)];
    }
  }

  /** The digest of a file that is read block by block. */
  method ComputeFileSha256(contents: seq<Byte>) returns (hex: seq<Byte>)
    ensures hex == HexDigest(contents)
  {
    hide Sha256.Context.Valid, Sha256.Context.Message, Sha256.Digest, Hex;
    var ctx := new Sha256.Context();
    var pos: nat := 0;
    while pos < |contents|
      invariant pos <= |contents| && ctx.Valid() && fresh(ctx.data) && fresh(ctx.state)
      invariant ctx.Message() == contents[..pos]
    {
      var end := if |contents| - pos < BLOCK_SIZE then |contents| else pos + BLOCK_SIZE;
      ctx.Update(contents[pos..end]);
      assert contents[..end] == contents[..pos] + contents[pos..end];
      pos := end;
    }
    assert contents[..pos] == contents;
    var digest := new Byte[32](_ => 0);
    ctx.Final(digest);
    assert digest[..32] == digest[..];
    hex := Sha256ToHex(digest);
  }

  // ---------------------------------------------------------------- writing

  /** The zeros behind `size` bytes of contents. */
  function PadLength(size: nat): nat {
    if size % BLOCK_SIZE == 0 then 0 else BLOCK_SIZE - size % BLOCK_SIZE
  }

  function RoundUp(size: nat): nat {
    (size + BLOCK_SIZE - 1) / BLOCK_SIZE * BLOCK_SIZE
  }

  /** Reading the contents and the padding takes as much as skipping both. */
  lemma PadsToRoundUp(size: nat)
    ensures size + PadLength(size) == RoundUp(size)
  {
  }

  function HeaderOf(f: File): (r: seq<Byte>)
    ensures |r| == BLOCK_SIZE
  {
    Header(f.name, |f.contents|, f.now, HexDigest(f.contents))
  }

  function Entry(f: File): seq<Byte> {
    HeaderOf(f) + (f.contents + Zeros(PadLength(|f.contents|)))
  }

  function Entries(files: seq<File>): seq<Byte> {
    if files == [] then [] else Entry(files[0]) + Entries(files[1..])
  }

  function Archive(files: seq<File>): seq<Byte> {
    Entries(files) + Zeros(2 * BLOCK_SIZE)
  }

  method AddFile(archive: seq<Byte>, f: File) returns (ok: bool, out: seq<Byte>)
    ensures ok == !HasSeparator(f.name)
    ensures ok ==> out == archive + Entry(f)
  {
    hide Header, HexDigest;
    var size := |f.contents|;
    var hex := ComputeFileSha256(f.contents);
    var header := new Byte[BLOCK_SIZE](_ => 0);
    ok := InitHeader(header, f.name, size, f.now, hex);
    if !ok {
      return false, archive;
    }
    out := archive + header[..];
    out := CopyContents(out, f.contents);
    var padding := BLOCK_SIZE - size % BLOCK_SIZE;
    if padding != BLOCK_SIZE {
      out := out + seq(padding, _ => 0);
    }
    assert out == archive + Entry(f);
  }

  /** Contents go out in blocks, the last one short. */
  method CopyContents(archive: seq<Byte>, contents: seq<Byte>) returns (out: seq<Byte>)
    ensures out == archive + contents
  {
    out := archive;
    var pos: nat := 0;
    while pos < |contents|
      invariant pos <= |contents| && out == archive + contents[..pos]
    {
      var end := if |contents| - pos < BLOCK_SIZE then |contents| else pos + BLOCK_SIZE;
      assert contents[..end] == contents[..pos] + contents[pos..end];
      out := out + contents[pos..end];
      pos := end;
    }
    assert contents[..pos] == contents;
  }

  lemma OneMoreEntry(archive: seq<Byte>, files: seq<File>, i: nat)
    requires i < |files|
    ensures archive + Entries(files[i..]) == archive + Entry(files[i]) + Entries(files[i + 1..])
  {
    assert files[i..][1..] == files[i + 1..];
  }

  method CreateArchive(files: seq<File>) returns (ok: bool, archive: seq<Byte>)
    ensures ok <==> forall k :: 0 <= k < |files| ==> !HasSeparator(files[k].name)
    ensures ok ==> archive == Archive(files)
  {
    hide Entry;
    archive := [];
    ghost var all := Entries(files);
    for i := 0 to |files|
      invariant forall k :: 0 <= k < i ==> !HasSeparator(files[k].name)
      invariant all == archive + Entries(files[i..])
    {
      OneMoreEntry(archive, files, i);
      ok, archive := AddFile(archive, files[i]);
      if !ok {
        return;
      }
    }
    assert archive == all;
    ok, archive := true, archive + seq(2 * BLOCK_SIZE, _ => 0);
  }

  // ---------------------------------------------------------------- reading

  const MAX_NAME := 254

  function Cut(s: seq<Byte>, n: nat): seq<Byte> { if |s| <= n then s else s[..n] }

  function SizeOf(h: seq<Byte>): nat
    requires |h| == BLOCK_SIZE
  {
    LeadingOctal(h[124..136], 0)
  }

  function OutputName(prefix: seq<Byte>, h: seq<Byte>): seq<Byte> {
    Cut(prefix + CString(h), MAX_NAME)
  }

  function StoredDigest(h: seq<Byte>): seq<Byte>
    requires |h| == BLOCK_SIZE
  {
    CString(h[157..221])
  }

  predicate ShouldExtract(disk: Disk, name: seq<Byte>, digest: seq<Byte>, mode: Mode) {
    match mode
    case Force => true
    case Safe => name !in disk
    case Normal => digest == [] || name !in disk || HexDigest(disk[name]) != digest
  }

  /** What one step of reading leaves: whether to go on, the files, and how much of the archive was taken. */
  datatype Step = Step(ok: bool, disk: Disk, taken: nat)

  /** One file of the archive, `b` being what follows its header. */
  function ExtractOne(h: seq<Byte>, b: seq<Byte>, disk: Disk, mode: Mode, prefix: seq<Byte>): Step
    requires |h| == BLOCK_SIZE
  {
    var size, name := SizeOf(h), OutputName(prefix, h);
    if !ShouldExtract(disk, name, StoredDigest(h), mode) then Step(true, disk, RoundUp(size))
    else if |b| < size then Step(false, disk[name := b[..|b| / BLOCK_SIZE * BLOCK_SIZE]], |b|)
    else Step(|b| >= size + PadLength(size), disk[name := b[..size]], size + PadLength(size))
  }

  /** Extracted or skipped, a file takes the same number of bytes. */
  lemma SameAdvance(h: seq<Byte>, b: seq<Byte>, disk: Disk, mode: Mode, prefix: seq<Byte>)
    requires |h| == BLOCK_SIZE && ExtractOne(h, b, disk, mode, prefix).ok
    ensures ExtractOne(h, b, disk, mode, prefix).taken == RoundUp(SizeOf(h))
  {
    PadsToRoundUp(SizeOf(h));
  }

  function After(b: seq<Byte>, n: nat): (r: seq<Byte>)
    ensures |r| <= |b|
  {
    if n <= |b| then b[n..] else []
  }

  predicate Magic(h: seq<Byte>)
    requires |h| == BLOCK_SIZE
  {
    h[257..262] == USTAR
  }

  function ExtractRun(b: seq<Byte>, disk: Disk, mode: Mode, prefix: seq<Byte>): (bool, Disk)
    decreases |b|
  {
    if |b| < BLOCK_SIZE || b[0] == 0 then (true, disk)
    else
      var h, body := b[..BLOCK_SIZE], b[BLOCK_SIZE..];
      if !Magic(h) || Checksum(h) != LeadingOctal(h[148..156], 0) then (false, disk)
      else
        var step := ExtractOne(h, body, disk, mode, prefix);
        if step.ok then ExtractRun(After(body, step.taken), step.disk, mode, prefix) else (false, step.disk)
  }

  datatype Listed = Listed(name: seq<Byte>, size: nat)

  function ListRun(b: seq<Byte>): (bool, seq<Listed>)
    decreases |b|
  {
    if |b| < BLOCK_SIZE || b[0] == 0 then (true, [])
    else
      var h, body := b[..BLOCK_SIZE], b[BLOCK_SIZE..];
      if !Magic(h) then (false, [])
      else
        var rest := ListRun(After(body, RoundUp(SizeOf(h))));
        (rest.0, [Listed(CString(h), SizeOf(h))] + rest.1)
  }

  // ---------------------------------------------------------------- what comes back

  /** Files whose names and sizes the format can hold; longer names are cut. */
  predicate Storable(f: File) {
    f.name != [] && 0 !in f.name && |f.contents| < Pow8(11)
  }

  predicate AllStorable(files: seq<File>) {
    forall k :: 0 <= k < |files| ==> Storable(files[k])
  }

  function NameFor(prefix: seq<Byte>, f: File): seq<Byte> {
    Cut(prefix + Shortened(f.name), MAX_NAME)
  }

  /** What extracting a file means, said without an archive. */
  function Install(disk: Disk, f: File, mode: Mode, prefix: seq<Byte>): Disk {
    var name := NameFor(prefix, f);
    if mode == Safe && name in disk then disk
    else if mode == Normal && name in disk && HexDigest(disk[name]) == HexDigest(f.contents) then disk
    else disk[name := f.contents]
  }

  function InstallAll(disk: Disk, files: seq<File>, mode: Mode, prefix: seq<Byte>): Disk
    decreases |files|
  {
    if files == [] then disk else InstallAll(Install(disk, files[0], mode, prefix), files[1..], mode, prefix)
  }

  lemma {:induction false} CStringWhole(s: seq<Byte>)
    requires 0 !in s
    ensures CString(s) == s
  {
    if s != [] {
      CStringWhole(s[1..]);
    }
  }

  /** Everything the reader takes from a header is what the writer put there. */
  lemma HeaderFields(f: File)
    requires Storable(f)
    ensures var h := HeaderOf(f);
      && h[0] != 0 && Magic(h) && Checksum(h) == LeadingOctal(h[148..156], 0)
      && SizeOf(h) == |f.contents| && CString(h) == Shortened(f.name) && StoredDigest(h) == HexDigest(f.contents)
  {
    var h, hex, size := HeaderOf(f), HexDigest(f.contents), |f.contents|;
    HeaderPassesChecksum(f.name, size, f.now, hex);
    HeaderSize(f.name, size, f.now, hex);
    HeaderName(f.name, size, f.now, hex, BLOCK_SIZE);
    assert h[..BLOCK_SIZE] == h;
    CStringWhole(hex);
    assert h[157..221] == hex;
    assert h[257..262] == USTAR;
  }

  function Body(f: File, rest: seq<Byte>): seq<Byte> {
    f.contents + (Zeros(PadLength(|f.contents|)) + rest)
  }

  lemma EntryLayout(f: File, rest: seq<Byte>)
    ensures var b := Entry(f) + rest; |b| >= BLOCK_SIZE && b[..BLOCK_SIZE] == HeaderOf(f) && b[BLOCK_SIZE..] == Body(f, rest)
  {
    var h := HeaderOf(f);
    assert Entry(f) + rest == h + Body(f, rest);
  }

  lemma BodyLayout(f: File, rest: seq<Byte>)
    ensures var b, size := Body(f, rest), |f.contents|;
      |b| >= RoundUp(size) && size <= RoundUp(size) && b[..size] == f.contents && b[RoundUp(size)..] == rest
  {
    PadsToRoundUp(|f.contents|);
  }

  lemma ExtractsOne(f: File, rest: seq<Byte>, disk: Disk, mode: Mode, prefix: seq<Byte>)
    requires Storable(f)
    ensures ExtractOne(HeaderOf(f), Body(f, rest), disk, mode, prefix)
         == Step(true, Install(disk, f, mode, prefix), RoundUp(|f.contents|))
  {
    HeaderFields(f);
    BodyLayout(f, rest);
    PadsToRoundUp(|f.contents|);
  }

  lemma ExtractEntry(f: File, rest: seq<Byte>, disk: Disk, mode: Mode, prefix: seq<Byte>)
    requires Storable(f)
    ensures ExtractRun(Entry(f) + rest, disk, mode, prefix) == ExtractRun(rest, Install(disk, f, mode, prefix), mode, prefix)
  {
    var b := Entry(f) + rest;
    EntryLayout(f, rest);
    HeaderFields(f);
    assert b[0] == HeaderOf(f)[0];
    ExtractsOne(f, rest, disk, mode, prefix);
    BodyLayout(f, rest);
  }

  /** The end of the archive ends the reading. */
  lemma EndOfArchive(disk: Disk, mode: Mode, prefix: seq<Byte>)
    ensures ExtractRun(Zeros(2 * BLOCK_SIZE), disk, mode, prefix) == (true, disk)
    ensures ListRun(Zeros(2 * BLOCK_SIZE)) == (true, [])
  {
  }

  /** Extracting an archive is installing its files one after the other, in every mode and with any prefix. */
  lemma {:induction false} ExtractArchiveInstalls(files: seq<File>, disk: Disk, mode: Mode, prefix: seq<Byte>)
    requires AllStorable(files)
    ensures ExtractRun(Archive(files), disk, mode, prefix) == (true, InstallAll(disk, files, mode, prefix))
    decreases |files|
  {
    if files == [] {
      assert Archive(files) == Zeros(2 * BLOCK_SIZE);
      EndOfArchive(disk, mode, prefix);
    } else {
      assert Archive(files) == Entry(files[0]) + Archive(files[1..]);
      ExtractEntry(files[0], Archive(files[1..]), disk, mode, prefix);
      ExtractArchiveInstalls(files[1..], Install(disk, files[0], mode, prefix), mode, prefix);
    }
  }

  lemma ListEntry(f: File, rest: seq<Byte>)
    requires Storable(f)
    ensures var tail := ListRun(rest);
      ListRun(Entry(f) + rest) == (tail.0, [Listed(Shortened(f.name), |f.contents|)] + tail.1)
  {
    var b := Entry(f) + rest;
    EntryLayout(f, rest);
    HeaderFields(f);
    assert b[0] == HeaderOf(f)[0];
    BodyLayout(f, rest);
  }

  function Listing(files: seq<File>): seq<Listed> {
    if files == [] then [] else [Listed(Shortened(files[0].name), |files[0].contents|)] + Listing(files[1..])
  }

  lemma {:induction false} ListArchiveLists(files: seq<File>)
    requires AllStorable(files)
    ensures ListRun(Archive(files)) == (true, Listing(files))
    decreases |files|
  {
    if files == [] {
      assert Archive(files) == Zeros(2 * BLOCK_SIZE);
      EndOfArchive(map[], Force, []);
    } else {
      assert Archive(files) == Entry(files[0]) + Archive(files[1..]);
      ListEntry(files[0], Archive(files[1..]));
      ListArchiveLists(files[1..]);
    }
  }

  /** In force mode with no prefix, each file comes back under its name, unless a later one has the same name. */
  lemma {:induction false} ForceGivesBack(disk: Disk, files: seq<File>, k: nat)
    requires k < |files| && |files[k].name| < NAME_SIZE
    requires forall j :: k < j < |files| ==> Shortened(files[j].name) != files[k].name
    ensures var r := InstallAll(disk, files, Force, []);
      files[k].name in r && r[files[k].name] == files[k].contents
    decreases |files|
  {
    var disk' := Install(disk, files[0], Force, []);
    assert NameFor([], files[0]) == Shortened(files[0].name);
    if k == 0 {
      assert forall j :: 0 <= j < |files[1..]| ==> files[1..][j] == files[j + 1];
      OthersStay(disk', files[1..], Force, files[0].name);
    } else {
      assert forall j :: 0 <= j < |files[1..]| ==> files[1..][j] == files[j + 1];
      ForceGivesBack(disk', files[1..], k - 1);
    }
  }

  /** A name that no file of the archive has is not touched. */
  lemma {:induction false} OthersStay(disk: Disk, files: seq<File>, mode: Mode, name: seq<Byte>)
    requires forall j :: 0 <= j < |files| ==> Shortened(files[j].name) != name
    ensures var r := InstallAll(disk, files, mode, []);
      (name in r <==> name in disk) && (name in disk ==> r[name] == disk[name])
    decreases |files|
  {
    if files != [] {
      assert NameFor([], files[0]) == Shortened(files[0].name);
      assert forall j :: 0 <= j < |files[1..]| ==> files[1..][j] == files[j + 1];
      OthersStay(Install(disk, files[0], mode, []), files[1..], mode, name);
    }
  }

  /** In safe mode no file that exists is touched, whatever the archive: created by this program or not. */
  lemma {:induction false} SafeTouchesNothing(b: seq<Byte>, disk: Disk, prefix: seq<Byte>, name: seq<Byte>)
    requires name in disk
    ensures var r := ExtractRun(b, disk, Safe, prefix).1; name in r && r[name] == disk[name]
    decreases |b|
  {
    if |b| >= BLOCK_SIZE && b[0] != 0 {
      var h, body := b[..BLOCK_SIZE], b[BLOCK_SIZE..];
      if Magic(h) && Checksum(h) == LeadingOctal(h[148..156], 0) {
        var step := ExtractOne(h, body, disk, Safe, prefix);
        assert name in step.disk && step.disk[name] == disk[name];
        if step.ok {
          SafeTouchesNothing(After(body, step.taken), step.disk, prefix, name);
        }
      }
    }
  }

  /** Listing and extracting visit the same entries of any archive that can be extracted. */
  lemma {:induction false} ListingFollowsExtraction(b: seq<Byte>, disk: Disk, mode: Mode, prefix: seq<Byte>)
    requires ExtractRun(b, disk, mode, prefix).0
    ensures ListRun(b).0
    decreases |b|
  {
    if |b| >= BLOCK_SIZE && b[0] != 0 {
      var h, body := b[..BLOCK_SIZE], b[BLOCK_SIZE..];
      var step := ExtractOne(h, body, disk, mode, prefix);
      SameAdvance(h, body, disk, mode, prefix);
      ListingFollowsExtraction(After(body, step.taken), step.disk, mode, prefix);
    }
  }

  // ---------------------------------------------------------------- the reading loops

  method Decide(disk: Disk, name: seq<Byte>, digest: seq<Byte>, mode: Mode) returns (extract: bool)
    ensures extract == ShouldExtract(disk, name, digest, mode)
  {
    extract := true;
    if mode == Safe {
      if name in disk {
        extract := false;
      }
    } else if mode == Normal && digest != [] {
      if name in disk {
        var existing := ComputeFileSha256(disk[name]);
        if existing == digest {
          extract := false;
        }
      }
    }
  }

  /** Read `size` bytes from the front of `b` in blocks; a short read stops with the whole blocks read so far. */
  method ReadContents(b: seq<Byte>, size: nat) returns (ok: bool, out: seq<Byte>)
    ensures ok == (|b| >= size)
    ensures out == if |b| >= size then b[..size] else b[..|b| / BLOCK_SIZE * BLOCK_SIZE]
  {
    out := [];
    ok := true;
    var remaining := size;
    ghost var blocks: nat := 0;
    while remaining > 0
      invariant 0 <= remaining <= size && size - remaining <= |b|
      invariant out == b[..size - remaining]
      invariant remaining > 0 ==> size - remaining == BLOCK_SIZE * blocks
    {
      var toRead := if remaining > BLOCK_SIZE then BLOCK_SIZE else remaining;
      var pos := size - remaining;
      if |b| - pos < toRead {
        WholeBlocks(|b|, blocks);
        return false, out;
      }
      out := out + b[pos..pos + toRead];
      remaining := remaining - toRead;
      blocks := blocks + 1;
    }
  }

  lemma WholeBlocks(n: nat, blocks: nat)
    requires BLOCK_SIZE * blocks <= n < BLOCK_SIZE * blocks + BLOCK_SIZE
    ensures n / BLOCK_SIZE * BLOCK_SIZE == BLOCK_SIZE * blocks
  {
  }

  method ExtractFile(b: seq<Byte>, h: seq<Byte>, disk: Disk, mode: Mode, prefix: seq<Byte>)
      returns (ok: bool, files: Disk, taken: nat)
    requires |h| == BLOCK_SIZE
    ensures Step(ok, files, taken) == ExtractOne(h, b, disk, mode, prefix)
  {
    var size := ParseOctal(h[124..136]);
    var name := OutputName(prefix, h);
    var extract := Decide(disk, name, StoredDigest(h), mode);
    if !extract {
      return true, disk, (size + BLOCK_SIZE - 1) / BLOCK_SIZE * BLOCK_SIZE;
    }
    var out;
    ok, out := ReadContents(b, size);
    files := disk[name := out];
    if !ok {
      return false, files, |b|;
    }
    var padding := BLOCK_SIZE - size % BLOCK_SIZE;
    taken := size;
    if padding != BLOCK_SIZE {
      taken := size + padding;
    }
    ok := |b| >= taken;
  }

  method ExtractArchive(b: seq<Byte>, disk: Disk, mode: Mode, prefix: seq<Byte>) returns (ok: bool, files: Disk)
    ensures (ok, files) == ExtractRun(b, disk, mode, prefix)
  {
    files := disk;
    var rest := b;
    while |rest| >= BLOCK_SIZE
      invariant ExtractRun(b, disk, mode, prefix) == ExtractRun(rest, files, mode, prefix)
      decreases |rest|
    {
      var h := rest[..BLOCK_SIZE];
      if h[0] == 0 {
        break;
      }
      if h[257..262] != USTAR {
        return false, files;
      }
      var stored := ParseOctal(h[148..156]);
      var sum := ChecksumOf(h);
      if sum != stored {
        return false, files;
      }
      var body := rest[BLOCK_SIZE..];
      var taken;
      ok, files, taken := ExtractFile(body, h, files, mode, prefix);
      if !ok {
        return;
      }
      rest := After(body, taken);
    }
    ok := true;
  }

  method ChecksumOf(h: seq<Byte>) returns (sum: nat)
    requires |h| == BLOCK_SIZE
    ensures sum == Checksum(h)
  {
    var header := new Byte[BLOCK_SIZE](i requires 0 <= i < BLOCK_SIZE => h[i]);
    assert header[..] == h;
    sum := CalculateChecksum(header);
  }

  /** One line of the listing, and the archive behind its entry. */
  method ListNext(b: seq<Byte>) returns (ok: bool, line: Listed, rest: seq<Byte>)
    requires |b| >= BLOCK_SIZE && b[0] != 0
    ensures |rest| < |b|
    ensures !ok ==> ListRun(b) == (false, [])
    ensures ok ==> ListRun(b) == (ListRun(rest).0, [line] + ListRun(rest).1)
  {
    var h := b[..BLOCK_SIZE];
    var size := ParseOctal(h[124..136]);
    line := Listed(CString(h), size);
    rest := After(b[BLOCK_SIZE..], (size + BLOCK_SIZE - 1) / BLOCK_SIZE * BLOCK_SIZE);
    ok := h[257..262] == USTAR;
  }

  lemma Relist(listing: seq<Listed>, line: Listed, tail: seq<Listed>)
    ensures listing + ([line] + tail) == listing + [line] + tail
  {
  }

  method ListArchive(b: seq<Byte>) returns (ok: bool, listing: seq<Listed>)
    ensures (ok, listing) == ListRun(b)
  {
    listing := [];
    ok := true;
    var rest := b;
    ghost var all := ListRun(b);
    while |rest| >= BLOCK_SIZE && rest[0] != 0
      invariant ok && all.0 == ListRun(rest).0 && all.1 == listing + ListRun(rest).1
      decreases |rest|
    {
      var line, tail;
      ok, line, tail := ListNext(rest);
      if !ok {
        assert listing + [] == listing;
        return;
      }
      Relist(listing, line, ListRun(tail).1);
      listing := listing + [line];
      rest := tail;
    }
    assert listing + [] == listing;
  }

  /** The whole trip: what is archived, extracted and listed. */
  method RoundTrip(sources: seq<File>, disk: Disk, mode: Mode, prefix: seq<Byte>)
      returns (ok: bool, files: Disk, listing: seq<Listed>)
    requires AllStorable(sources)
    ensures ok <==> forall k :: 0 <= k < |sources| ==> !HasSeparator(sources[k].name)
    ensures ok ==> files == InstallAll(disk, sources, mode, prefix) && listing == Listing(sources)
  {
    var archive;
    files, listing := disk, [];
    ok, archive := CreateArchive(sources);
    if ok {
      ExtractArchiveInstalls(sources, disk, mode, prefix);
      ListArchiveLists(sources);
      var extracted, listed;
      extracted, files := ExtractArchive(archive, disk, mode, prefix);
      listed, listing := ListArchive(archive);
    }
  }
}
