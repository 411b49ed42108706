/** Where fat16/vfs.c puts the FAT, the root directory and the data in the payload of a flash image. */
module FlashLayout {
  // What `vfs_flush` lays out, `vfs_mount` reads back, so that recovery is recovery of the file system.

  import opened Bytes
  import opened FatChains
  import opened FatTree
  import Flash

  const FAT_SIZE := 2 * NUM_CLUSTERS
  const ENTRY_SIZE := 32
  const FAT_AT := Flash.SECTOR_SIZE
  const ROOT_AT := FAT_AT + Flash.SECTOR_SIZE
  const DATA_AT := ROOT_AT + ROOT_ENTRIES * ENTRY_SIZE

  type Word16 = n: nat | n < 0x1_0000
  type Word32 = n: nat | n < 0x1_0000_0000

  /** `struct DirEntry`. */
  datatype DirEntry = DirEntry(
    name: seq<Byte>, attributes: Byte, reserved: seq<Byte>, time: Word16, date: Word16, firstCluster: Word16, size: Word32)
  {
    predicate Fits() { |name| == NAME_LENGTH && |reserved| == 10 }
  }

  /** The part of `struct FAT16VFS` that is kept on the flash. */
  datatype Volume = Volume(boot: seq<Byte>, fat: seq<Word16>, root: seq<DirEntry>, data: seq<Byte>) {
    predicate Fits() {
      && |boot| == Flash.SECTOR_SIZE && |fat| == NUM_CLUSTERS && |root| == ROOT_ENTRIES && |data| == DATA_SIZE
      && forall i :: 0 <= i < |root| ==> root[i].Fits()
    }
  }

  // ---------------------------------------------------------------- words and entries

  function Little16(n: Word16): (b: seq<Byte>)
    ensures |b| == 2
  {
    [n % 256, n / 256]
  }

  function Word16At(b: seq<Byte>): Word16
    requires |b| == 2
  {
    b[0] as int + 256 * (b[1] as int)
  }

  function Little32(n: Word32): (b: seq<Byte>)
    ensures |b| == 4
  {
    Little16(n % 0x1_0000) + Little16(n / 0x1_0000)
  }

  function Word32At(b: seq<Byte>): Word32
    requires |b| == 4
  {
    Word16At(b[..2]) + 0x1_0000 * Word16At(b[2..])
  }

  lemma Word16Exactly(b: seq<Byte>, n: Word16)
    requires |b| == 2
    ensures Word16At(b) == n <==> b == Little16(n)
  {
  }

  lemma Word32Exactly(b: seq<Byte>, n: Word32)
    requires |b| == 4
    ensures Word32At(b) == n <==> b == Little32(n)
  {
    hide Little16, Word16At;
    Word16Exactly(b[..2], n % 0x1_0000);
    Word16Exactly(b[2..], n / 0x1_0000);
    assert b == b[..2] + b[2..];
    assert Little32(n)[..2] == Little16(n % 0x1_0000) && Little32(n)[2..] == Little16(n / 0x1_0000);
  }

  function EntryBytes(e: DirEntry): (b: seq<Byte>)
    requires e.Fits()
    ensures |b| == ENTRY_SIZE
  {
    e.name + [e.attributes] + e.reserved + Little16(e.time) + Little16(e.date) + Little16(e.firstCluster) + Little32(e.size)
  }

  function EntryAt(b: seq<Byte>): (e: DirEntry)
    requires |b| == ENTRY_SIZE
    ensures e.Fits()
  {
    DirEntry(b[..11], b[11], b[12..22], Word16At(b[22..24]), Word16At(b[24..26]), Word16At(b[26..28]), Word32At(b[28..]))
  }

  lemma EntryPieces(e: DirEntry)
    requires e.Fits()
    ensures var b := EntryBytes(e);
      && b[..11] == e.name && b[11] == e.attributes && b[12..22] == e.reserved && b[22..24] == Little16(e.time)
      && b[24..26] == Little16(e.date) && b[26..28] == Little16(e.firstCluster) && b[28..] == Little32(e.size)
  {
    hide Little16, Little32;
  }

  lemma Pieces(b: seq<Byte>)
    requires |b| == ENTRY_SIZE
    ensures b == b[..11] + [b[11]] + b[12..22] + b[22..24] + b[24..26] + b[26..28] + b[28..]
  {
  }

  lemma EntryExactly(b: seq<Byte>, e: DirEntry)
    requires |b| == ENTRY_SIZE && e.Fits()
    ensures EntryAt(b) == e <==> b == EntryBytes(e)
  {
    hide Little16, Little32, Word16At, Word32At;
    EntryPieces(e);
    Pieces(b);
    Word16Exactly(b[22..24], e.time);
    Word16Exactly(b[24..26], e.date);
    Word16Exactly(b[26..28], e.firstCluster);
    Word32Exactly(b[28..], e.size);
  }

  // ---------------------------------------------------------------- tables

  /** Entry `i` of a table of entries of this width. */
  function Chunk(b: seq<Byte>, width: nat, i: nat): (c: seq<Byte>)
    requires (i + 1) * width <= |b|
    ensures |c| == width
  {
    assert i * width <= (i + 1) * width;
    assert (i + 1) * width - i * width == width;
    b[i * width..(i + 1) * width]
  }

  ghost predicate FatIs(b: seq<Byte>, fat: seq<Word16>)
    requires |b| == FAT_SIZE && |fat| == NUM_CLUSTERS
  {
    forall i :: 0 <= i < NUM_CLUSTERS ==> Chunk(b, 2, i) == Little16(fat[i])
  }

  ghost predicate RootIs(b: seq<Byte>, root: seq<DirEntry>)
    requires |b| == ROOT_ENTRIES * ENTRY_SIZE && |root| == ROOT_ENTRIES && forall i :: 0 <= i < |root| ==> root[i].Fits()
  {
    forall i :: 0 <= i < ROOT_ENTRIES ==> Chunk(b, ENTRY_SIZE, i) == EntryBytes(root[i])
  }

  function FatOf(b: seq<Byte>): (fat: seq<Word16>)
    requires |b| == FAT_SIZE
    ensures |fat| == NUM_CLUSTERS
  {
    seq(NUM_CLUSTERS, i requires 0 <= i < NUM_CLUSTERS => Word16At(Chunk(b, 2, i)))
  }

  function RootOf(b: seq<Byte>): (root: seq<DirEntry>)
    requires |b| == ROOT_ENTRIES * ENTRY_SIZE
    ensures |root| == ROOT_ENTRIES && forall i :: 0 <= i < |root| ==> root[i].Fits()
  {
    seq(ROOT_ENTRIES, i requires 0 <= i < ROOT_ENTRIES => EntryAt(Chunk(b, ENTRY_SIZE, i)))
  }

  lemma FatExactly(b: seq<Byte>, fat: seq<Word16>)
    requires |b| == FAT_SIZE && |fat| == NUM_CLUSTERS
    ensures FatOf(b) == fat <==> FatIs(b, fat)
  {
    hide Little16, Word16At, Chunk;
    forall i | 0 <= i < NUM_CLUSTERS ensures FatOf(b)[i] == fat[i] <==> Chunk(b, 2, i) == Little16(fat[i]) {
      Word16Exactly(Chunk(b, 2, i), fat[i]);
    }
  }

  lemma RootExactly(b: seq<Byte>, root: seq<DirEntry>)
    requires |b| == ROOT_ENTRIES * ENTRY_SIZE && |root| == ROOT_ENTRIES && forall i :: 0 <= i < |root| ==> root[i].Fits()
    ensures RootOf(b) == root <==> RootIs(b, root)
  {
    hide EntryAt, EntryBytes, Chunk;
    forall i | 0 <= i < ROOT_ENTRIES ensures RootOf(b)[i] == root[i] <==> Chunk(b, ENTRY_SIZE, i) == EntryBytes(root[i]) {
      EntryExactly(Chunk(b, ENTRY_SIZE, i), root[i]);
    }
  }

  // ---------------------------------------------------------------- the payload

  /** What the copies of `vfs_flush` make of the buffer; what lies between and behind them is left as it was. */
  ghost predicate LaidOut(p: Flash.Payload, v: Volume)
    requires v.Fits()
  {
    && p[..FAT_AT] == v.boot && FatIs(p[FAT_AT..FAT_AT + FAT_SIZE], v.fat) && RootIs(p[ROOT_AT..DATA_AT], v.root)
    && p[DATA_AT..DATA_AT + DATA_SIZE] == v.data
  }

  /** What the copies of `vfs_mount` take from it. */
  function VolumeOf(p: Flash.Payload): (v: Volume)
    ensures v.Fits()
  {
    Volume(p[..FAT_AT], FatOf(p[FAT_AT..FAT_AT + FAT_SIZE]), RootOf(p[ROOT_AT..DATA_AT]), p[DATA_AT..DATA_AT + DATA_SIZE])
  }

  /** A mount reads a volume back exactly from the payloads that lay it out. */
  lemma VolumeExactly(p: Flash.Payload, v: Volume)
    requires v.Fits()
    ensures VolumeOf(p) == v <==> LaidOut(p, v)
  {
    hide FatOf, RootOf, FatIs, RootIs;
    FatExactly(p[FAT_AT..FAT_AT + FAT_SIZE], v.fat);
    RootExactly(p[ROOT_AT..DATA_AT], v.root);
  }

  /** The FAT as it lies in memory. */
  function FatBytes(fat: seq<Word16>): (b: seq<Byte>)
    requires |fat| == NUM_CLUSTERS
    ensures |b| == FAT_SIZE && FatIs(b, fat)
  {
    var b: seq<Byte> := seq(FAT_SIZE, k requires 0 <= k < FAT_SIZE => Little16(fat[k / 2])[k % 2]);
    assert forall i :: 0 <= i < NUM_CLUSTERS ==> Chunk(b, 2, i) == Little16(fat[i]);
    b
  }

  function RootBytes(root: seq<DirEntry>): (b: seq<Byte>)
    requires |root| == ROOT_ENTRIES && forall i :: 0 <= i < |root| ==> root[i].Fits()
    ensures |b| == ROOT_ENTRIES * ENTRY_SIZE && RootIs(b, root)
  {
    var b: seq<Byte> := seq(ROOT_ENTRIES * ENTRY_SIZE, k requires 0 <= k < ROOT_ENTRIES * ENTRY_SIZE =>
      EntryBytes(root[k / ENTRY_SIZE])[k % ENTRY_SIZE]);
    assert forall i :: 0 <= i < ROOT_ENTRIES ==> Chunk(b, ENTRY_SIZE, i) == EntryBytes(root[i]);
    b
  }

  method Copy(buffer: array<Byte>, at: nat, bytes: seq<Byte>)
    requires at + |bytes| <= buffer.Length
    modifies buffer
    ensures buffer[at..at + |bytes|] == bytes
    ensures forall i, j :: 0 <= i <= j <= at ==> buffer[i..j] == old(buffer[i..j])
  {
    forall k | 0 <= k < |bytes| {
      buffer[at + k] := bytes[k];
    }
  }

  /** The copies of `vfs_flush`; the header comes in front of them. */
  method LayOut(v: Volume, buffer: array<Byte>)
    requires v.Fits() && buffer.Length == 524288
    modifies buffer
    ensures LaidOut(buffer[Flash.SECTOR_SIZE..], v)
  {
    hide FatIs, RootIs;
    var offset := Flash.SECTOR_SIZE;
    Copy(buffer, offset, v.boot);
    offset := offset + Flash.SECTOR_SIZE;
    Copy(buffer, offset, FatBytes(v.fat));
    offset := offset + Flash.SECTOR_SIZE;
    Copy(buffer, offset, RootBytes(v.root));
    offset := offset + ROOT_ENTRIES * ENTRY_SIZE;
    Copy(buffer, offset, v.data);
    Behind(buffer[..], v);
  }

  /** The same places, counted from the start of the buffer and from behind the header. */
  lemma Behind(b: seq<Byte>, v: Volume)
    requires |b| == Flash.FLASH_SIZE && v.Fits()
    requires b[512..1024] == v.boot && b[1024..1274] == FatBytes(v.fat) && b[1536..9728] == RootBytes(v.root)
    requires b[9728..521728] == v.data
    ensures LaidOut(b[Flash.SECTOR_SIZE..], v)
  {
    hide FatIs, RootIs;
    var p := b[Flash.SECTOR_SIZE..];
    assert p[..FAT_AT] == b[512..1024] && p[FAT_AT..FAT_AT + FAT_SIZE] == b[1024..1274];
    assert p[ROOT_AT..DATA_AT] == b[1536..9728] && p[DATA_AT..DATA_AT + DATA_SIZE] == b[9728..521728];
  }

  lemma SliceOfSlice(b: seq<Byte>, lo: nat, hi: nat, i: nat, j: nat)
    requires lo <= hi <= |b| && i <= j <= hi - lo
    ensures b[lo..hi][i..j] == b[lo + i..lo + j]
  {
    var outer, inner := b[lo..hi], b[lo + i..lo + j];
    assert |outer[i..j]| == |inner|;
    forall k | 0 <= k < j - i ensures outer[i..j][k] == inner[k] {
      assert outer[i..j][k] == outer[i + k];
    }
  }

  /** The number in some bytes, the low one first. */
  function Value(b: seq<Byte>): nat {
    if b == [] then 0 else b[0] as int + 256 * Value(b[1..])
  }

  lemma WordIs(b: seq<Byte>)
    requires |b| == 2
    ensures Word16At(b) == Value(b)
  {
    assert b[1..][1..] == [] && b[1..][0] == b[1];
    assert Value(b[1..]) == b[1] as int;
  }

  lemma LongWordIs(b: seq<Byte>)
    requires |b| == 4
    ensures Word32At(b) == Value(b)
  {
    assert b[1..][1..] == b[2..];
    WordIs(b[2..]);
    assert b[..2] == [b[0], b[1]];
  }

  /** The FAT starts at byte 1024 of the image, two bytes a cluster, the low one first. */
  lemma FatAt(image: seq<Byte>, c: nat)
    requires |image| == 524288 && c < 125
    ensures VolumeOf(image[512..]).fat[c] == Value(image[1024 + 2 * c..1026 + 2 * c])
  {
    hide RootOf, Word16At, Value;
    var p := image[512..];
    SliceOfSlice(p, FAT_AT, FAT_AT + FAT_SIZE, c * 2, (c + 1) * 2);
    SliceOfSlice(image, 512, 524288, FAT_AT + c * 2, FAT_AT + (c + 1) * 2);
    assert image[512..524288] == p;
    WordIs(Chunk(p[FAT_AT..FAT_AT + FAT_SIZE], 2, c));
  }

  /** The clusters of data start at byte 9728. */
  lemma DataAt(image: seq<Byte>)
    requires |image| == 524288
    ensures VolumeOf(image[512..]).data == image[9728..521728]
  {
    hide RootOf, FatOf;
    assert image[512..524288] == image[512..];
    SliceOfSlice(image, 512, 524288, DATA_AT, DATA_AT + DATA_SIZE);
  }

  /** The fields of entry `i` of the root directory. */
  lemma FieldsAre(image: seq<Byte>, i: nat)
    requires |image| == 524288 && i < 256
    ensures var e, at := VolumeOf(image[512..]).root[i], 1536 + 32 * i;
      && e.name == image[at..at + 11] && e.attributes == image[at + 11]
      && e.firstCluster == Value(image[at + 26..at + 28]) && e.size == Value(image[at + 28..at + 32])
  {
    hide FatOf, Value, EntryAt;
    var at, p := 1536 + 32 * i, image[512..];
    SliceOfSlice(p, ROOT_AT, DATA_AT, i * ENTRY_SIZE, (i + 1) * ENTRY_SIZE);
    SliceOfSlice(image, 512, 524288, ROOT_AT + i * ENTRY_SIZE, ROOT_AT + (i + 1) * ENTRY_SIZE);
    assert image[512..524288] == p;
    var b := Chunk(p[ROOT_AT..DATA_AT], ENTRY_SIZE, i);
    assert b == image[at..at + 32];
    EntryFields(b);
    SliceOfSlice(image, at, at + 32, 0, 11);
    SliceOfSlice(image, at, at + 32, 26, 28);
    SliceOfSlice(image, at, at + 32, 28, 32);
  }

  lemma EntryFields(b: seq<Byte>)
    requires |b| == 32
    ensures var e := EntryAt(b);
      && e.name == b[..11] && e.attributes == b[11] && e.firstCluster == Value(b[26..28]) && e.size == Value(b[28..32])
  {
    hide Word16At, Word32At;
    WordIs(b[26..28]);
    assert b[28..] == b[28..32];
    LongWordIs(b[28..]);
  }

  // ---------------------------------------------------------------- slots as bytes

  function HeaderAt(b: seq<Byte>): Flash.Header
    requires |b| >= 16
  {
    Flash.Header(Value(b[..4]), Value(b[4..8]), Value(b[8..16]))
  }

  /** `struct FlashHeader` in the first sector, the payload behind it. */
  function SlotAt(image: seq<Byte>): Flash.Slot
    requires |image| == 524288
  {
    Flash.Slot(HeaderAt(image[..512]), image[512..])
  }

  /** The first bytes of an image that a mount considers. */
  lemma MagicBytes(image: seq<Byte>)
    requires |image| == 524288
    ensures Flash.HasMagic(SlotAt(image)) <==> image[..4] == [0x16, 0xF4, 0, 0]
  {
    assert image[..512][..4] == image[..4];
    LongWordIs(image[..4]);
    Word32Exactly(image[..4], 0xF416);
    assert Little32(0xF416) == [0x16, 0xF4, 0, 0];
  }

  /** The first `k` sectors of one image over another, byte for byte, are what the protocol takes a torn write to be. */
  lemma TornImage(was: seq<Byte>, now: seq<Byte>, k: nat)
    requires |was| == |now| == 524288 && k <= 1024
    ensures SlotAt(now[..512 * k] + was[512 * k..]) == Flash.WriteSectors(SlotAt(was), SlotAt(now), k)
  {
    hide HeaderAt;
    var image := now[..512 * k] + was[512 * k..];
    if k == 0 {
      assert image == was;
    } else {
      assert image[..512] == now[..512];
      assert image[512..] == now[512..][..(k - 1) * 512] + was[512..][(k - 1) * 512..];
    }
  }

  // ---------------------------------------------------------------- recovery

  ghost function VolumesOf(payloads: set<Flash.Payload>): set<Volume> {
    set p | p in payloads :: VolumeOf(p)
  }

  /**
   Wherever a run is cut off, the next mount brings back the file system of the last flush that reported
   success, or of one attempted after it.
   */
  lemma MountRecoversVolume(crc: Flash.Crc, blank: Flash.Payload, s: Flash.State, events: seq<Flash.Event>)
    requires Flash.HasValidSlot(crc, s) && Flash.SoundRun(crc, blank, Flash.MountStep(crc, blank, s), events)
    ensures var first := Flash.MountStep(crc, blank, s);
            var again := Flash.MountStep(crc, blank, Flash.Run(crc, blank, first, events));
            VolumeOf(again.payload) in VolumesOf(Flash.Acceptable(crc, blank, first, events, {first.payload}))
  {
    Flash.MountRecovers(crc, blank, s, events);
  }

  /** Right after a flush of a volume that reports success, a mount brings that volume back. */
  lemma FlushedVolumeComesBack(crc: Flash.Crc, blank: Flash.Payload, s: Flash.State, events: seq<Flash.Event>,
                               v: Volume, sectors: nat, full: bool)
    requires Flash.HasValidSlot(crc, s) && Flash.SoundRun(crc, blank, Flash.MountStep(crc, blank, s), events)
    requires var u := Flash.Run(crc, blank, Flash.MountStep(crc, blank, s), events);
      && sectors <= Flash.SECTORS && Flash.SoundFlush(crc, u, sectors, full) && Flash.Reports(crc, u, sectors, full)
      && v.Fits() && LaidOut(u.payload, v)
    ensures var u := Flash.Run(crc, blank, Flash.MountStep(crc, blank, s), events);
      VolumeOf(Flash.MountStep(crc, blank, Flash.FlushStep(crc, u, sectors, full)).payload) == v
  {
    var u := Flash.Run(crc, blank, Flash.MountStep(crc, blank, s), events);
    Flash.SuccessIsDurable(crc, blank, s, events, sectors, full);
    VolumeExactly(u.payload, v);
  }
}
