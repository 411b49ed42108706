/** What the file operations of fat16/vfs.c mean, for contents, entries and descriptors. */
module FatContents {
  // Files are byte sequences, with the entries that stand for them in the directories and the descriptors
  // of the open ones.  A file is named by its first cluster, as entries and descriptors name it.

  import opened Bytes
  import opened FatChains
  import opened FatTree

  const MAX_OPEN_FILES := 16
  const UINT32 := 0x1_0000_0000

  /** An open-file slot; `mode` is 1 to read, 2 to write and 3 for both. */
  datatype FileDesc = FileDesc(used: bool, path: string, firstCluster: nat, size: nat, offset: nat, mode: nat) {
    predicate Readable() { used && mode % 2 == 1 }
    predicate Writable() { used && mode / 2 % 2 == 1 }
  }

  /** The size of every file: its descriptor's while it is open, its entry's when it is not. */
  type Sizes = map<nat, nat>

  /** The slot in which the entry of every file stands. */
  type Spots = map<nat, Spot>

  /** The abstract file system: the contents of every regular file. */
  type FileMap = map<nat, seq<Byte>>

  /** `bytes` written over `s` from `offset` on, extending it where it is too short. */
  ghost function Overwrite(s: seq<Byte>, offset: nat, bytes: seq<Byte>): (r: seq<Byte>)
    requires offset <= |s|
    ensures |r| == if offset + |bytes| > |s| then offset + |bytes| else |s|
    ensures forall k :: 0 <= k < |r| ==> r[k] == if offset <= k < offset + |bytes| then bytes[k - offset] else s[k]
  {
    s[..offset] + bytes + if offset + |bytes| < |s| then s[offset + |bytes|..] else []
  }

  /** How many clusters `n` bytes fill. */
  function ClustersFor(n: nat): nat {
    if n == 0 then 0 else if n <= CLUSTER_SIZE then 1 else 1 + ClustersFor(n - CLUSTER_SIZE)
  }

  /** The rounding of `vfs_write`, in `uint32_t` arithmetic. */
  function Rounded(n: nat): nat { (n + CLUSTER_SIZE - 1) % UINT32 / CLUSTER_SIZE }

  /** Without a wrap the rounding counts clusters. */
  lemma RoundedCounts(n: nat)
    requires n + CLUSTER_SIZE - 1 < UINT32
    ensures Rounded(n) == ClustersFor(n) && n <= ClustersFor(n) * CLUSTER_SIZE
  {
    RoundingCounts(n, Rounded(n));
  }

  /** How many clusters `vfs_write` adds to a file of `size` bytes. */
  function Added(offset: nat, count: nat, size: nat): nat {
    var needed, current := Rounded((offset + count) % UINT32), Rounded(size);
    if needed > current then needed - current else 0
  }

  lemma {:induction false} FewClusters(n: nat, clusters: nat)
    requires n <= clusters * CLUSTER_SIZE
    ensures ClustersFor(n) <= clusters
  {
    if n > CLUSTER_SIZE {
      FewClusters(n - CLUSTER_SIZE, clusters - 1);
    }
  }

  /** Without a wrap the clusters added are the ones that are missing, and the bytes fit into the longer chain. */
  lemma AddedIsEnough(offset: nat, count: nat, size: nat, length: nat)
    requires offset <= size <= length * CLUSTER_SIZE && length < NUM_CLUSTERS && offset + count + CLUSTER_SIZE - 1 < UINT32
    ensures var needed, current := ClustersFor(offset + count), ClustersFor(size);
      && Added(offset, count, size) == (if needed > current then needed - current else 0)
      && offset + count <= (length + Added(offset, count, size)) * CLUSTER_SIZE
  {
    RoundedCounts(offset + count);
    RoundedCounts(size);
    FewClusters(size, length);
  }

  /** What the number of bytes taken means where nothing wraps: all of them or, for want of clusters, none. */
  lemma WholeUnlessWrapped(offset: nat, count: nat, size: nat, length: nat, free: nat, n: int)
    requires offset <= size <= length * CLUSTER_SIZE && length < NUM_CLUSTERS
    requires var added := Added(offset, count, size);
      var room := (length + added) * CLUSTER_SIZE - offset;
      && (n == -1 <==> added > free || room == 0)
      && (n != -1 ==> n == if count <= room then count else room)
    ensures offset + count + CLUSTER_SIZE - 1 < UINT32 ==>
              && (n != -1 ==> n == count)
              && (count > 0 ==> (n == -1 <==> ClustersFor(offset + count) - ClustersFor(size) > free))
  {
    if offset + count + CLUSTER_SIZE - 1 < UINT32 {
      AddedIsEnough(offset, count, size, length);
    }
  }

  /** A count for which the 32-bit sum wraps to something small: nothing is added, and what fits is written. */
  lemma WrappedCountAddsNothing(offset: nat, size: nat)
    requires offset <= size < 0x1_0000_0000 - CLUSTER_SIZE
    ensures Added(offset, 0x1_0000_0000 - offset, size) == 0
  {
  }

  lemma {:induction false} RoundingCounts(n: nat, clusters: nat)
    requires (clusters - 1) * CLUSTER_SIZE < n <= clusters * CLUSTER_SIZE
    ensures ClustersFor(n) == clusters
  {
    if n > CLUSTER_SIZE {
      RoundingCounts(n - CLUSTER_SIZE, clusters - 1);
    }
  }

  /** What was written is read back, and nothing in front of it has moved. */
  lemma ReadBack(s: seq<Byte>, offset: nat, bytes: seq<Byte>)
    requires offset <= |s|
    ensures var r := Overwrite(s, offset, bytes);
      r[offset..offset + |bytes|] == bytes && r[..offset] == s[..offset]
  {
  }

  /** Two writes in a row, each moving the offset on, are one write of both pieces. */
  lemma ConsecutiveWrites(s: seq<Byte>, offset: nat, a: seq<Byte>, b: seq<Byte>)
    requires offset <= |s|
    ensures Overwrite(Overwrite(s, offset, a), offset + |a|, b) == Overwrite(s, offset, a + b)
  {
  }

  // ---------------------------------------------------------------- the contents of the files

  ghost predicate SizesFit(sizes: Sizes, chains: Chains) {
    forall h :: h in sizes ==> h in chains && Clusters(chains[h]) && sizes[h] <= |chains[h]| * CLUSTER_SIZE
  }

  /** The contents of every regular file: its clusters in chain order, cut to size. */
  ghost function FilesOf(data: seq<Byte>, sizes: Sizes, chains: Chains): FileMap
    requires |data| == DATA_SIZE && SizesFit(sizes, chains)
    ensures FilesOf(data, sizes, chains).Keys == sizes.Keys
  {
    map h | h in sizes :: FileBytes(data, chains[h], sizes[h])
  }

  lemma FileOf(data: seq<Byte>, sizes: Sizes, chains: Chains, h: nat)
    requires |data| == DATA_SIZE && SizesFit(sizes, chains) && h in sizes
    ensures h in chains && Clusters(chains[h]) && sizes[h] <= |chains[h]| * CLUSTER_SIZE
    ensures FilesOf(data, sizes, chains)[h] == FileBytes(data, chains[h], sizes[h])
  {
  }

  /** Lengthening a chain, with or without success of the write behind it, is invisible. */
  lemma FilesAfterGrowth(data: seq<Byte>, sizes: Sizes, was: Chains, now: Chains, h: nat)
    requires |data| == DATA_SIZE && SizesFit(sizes, was) && OnlyLonger(was, now, h) && h in sizes && Clusters(now[h])
    ensures SizesFit(sizes, now) && FilesOf(data, sizes, now) == FilesOf(data, sizes, was)
  {
    LongerChain(data, was[h], now[h], sizes[h]);
  }

  /** What the read loop copied out is a slice of the contents. */
  lemma CopiedSlice(data: seq<Byte>, buf: seq<Byte>, c: Chain, size: nat, offset: nat, n: nat)
    requires CopiedOut(data, buf, c, offset, n) && offset + n <= size <= |c| * CLUSTER_SIZE
    ensures buf[..n] == FileBytes(data, c, size)[offset..offset + n]
  {
  }

  lemma WrittenBytes(data: seq<Byte>, now: seq<Byte>, chains: Chains, tags: seq<Tag>, h: nat, offset: nat, bytes: seq<Byte>, size: nat)
    requires |data| == DATA_SIZE && Written(data, now, chains, tags, h, offset, bytes) && offset <= size
    requires size <= |chains[h]| * CLUSTER_SIZE && offset + |bytes| <= |chains[h]| * CLUSTER_SIZE
    ensures FileBytes(now, chains[h], if offset + |bytes| > size then offset + |bytes| else size)
         == Overwrite(FileBytes(data, chains[h], size), offset, bytes)
  {
  }

  lemma FilesAfterWrite(data: seq<Byte>, now: seq<Byte>, sizes: Sizes, chains: Chains, tags: seq<Tag>,
                        h: nat, offset: nat, bytes: seq<Byte>, size: nat)
    requires |data| == DATA_SIZE && SizesFit(sizes, chains) && h in sizes
    requires offset <= sizes[h] && size == (if offset + |bytes| > sizes[h] then offset + |bytes| else sizes[h])
    requires size <= |chains[h]| * CLUSTER_SIZE && Written(data, now, chains, tags, h, offset, bytes)
    ensures SizesFit(sizes[h := size], chains)
    ensures FilesOf(now, sizes[h := size], chains) ==
              FilesOf(data, sizes, chains)[h := Overwrite(FileBytes(data, chains[h], sizes[h]), offset, bytes)]
  {
    WrittenBytes(data, now, chains, tags, h, offset, bytes, sizes[h]);
    forall q | q in sizes && q != h ensures FileBytes(now, chains[q], sizes[q]) == FileBytes(data, chains[q], sizes[q]) {
      OthersKept(data, now, chains, tags, h, q, sizes[q]);
    }
  }

  /** What changes in the clusters of a directory is in no file. */
  lemma FilesOutside(data: seq<Byte>, now: seq<Byte>, sizes: Sizes, chains: Chains, tags: seq<Tag>, h: nat)
    requires |data| == DATA_SIZE && SizesFit(sizes, chains) && h !in sizes
    requires TagsAre(tags, chains) && ChangedOnlyIn(data, now, tags, h)
    ensures FilesOf(now, sizes, chains) == FilesOf(data, sizes, chains)
  {
    forall q | q in sizes ensures FileBytes(now, chains[q], sizes[q]) == FileBytes(data, chains[q], sizes[q]) {
      OthersKept(data, now, chains, tags, h, q, sizes[q]);
    }
  }

  /** A new chain is in no file. */
  lemma FilesAfterCreate(data: seq<Byte>, sizes: Sizes, chains: Chains, h: nat)
    requires |data| == DATA_SIZE && SizesFit(sizes, chains) && h !in chains
    ensures SizesFit(sizes, chains[h := [h]]) && FilesOf(data, sizes, chains[h := [h]]) == FilesOf(data, sizes, chains)
  {
  }

  /** A new file is empty. */
  lemma FilesAfterEmpty(data: seq<Byte>, sizes: Sizes, chains: Chains, h: nat)
    requires |data| == DATA_SIZE && SizesFit(sizes, chains) && h in chains && Clusters(chains[h])
    ensures SizesFit(sizes[h := 0], chains) && FilesOf(data, sizes[h := 0], chains) == FilesOf(data, sizes, chains)[h := []]
  {
    assert FileBytes(data, chains[h], 0) == [];
  }

  lemma FilesAfterUnlink(data: seq<Byte>, sizes: Sizes, chains: Chains, h: nat)
    requires |data| == DATA_SIZE && SizesFit(sizes, chains)
    ensures SizesFit(sizes - {h}, chains - {h}) && FilesOf(data, sizes - {h}, chains - {h}) == FilesOf(data, sizes, chains) - {h}
  {
  }

  /** A smaller size cuts the contents. */
  lemma FilesAfterCut(data: seq<Byte>, sizes: Sizes, chains: Chains, h: nat, size: nat)
    requires |data| == DATA_SIZE && SizesFit(sizes, chains) && h in sizes && size <= sizes[h]
    ensures SizesFit(sizes[h := size], chains)
    ensures var files := FilesOf(data, sizes, chains);
      |files[h]| >= size && FilesOf(data, sizes[h := size], chains) == files[h := files[h][..size]]
  {
    assert FileBytes(data, chains[h], size) == FileBytes(data, chains[h], sizes[h])[..size];
  }

  // ---------------------------------------------------------------- the entries

  /** The entry of the file `h`; its size is never ahead of the file's. */
  ghost predicate IsEntryOf(dirs: Dirs, p: Spot, h: nat, size: nat) {
    ValidSpot(dirs, p) && At(dirs, p).IsFile() && At(dirs, p).firstCluster == h && At(dirs, p).size <= size
  }

  /** Every file has exactly one entry, and no directory is a file. */
  ghost predicate EntriesMatch(dirs: Dirs, spots: Spots, sizes: Sizes) {
    && TreeValid(dirs) && spots.Keys == sizes.Keys
    && (forall h :: h in spots ==> IsEntryOf(dirs, spots[h], h, sizes[h]))
    && (forall c, j :: c in dirs && 0 <= j < |dirs[c]| && dirs[c][j].IsFile() ==>
          dirs[c][j].firstCluster in spots && spots[dirs[c][j].firstCluster] == Spot(c, j))
  }

  lemma Trees(dirs: Dirs, spots: Spots, sizes: Sizes)
    requires EntriesMatch(dirs, spots, sizes)
    ensures TreeValid(dirs) && ROOT in dirs && spots.Keys == sizes.Keys
  {
  }

  lemma EntryOf(dirs: Dirs, spots: Spots, sizes: Sizes, h: nat)
    requires EntriesMatch(dirs, spots, sizes) && h in sizes
    ensures h in spots && IsEntryOf(dirs, spots[h], h, sizes[h])
  {
  }

  lemma FileAt(dirs: Dirs, spots: Spots, sizes: Sizes, p: Spot)
    requires EntriesMatch(dirs, spots, sizes) && ValidSpot(dirs, p) && At(dirs, p).IsFile()
    ensures At(dirs, p).firstCluster in sizes && At(dirs, p).firstCluster in spots && spots[At(dirs, p).firstCluster] == p
  {
    assert dirs[p.dir][p.index].IsFile();
  }

  /** Every directory but the root has its chain, which is no file's. */
  ghost predicate DirsMatch(dirs: Dirs, sizes: Sizes, chains: Chains) {
    forall c :: c in dirs && c != ROOT ==> c in chains && c !in sizes
  }

  lemma DirsStillMatch(dirs: Dirs, now: Dirs, sizes: Sizes, nowSizes: Sizes, chains: Chains)
    requires DirsMatch(dirs, sizes, chains) && now.Keys == dirs.Keys && nowSizes.Keys == sizes.Keys
    ensures DirsMatch(now, nowSizes, chains)
  {
  }

  lemma DirsOfLonger(dirs: Dirs, sizes: Sizes, was: Chains, now: Chains, h: nat)
    requires DirsMatch(dirs, sizes, was) && OnlyLonger(was, now, h)
    ensures DirsMatch(dirs, sizes, now)
  {
  }

  /** A new chain is no file's and no directory's. */
  lemma DirsOfMore(dirs: Dirs, sizes: Sizes, chains: Chains, c: nat)
    requires DirsMatch(dirs, sizes, chains) && SizesFit(sizes, chains) && c !in chains && c != ROOT
    ensures DirsMatch(dirs, sizes, chains[c := [c]]) && c !in dirs && c !in sizes
  {
  }

  lemma DirsOfFile(dirs: Dirs, now: Dirs, sizes: Sizes, chains: Chains, h: nat)
    requires DirsMatch(dirs, sizes, chains) && now.Keys == dirs.Keys && h !in dirs
    ensures DirsMatch(now, sizes[h := 0], chains)
  {
  }

  lemma DirsOfDir(dirs: Dirs, now: Dirs, sizes: Sizes, chains: Chains, h: nat)
    requires DirsMatch(dirs, sizes, chains) && now.Keys == dirs.Keys + {h} && h in chains && h !in sizes
    ensures DirsMatch(now, sizes, chains)
  {
  }

  lemma DirsOfLess(dirs: Dirs, now: Dirs, sizes: Sizes, chains: Chains, h: nat)
    requires DirsMatch(dirs, sizes, chains) && now.Keys == dirs.Keys && h in sizes
    ensures DirsMatch(now, sizes - {h}, chains - {h})
  {
  }

  /** The entries of these files stand where they stood, unchanged. */
  ghost predicate Unmoved(dirs: Dirs, now: Dirs, spots: Spots) {
    forall g :: g in spots ==> Same(dirs, now, spots[g])
  }

  ghost predicate Same(dirs: Dirs, now: Dirs, p: Spot) {
    ValidSpot(dirs, p) && ValidSpot(now, p) && At(now, p) == At(dirs, p)
  }

  ghost predicate UnmovedBut(dirs: Dirs, now: Dirs, spots: Spots, h: nat) {
    forall g :: g in spots && g != h ==> Same(dirs, now, spots[g])
  }

  /** A slot that holds no file's entry can change without moving any. */
  lemma FreeSpotChanged(dirs: Dirs, spots: Spots, sizes: Sizes, p: Spot, s: Slot)
    requires EntriesMatch(dirs, spots, sizes) && ValidSpot(dirs, p) && At(dirs, p).Unused?
    ensures Unmoved(dirs, Put(dirs, p, s), spots)
  {
    forall g | g in spots ensures spots[g] != p && ValidSpot(dirs, spots[g]) {
      assert IsEntryOf(dirs, spots[g], g, sizes[g]);
    }
  }

  lemma FreeSpotAndNewDir(dirs: Dirs, spots: Spots, sizes: Sizes, p: Spot, name: string, h: nat)
    requires EntriesMatch(dirs, spots, sizes) && ValidSpot(dirs, p) && At(dirs, p).Unused? && h !in dirs
    ensures Unmoved(dirs, WithDir(dirs, p, name, h), spots)
  {
    forall g | g in spots ensures spots[g] != p && ValidSpot(dirs, spots[g]) {
      assert IsEntryOf(dirs, spots[g], g, sizes[g]);
    }
  }

  /** The slot of one file can change without moving the others. */
  lemma OwnSpotChanged(dirs: Dirs, spots: Spots, sizes: Sizes, h: nat, s: Slot)
    requires EntriesMatch(dirs, spots, sizes) && h in spots
    ensures ValidSpot(dirs, spots[h]) && UnmovedBut(dirs, Put(dirs, spots[h], s), spots, h)
  {
    assert IsEntryOf(dirs, spots[h], h, sizes[h]);
    forall g | g in spots && g != h ensures spots[g] != spots[h] && ValidSpot(dirs, spots[g]) {
      assert IsEntryOf(dirs, spots[g], g, sizes[g]);
    }
  }

  lemma EntriesAfterWrite(dirs: Dirs, spots: Spots, sizes: Sizes, h: nat, size: nat)
    requires EntriesMatch(dirs, spots, sizes) && h in sizes && At(dirs, spots[h]).size <= size
    ensures EntriesMatch(dirs, spots, sizes[h := size])
  {
  }

  /** The entry of `h` takes over a new size. */
  lemma EntriesAfterResize(dirs: Dirs, spots: Spots, sizes: Sizes, h: nat, size: nat)
    requires EntriesMatch(dirs, spots, sizes) && h in sizes && size <= sizes[h]
    ensures var now := Put(dirs, spots[h], At(dirs, spots[h]).(size := size));
      EntriesMatch(now, spots, sizes) && Grows(dirs, now) && now.Keys == dirs.Keys
  {
    hide TreeValid, Grows;
    Resized(dirs, spots[h], size);
  }

  lemma EntriesAfterCreate(dirs: Dirs, spots: Spots, sizes: Sizes, p: Spot, name: string, h: nat)
    requires EntriesMatch(dirs, spots, sizes) && RoomFor(dirs, p, name) && h !in spots
    ensures ValidSpot(dirs, p)
    ensures var now := Put(dirs, p, Entry(name, false, h, 0));
      && EntriesMatch(now, spots[h := p], sizes[h := 0]) && Grows(dirs, now) && now.Keys == dirs.Keys
      && Unmoved(dirs, now, spots) && IsEntryOf(now, p, h, 0)
  {
    hide TreeValid, Grows;
    FileAdded(dirs, p, name, h);
    FreeSpotChanged(dirs, spots, sizes, p, Entry(name, false, h, 0));
  }

  lemma EntriesAfterMkdir(dirs: Dirs, spots: Spots, sizes: Sizes, p: Spot, name: string, h: nat)
    requires EntriesMatch(dirs, spots, sizes) && RoomFor(dirs, p, name) && h !in dirs
    ensures ValidSpot(dirs, p)
    ensures var now := WithDir(dirs, p, name, h);
      EntriesMatch(now, spots, sizes) && Grows(dirs, now) && now.Keys == dirs.Keys + {h} && Unmoved(dirs, now, spots)
  {
    hide TreeValid, Grows;
    DirAdded(dirs, p, name, h);
    FreeSpotAndNewDir(dirs, spots, sizes, p, name, h);
  }

  lemma EntriesAfterUnlink(dirs: Dirs, spots: Spots, sizes: Sizes, h: nat)
    requires EntriesMatch(dirs, spots, sizes) && h in sizes
    ensures var now := Put(dirs, spots[h], Unused);
      EntriesMatch(now, spots - {h}, sizes - {h}) && Grows(dirs, now) && now.Keys == dirs.Keys
  {
    hide TreeValid, Grows;
    Deleted(dirs, spots[h]);
  }

  // ---------------------------------------------------------------- the descriptors

  /** A descriptor agrees with its file, and looking its path up finds that file's entry or nothing. */
  ghost predicate DescriptorValid(d: FileDesc, dirs: Dirs, spots: Spots, sizes: Sizes) {
    d.used ==>
      && d.firstCluster in sizes && d.firstCluster in spots && d.size == sizes[d.firstCluster] && d.offset <= d.size
      && Parsed(d.path).Some? && Backed(dirs, Parsed(d.path).value, spots[d.firstCluster])
  }

  ghost predicate SameFile(files: seq<FileDesc>, i: nat, j: nat)
    requires i < |files| && j < |files|
  {
    files[i].used && files[j].used && files[i].firstCluster == files[j].firstCluster
  }

  ghost predicate OneEach(files: seq<FileDesc>) {
    forall i: nat, j: nat {:trigger SameFile(files, i, j)} :: i < j < |files| ==> !SameFile(files, i, j)
  }

  /** The files that are open. */
  ghost function OpenHeads(files: seq<FileDesc>): set<nat> {
    set i | 0 <= i < |files| && files[i].used :: files[i].firstCluster
  }

  /** The entry of `h` has exactly this size. */
  ghost predicate HasSize(dirs: Dirs, spots: Spots, h: nat, size: nat) {
    h in spots && IsEntryOf(dirs, spots[h], h, size) && At(dirs, spots[h]).size == size
  }

  /** No file has two live descriptors, and the size of a file that is not open is its entry's. */
  ghost predicate DescriptorsMatch(files: seq<FileDesc>, dirs: Dirs, spots: Spots, sizes: Sizes) {
    && |files| == MAX_OPEN_FILES && OneEach(files)
    && (forall i :: 0 <= i < |files| ==> DescriptorValid(files[i], dirs, spots, sizes))
    && (forall h :: h in sizes && h !in OpenHeads(files) ==> HasSize(dirs, spots, h, sizes[h]))
  }

  lemma OpenFile(files: seq<FileDesc>, dirs: Dirs, spots: Spots, sizes: Sizes, fd: nat)
    requires DescriptorsMatch(files, dirs, spots, sizes) && fd < |files| && files[fd].used
    ensures var d := files[fd];
      && DescriptorValid(d, dirs, spots, sizes)
      && d.firstCluster in sizes && d.firstCluster in spots && d.size == sizes[d.firstCluster] && d.offset <= d.size
  {
    assert DescriptorValid(files[fd], dirs, spots, sizes);
  }

  lemma HeadsAreFiles(files: seq<FileDesc>, dirs: Dirs, spots: Spots, sizes: Sizes, h: nat)
    requires DescriptorsMatch(files, dirs, spots, sizes) && h in OpenHeads(files)
    ensures h in sizes
  {
    var i :| 0 <= i < |files| && files[i].used && files[i].firstCluster == h;
    assert DescriptorValid(files[i], dirs, spots, sizes);
  }

  /** A file that is not open has the size in its entry. */
  lemma ClosedFile(files: seq<FileDesc>, dirs: Dirs, spots: Spots, sizes: Sizes, p: Spot)
    requires EntriesMatch(dirs, spots, sizes) && DescriptorsMatch(files, dirs, spots, sizes)
    requires ValidSpot(dirs, p) && At(dirs, p).IsFile() && At(dirs, p).firstCluster !in OpenHeads(files)
    ensures var h := At(dirs, p).firstCluster; h in sizes && h in spots && spots[h] == p && sizes[h] == At(dirs, p).size
  {
    FileAt(dirs, spots, sizes, p);
    assert HasSize(dirs, spots, At(dirs, p).firstCluster, sizes[At(dirs, p).firstCluster]);
  }

  function Advanced(d: FileDesc, n: nat): FileDesc {
    d.(offset := d.offset + n, size := if d.offset + n > d.size then d.offset + n else d.size)
  }

  lemma OneEachAfter(files: seq<FileDesc>, fd: nat, d: FileDesc)
    requires OneEach(files) && fd < |files|
    requires d.used ==> (files[fd].used && files[fd].firstCluster == d.firstCluster) || d.firstCluster !in OpenHeads(files)
    ensures OneEach(files[fd := d])
  {
    var now := files[fd := d];
    forall i: nat, j: nat | i < j < |files| ensures !SameFile(now, i, j) {
      assert !SameFile(files, i, j);
    }
  }

  /** A path whose entry was found, or made, keeps leading to it while the tree grows. */
  lemma StillBacked(d: FileDesc, dirs: Dirs, now: Dirs, spots: Spots, sizes: Sizes)
    requires DescriptorValid(d, dirs, spots, sizes) && d.used && Grows(dirs, now)
    requires var p := spots[d.firstCluster];
      ValidSpot(now, p) && At(now, p).IsFile() && At(now, p).name == At(dirs, p).name
    ensures Backed(now, Parsed(d.path).value, spots[d.firstCluster])
  {
    BackedKept(dirs, now, Parsed(d.path).value, spots[d.firstCluster]);
  }

  lemma DescriptorsAfterRead(files: seq<FileDesc>, dirs: Dirs, spots: Spots, sizes: Sizes, fd: nat, n: nat)
    requires DescriptorsMatch(files, dirs, spots, sizes)
    requires fd < |files| && files[fd].used && files[fd].offset + n <= files[fd].size
    ensures DescriptorsMatch(files[fd := files[fd].(offset := files[fd].offset + n)], dirs, spots, sizes)
  {
    var d := files[fd].(offset := files[fd].offset + n);
    OneEachAfter(files, fd, d);
    SameHeads(files, fd, d);
    assert DescriptorValid(files[fd], dirs, spots, sizes);
  }

  lemma SameHeads(files: seq<FileDesc>, fd: nat, d: FileDesc)
    requires fd < |files| && files[fd].used && d.used && d.firstCluster == files[fd].firstCluster
    ensures OpenHeads(files[fd := d]) == OpenHeads(files) && d.firstCluster in OpenHeads(files)
  {
    var now := files[fd := d];
    assert forall i :: 0 <= i < |files| ==> now[i].used == files[i].used && now[i].firstCluster == files[i].firstCluster;
    assert files[fd].used;
  }

  lemma OneMoreHead(files: seq<FileDesc>, fd: nat, d: FileDesc)
    requires fd < |files| && !files[fd].used && d.used
    ensures OpenHeads(files[fd := d]) == OpenHeads(files) + {d.firstCluster}
  {
    var now := files[fd := d];
    assert forall i :: 0 <= i < |files| && i != fd ==> now[i] == files[i];
    assert now[fd].used;
    forall h | h in OpenHeads(files) ensures h in OpenHeads(now) {
      var i :| 0 <= i < |files| && files[i].used && files[i].firstCluster == h;
      assert now[i].used;
    }
  }

  lemma OneHeadLess(files: seq<FileDesc>, fd: nat)
    requires OneEach(files) && fd < |files| && files[fd].used
    ensures OpenHeads(files[fd := files[fd].(used := false)]) == OpenHeads(files) - {files[fd].firstCluster}
  {
    var now := files[fd := files[fd].(used := false)];
    forall h | h in OpenHeads(files) && h != files[fd].firstCluster ensures h in OpenHeads(now) {
      var i :| 0 <= i < |files| && files[i].used && files[i].firstCluster == h;
      assert now[i].used;
    }
    forall h | h in OpenHeads(now) ensures h in OpenHeads(files) && h != files[fd].firstCluster {
      var i :| 0 <= i < |now| && now[i].used && now[i].firstCluster == h;
      assert files[i].used;
      OtherHead(files, fd, i);
    }
  }

  /** What the lookup at the end of `vfs_write` makes of the directories. */
  function SizeStored(dirs: Dirs, path: string, size: nat): Dirs {
    if Parsed(path).None? || Parsed(path).value == [] then dirs
    else
      var p := FindEntry(dirs, Parsed(path).value);
      if p.None? then dirs else Put(dirs, p.value, At(dirs, p.value).(size := size))
  }

  /** What a write of `n` bytes makes of the directories. */
  function DirsAfterWrite(dirs: Dirs, d: FileDesc, n: nat): Dirs {
    if d.offset + n > d.size then SizeStored(dirs, d.path, d.offset + n) else dirs
  }

  /** The size is stored in the file's own entry, or nowhere. */
  lemma OwnEntryOrNone(dirs: Dirs, spots: Spots, sizes: Sizes, d: FileDesc, n: nat)
    requires TreeValid(dirs) && DescriptorValid(d, dirs, spots, sizes) && d.used
    ensures var p, now := spots[d.firstCluster], DirsAfterWrite(dirs, d, n);
      ValidSpot(dirs, p) && (now == dirs || now == Put(dirs, p, At(dirs, p).(size := Advanced(d, n).size)))
  {
    BackedFinds(dirs, Parsed(d.path).value, spots[d.firstCluster]);
  }

  /** No slot but this has changed, and of this one nothing but the size. */
  ghost predicate OnlySizeAt(dirs: Dirs, now: Dirs, p: Spot) {
    && ValidSpot(dirs, p) && ValidSpot(now, p) && At(dirs, p).Entry? && At(now, p).Entry?
    && At(now, p) == At(dirs, p).(size := At(now, p).size)
    && forall q :: ValidSpot(dirs, q) && q != p ==> ValidSpot(now, q) && At(now, q) == At(dirs, q)
  }

  /**
   A write past the end of the file puts its new size into its entry if and only if all components of the
   path lead to the entry's directory.
   */
  lemma SizeReachesEntry(dirs: Dirs, spots: Spots, sizes: Sizes, d: FileDesc, n: nat)
    requires EntriesMatch(dirs, spots, sizes) && DescriptorValid(d, dirs, spots, sizes) && d.used && d.offset + n > d.size
    ensures var p, now := spots[d.firstCluster], DirsAfterWrite(dirs, d, n);
      && OnlySizeAt(dirs, now, p)
      && (At(now, p).size == d.offset + n <==> LeadsTo(dirs, Parsed(d.path).value, p.dir))
  {
    var p := spots[d.firstCluster];
    EntryOf(dirs, spots, sizes, d.firstCluster);
    BackedFinds(dirs, Parsed(d.path).value, p);
    LeadsToWalk(dirs, Parsed(d.path).value, p.dir);
  }

  lemma EntriesAfterAdvance(dirs: Dirs, spots: Spots, sizes: Sizes, d: FileDesc, n: nat)
    requires EntriesMatch(dirs, spots, sizes) && DescriptorValid(d, dirs, spots, sizes) && d.used
    ensures var h, now := d.firstCluster, DirsAfterWrite(dirs, d, n);
      && EntriesMatch(now, spots, sizes[h := Advanced(d, n).size])
      && Grows(dirs, now) && now.Keys == dirs.Keys && UnmovedBut(dirs, now, spots, h) && h in spots
      && ValidSpot(dirs, spots[h]) && ValidSpot(now, spots[h]) && At(now, spots[h]).IsFile()
      && At(now, spots[h]).name == At(dirs, spots[h]).name
  {
    var h, size := d.firstCluster, Advanced(d, n).size;
    OwnEntryOrNone(dirs, spots, sizes, d, n);
    EntriesAfterWrite(dirs, spots, sizes, h, size);
    EntriesAfterResize(dirs, spots, sizes[h := size], h, size);
    OwnSpotChanged(dirs, spots, sizes, h, At(dirs, spots[h]).(size := size));
    NothingGrows(dirs, spots, sizes);
  }

  lemma NothingGrows(dirs: Dirs, spots: Spots, sizes: Sizes)
    requires EntriesMatch(dirs, spots, sizes)
    ensures Grows(dirs, dirs) && Unmoved(dirs, dirs, spots)
  {
    forall g | g in spots ensures ValidSpot(dirs, spots[g]) {
      assert IsEntryOf(dirs, spots[g], g, sizes[g]);
    }
  }

  /** A descriptor stays valid while its file's entry stays in its slot. */
  lemma StillValid(d: FileDesc, dirs: Dirs, now: Dirs, spots: Spots, later: Spots, sizes: Sizes, laterSizes: Sizes)
    requires DescriptorValid(d, dirs, spots, sizes) && d.used && Grows(dirs, now)
    requires var h := d.firstCluster;
      && h in later && later[h] == spots[h] && h in laterSizes && laterSizes[h] == sizes[h]
      && ValidSpot(now, spots[h]) && At(now, spots[h]).IsFile() && At(now, spots[h]).name == At(dirs, spots[h]).name
    ensures DescriptorValid(d, now, later, laterSizes)
  {
    StillBacked(d, dirs, now, spots, sizes);
  }

  /** A descriptor that moves on disturbs no other. */
  lemma DescriptorsAfterAdvance(files: seq<FileDesc>, dirs: Dirs, now: Dirs, spots: Spots, sizes: Sizes, fd: nat, n: nat)
    requires DescriptorsMatch(files, dirs, spots, sizes) && fd < |files| && files[fd].used
    requires Grows(dirs, now) && UnmovedBut(dirs, now, spots, files[fd].firstCluster) && spots.Keys == sizes.Keys
    requires var h := files[fd].firstCluster;
      h in spots ==>
        && ValidSpot(now, spots[h]) && At(now, spots[h]).IsFile() && ValidSpot(dirs, spots[h])
        && At(now, spots[h]).name == At(dirs, spots[h]).name
    ensures var d := Advanced(files[fd], n); DescriptorsMatch(files[fd := d], now, spots, sizes[d.firstCluster := d.size])
  {
    var d := Advanced(files[fd], n);
    var after, sizes' := files[fd := d], sizes[d.firstCluster := d.size];
    OneEachAfter(files, fd, d);
    forall i | 0 <= i < |files| ensures DescriptorValid(after[i], now, spots, sizes') {
      assert DescriptorValid(files[i], dirs, spots, sizes);
      if files[i].used {
        OtherHead(files, fd, i);
        assert i != fd ==> Same(dirs, now, spots[files[i].firstCluster]);
        StillBacked(files[i], dirs, now, spots, sizes);
      }
    }
    SameHeads(files, fd, d);
    forall h | h in sizes' && h !in OpenHeads(after) ensures HasSize(now, spots, h, sizes'[h]) {
      SizeKept(dirs, now, spots, d.firstCluster, h, sizes[h]);
    }
  }

  /** A descriptor that moves on keeps everything in agreement. */
  lemma Advancing(files: seq<FileDesc>, dirs: Dirs, spots: Spots, sizes: Sizes, chains: Chains, fd: nat, n: nat)
    requires EntriesMatch(dirs, spots, sizes) && DescriptorsMatch(files, dirs, spots, sizes) && DirsMatch(dirs, sizes, chains)
    requires fd < |files| && files[fd].used
    ensures var d, now := Advanced(files[fd], n), DirsAfterWrite(dirs, files[fd], n);
      && EntriesMatch(now, spots, sizes[d.firstCluster := d.size]) && DirsMatch(now, sizes[d.firstCluster := d.size], chains)
      && DescriptorsMatch(files[fd := d], now, spots, sizes[d.firstCluster := d.size])
  {
    hide EntriesMatch, DescriptorsMatch, DirsMatch, DescriptorValid, DirsAfterWrite, Grows, UnmovedBut;
    var d, now := Advanced(files[fd], n), DirsAfterWrite(dirs, files[fd], n);
    Trees(dirs, spots, sizes);
    OpenFile(files, dirs, spots, sizes, fd);
    EntriesAfterAdvance(dirs, spots, sizes, files[fd], n);
    DescriptorsAfterAdvance(files, dirs, now, spots, sizes, fd, n);
    DirsStillMatch(dirs, now, sizes, sizes[d.firstCluster := d.size], chains);
  }

  lemma SizeKept(dirs: Dirs, now: Dirs, spots: Spots, h: nat, g: nat, size: nat)
    requires UnmovedBut(dirs, now, spots, h) && g != h && HasSize(dirs, spots, g, size)
    ensures HasSize(now, spots, g, size)
  {
    assert Same(dirs, now, spots[g]);
  }

  lemma OtherHead(files: seq<FileDesc>, fd: nat, i: nat)
    requires OneEach(files) && fd < |files| && i < |files| && files[i].used && files[fd].used
    ensures i == fd || files[i].firstCluster != files[fd].firstCluster
  {
    if i != fd {
      assert if i < fd then !SameFile(files, i, fd) else !SameFile(files, fd, i);
    }
  }

  /** Entries other than those of the open files may come. */
  lemma DescriptorsAfterCreate(files: seq<FileDesc>, dirs: Dirs, now: Dirs, spots: Spots, sizes: Sizes, p: Spot, h: nat)
    requires DescriptorsMatch(files, dirs, spots, sizes) && spots.Keys == sizes.Keys && h !in spots
    requires Grows(dirs, now) && Unmoved(dirs, now, spots) && IsEntryOf(now, p, h, 0)
    ensures DescriptorsMatch(files, now, spots[h := p], sizes[h := 0])
  {
    forall g | g in sizes[h := 0] && g !in OpenHeads(files) ensures HasSize(now, spots[h := p], g, sizes[h := 0][g]) {
      assert g != h ==> HasSize(dirs, spots, g, sizes[g]);
    }
    forall i | 0 <= i < |files| ensures DescriptorValid(files[i], now, spots[h := p], sizes[h := 0]) {
      assert DescriptorValid(files[i], dirs, spots, sizes);
      if files[i].used {
        StillValid(files[i], dirs, now, spots, spots[h := p], sizes, sizes[h := 0]);
      }
    }
  }

  lemma DescriptorsAfterMkdir(files: seq<FileDesc>, dirs: Dirs, now: Dirs, spots: Spots, sizes: Sizes)
    requires DescriptorsMatch(files, dirs, spots, sizes) && Grows(dirs, now) && Unmoved(dirs, now, spots)
    ensures DescriptorsMatch(files, now, spots, sizes)
  {
    forall g | g in sizes && g !in OpenHeads(files) ensures HasSize(now, spots, g, sizes[g]) {
      assert HasSize(dirs, spots, g, sizes[g]);
    }
    forall i | 0 <= i < |files| ensures DescriptorValid(files[i], now, spots, sizes) {
      assert DescriptorValid(files[i], dirs, spots, sizes);
      if files[i].used {
        StillValid(files[i], dirs, now, spots, spots, sizes, sizes);
      }
    }
  }

  lemma DescriptorsAfterUnlink(files: seq<FileDesc>, dirs: Dirs, now: Dirs, spots: Spots, sizes: Sizes, h: nat)
    requires DescriptorsMatch(files, dirs, spots, sizes) && h !in OpenHeads(files)
    requires Grows(dirs, now) && UnmovedBut(dirs, now, spots, h)
    ensures DescriptorsMatch(files, now, spots - {h}, sizes - {h})
  {
    forall g | g in sizes - {h} && g !in OpenHeads(files) ensures HasSize(now, spots - {h}, g, (sizes - {h})[g]) {
      assert HasSize(dirs, spots, g, sizes[g]);
    }
    forall i | 0 <= i < |files| ensures DescriptorValid(files[i], now, spots - {h}, sizes - {h}) {
      assert DescriptorValid(files[i], dirs, spots, sizes);
      if files[i].used {
        assert files[i].firstCluster in OpenHeads(files);
        StillValid(files[i], dirs, now, spots, spots - {h}, sizes, sizes - {h});
      }
    }
  }

  /** A file that is not open can go. */
  lemma Removing(files: seq<FileDesc>, dirs: Dirs, spots: Spots, sizes: Sizes, chains: Chains, h: nat)
    requires EntriesMatch(dirs, spots, sizes) && DescriptorsMatch(files, dirs, spots, sizes) && DirsMatch(dirs, sizes, chains)
    requires h in sizes && h !in OpenHeads(files)
    ensures h in spots && ValidSpot(dirs, spots[h])
    ensures var now := Put(dirs, spots[h], Unused);
      && EntriesMatch(now, spots - {h}, sizes - {h}) && DescriptorsMatch(files, now, spots - {h}, sizes - {h})
      && DirsMatch(now, sizes - {h}, chains - {h})
  {
    hide EntriesMatch, DescriptorsMatch, DirsMatch, Grows, UnmovedBut;
    EntryOf(dirs, spots, sizes, h);
    var now := Put(dirs, spots[h], Unused);
    EntriesAfterUnlink(dirs, spots, sizes, h);
    OwnSpotChanged(dirs, spots, sizes, h, Unused);
    DescriptorsAfterUnlink(files, dirs, now, spots, sizes, h);
    DirsOfLess(dirs, now, sizes, chains, h);
  }

  lemma DescriptorsAfterOpen(files: seq<FileDesc>, dirs: Dirs, spots: Spots, sizes: Sizes, fd: nat, d: FileDesc)
    requires DescriptorsMatch(files, dirs, spots, sizes) && fd < |files| && !files[fd].used
    requires DescriptorValid(d, dirs, spots, sizes) && d.used && d.firstCluster !in OpenHeads(files)
    ensures DescriptorsMatch(files[fd := d], dirs, spots, sizes)
  {
    OneEachAfter(files, fd, d);
    OneMoreHead(files, fd, d);
  }

  /** Closing a file leaves it with the size in its entry. */
  lemma DescriptorsAfterClose(files: seq<FileDesc>, dirs: Dirs, spots: Spots, sizes: Sizes, fd: nat, size: nat)
    requires DescriptorsMatch(files, dirs, spots, sizes) && fd < |files| && files[fd].used
    requires HasSize(dirs, spots, files[fd].firstCluster, size)
    ensures DescriptorsMatch(files[fd := files[fd].(used := false)], dirs, spots, sizes[files[fd].firstCluster := size])
  {
    var h, closed := files[fd].firstCluster, files[fd := files[fd].(used := false)];
    var now := sizes[h := size];
    OneEachAfter(files, fd, closed[fd]);
    forall i | 0 <= i < |files| ensures DescriptorValid(closed[i], dirs, spots, now) {
      assert DescriptorValid(files[i], dirs, spots, sizes);
      if files[i].used {
        OtherHead(files, fd, i);
      }
    }
    OneHeadLess(files, fd);
    forall g | g in now && g !in OpenHeads(closed) ensures HasSize(dirs, spots, g, now[g]) {
      assert g != h ==> HasSize(dirs, spots, g, sizes[g]);
    }
  }
}
