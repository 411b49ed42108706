/**
 The file operations of fat16/vfs.c on top of the FAT: each of them refines an operation on
 plain byte sequences, one per file, and on the directories.
 */
module FatFiles {
  import opened Bytes
  import opened FatChains
  import opened FatTree
  import opened FatContents

  /** A read of `count` bytes has delivered `n` of them: the slice at the offset, as much of it as there is. */
  ghost predicate Delivered(files: FileMap, d: FileDesc, count: nat, buf: seq<Byte>, n: nat) {
    && d.firstCluster in files && d.offset <= |files[d.firstCluster]| && count <= |buf|
    && n == (if count <= |files[d.firstCluster]| - d.offset then count else |files[d.firstCluster]| - d.offset)
    && buf[..n] == files[d.firstCluster][d.offset..d.offset + n]
  }

  /** The entry that `findEntry` returns for a path. */
  function Found(dirs: Dirs, path: string): (p: Option<Spot>)
    ensures p.Some? ==> ValidSpot(dirs, p.value)
  {
    if Parsed(path).None? || Parsed(path).value == [] then None else FindEntry(dirs, Parsed(path).value)
  }

  /** There is room for a new entry: a parent directory without this name and with an unused slot, and a free cluster. */
  ghost predicate CanCreate(dirs: Dirs, path: string, free: nat) {
    && Parsed(path).Some? && FindParent(dirs, Parsed(path).value).Some?
    && var d := dirs[FindParent(dirs, Parsed(path).value).value];
    && NamedSlot(d, LastName(path), 0) == |d| && UnusedSlot(d, 0) < |d| && free > 0
  }

  /** Where the new entry goes. */
  function NewSpot(dirs: Dirs, path: string): Spot
    requires Parsed(path).Some? && FindParent(dirs, Parsed(path).value).Some?
  {
    var c := FindParent(dirs, Parsed(path).value).value;
    Spot(c, UnusedSlot(dirs[c], 0))
  }

  /** When `vfs_open` has a file to open: one that is found, or one that can be created. */
  ghost predicate CanOpen(dirs: Dirs, path: string, create: bool, exclusive: bool, free: nat) {
    var p := Found(dirs, path);
    if p.Some? then At(dirs, p.value).IsFile() && !(create && exclusive)
    else create && CanCreate(dirs, path, free)
  }

  /** A regular file cannot be opened by its path, whatever the flags: it is not found, and its name is taken. */
  lemma ExistingFileCannotBeOpened(dirs: Dirs, path: string, create: bool, exclusive: bool, free: nat)
    requires TreeValid(dirs) && Plain(path) && Parsed(path).Some? && NamesFile(dirs, Parsed(path).value)
    ensures Found(dirs, path) == None && !CanOpen(dirs, path, create, exclusive, free)
  {
    RegularFileIsNeverFound(dirs, Parsed(path).value);
  }

  /** What a path does open of the files that exist: the file of the same name inside the directory that it names. */
  lemma OnlyNamesakesAreFound(dirs: Dirs, path: string, p: Spot)
    requires TreeValid(dirs) && Plain(path) && Parsed(path).Some?
    ensures Found(dirs, path) == Some(p) <==>
              && Walk(dirs, ROOT, Parsed(path).value) == Some(p.dir) && ValidSpot(dirs, p) && At(dirs, p).Named(LastName(path))
  {
    var names := Parsed(path).value;
    if Walk(dirs, ROOT, names) == Some(p.dir) && ValidSpot(dirs, p) && At(dirs, p).Named(LastName(path)) {
      var d := dirs[p.dir];
      var j := NamedSlot(d, LastName(path), 0);
      if j != p.index {
        assert SameName(d, j, p.index);
      }
    }
  }

  /** Nor is its size ever stored in its entry. */
  lemma SizeIsNotStored(dirs: Dirs, d: FileDesc, n: nat)
    requires TreeValid(dirs) && Parsed(d.path).Some? && NamesFile(dirs, Parsed(d.path).value)
    ensures DirsAfterWrite(dirs, d, n) == dirs
  {
    RegularFileIsNeverFound(dirs, Parsed(d.path).value);
  }

  /** How many of `count` bytes a write takes where there is this much room: -1 for none. */
  function Taken(room: int, count: nat): int {
    if room <= 0 then -1 else if count <= room then count else room
  }

  /** The file of descriptor `d` has been overwritten at its offset, and no other file has changed. */
  ghost predicate WroteAs(was: FileMap, now: FileMap, d: FileDesc, bytes: seq<Byte>) {
    && d.firstCluster in was && d.offset <= |was[d.firstCluster]|
    && now == was[d.firstCluster := Overwrite(was[d.firstCluster], d.offset, bytes)]
  }

  ghost predicate DirMadeAt(was: Dirs, now: Dirs, p: Spot, name: string, h: nat) {
    h !in was && ValidSpot(was, p) && now == WithDir(was, p, name, h)
  }

  /** A new directory, with an entry of this name in slot `p`. */
  ghost predicate DirMade(was: Dirs, now: Dirs, p: Spot, name: string) {
    exists h :: DirMadeAt(was, now, p, name, h)
  }

  /** Exactly the clusters of this chain have been freed. */
  ghost predicate Freed(was: seq<nat>, now: seq<nat>, c: Chain) {
    |was| == |now| == NUM_CLUSTERS && forall x :: IsCluster(x) ==> now[x] == if x in c then 0 else was[x]
  }

  /** The entry that `vfs_open` opens: one that is found, with nothing changed, or else that of a new empty file. */
  ghost predicate OpensAt(was: Dirs, now: Dirs, files: FileMap, nowFiles: FileMap, path: string, p: Spot) {
    && ValidSpot(now, p) && At(now, p).Entry? && Parsed(path).Some?
    && if Found(was, path).Some? then
         p == Found(was, path).value && nowFiles == files && now == was
       else
         var h := At(now, p).firstCluster;
         && FindParent(was, Parsed(path).value).Some? && p == NewSpot(was, path) && RoomFor(was, p, LastName(path))
         && h !in files && nowFiles == files[h := []] && now == Put(was, p, Entry(LastName(path), false, h, 0))
  }

  /** Looking the path up again finds that entry or nothing. */
  lemma OpensBacked(was: Dirs, now: Dirs, files: FileMap, nowFiles: FileMap, path: string, p: Spot)
    requires TreeValid(was) && Plain(path) && OpensAt(was, now, files, nowFiles, path, p) && At(now, p).IsFile()
    ensures Backed(now, Parsed(path).value, p)
  {
    var names := Parsed(path).value;
    if Found(was, path).None? {
      FileAdded(was, p, LastName(path), At(now, p).firstCluster);
      WalkKept(was, now, ROOT, names[..|names| - 1]);
    }
  }

  /** A file that has just been created is one that its path names, and so does not find. */
  lemma CreatedIsNamed(was: Dirs, now: Dirs, files: FileMap, nowFiles: FileMap, path: string, p: Spot)
    requires TreeValid(was) && Plain(path) && OpensAt(was, now, files, nowFiles, path, p) && Found(was, path).None?
    ensures NamesFile(now, Parsed(path).value) && TreeValid(now) && Found(now, path) == None
  {
    var names := Parsed(path).value;
    FileAdded(was, p, LastName(path), At(now, p).firstCluster);
    WalkKept(was, now, ROOT, names[..|names| - 1]);
    assert now[p.dir][p.index].Named(names[|names| - 1]);
    RegularFileIsNeverFound(now, names);
  }

  lemma SizeChanged(dirs: Dirs, now: Dirs, p: Spot)
    requires OnlySizeAt(dirs, now, p) && At(dirs, p).IsFile()
    ensures ValidSpot(now, p) && At(now, p).IsFile() && At(now, p).firstCluster == At(dirs, p).firstCluster
  {
  }

  class Fat16 {
    const fat: array<nat>
    const data: array<Byte>
    const openFiles: array<FileDesc>
    var dirs: Dirs
    var dirty: bool
    ghost var chains: Chains
    ghost var tags: seq<Tag>
    ghost var sizes: Sizes
    ghost var spots: Spots

    // -------------------------------------------------------------- invariants

    /** The clusters: chains in the FAT, long enough for the files. */
    ghost predicate FatValid()
      reads this`chains, this`tags, this`sizes, fat
    {
      && fat.Length == NUM_CLUSTERS && data.Length == DATA_SIZE && openFiles.Length == MAX_OPEN_FILES
      && Threaded(fat[..], chains, tags) && SizesFit(sizes, chains)
    }

    ghost predicate Valid()
      reads this`dirs, this`chains, this`tags, this`sizes, this`spots, fat, openFiles
    {
      && FatValid() && EntriesMatch(dirs, spots, sizes) && DirsMatch(dirs, sizes, chains)
      && DescriptorsMatch(openFiles[..], dirs, spots, sizes)
    }

    ghost predicate IsOpen(h: nat)
      reads openFiles
    {
      h in OpenHeads(openFiles[..])
    }

    ghost function Files(): FileMap
      requires FatValid()
      reads this`chains, this`tags, this`sizes, fat, data
    {
      FilesOf(data[..], sizes, chains)
    }

    /** `vfs_init`: every cluster free, an empty root directory, no open file. */
    constructor ()
      ensures Valid() && fresh(fat) && fresh(data) && fresh(openFiles)
      ensures Files() == map[] && !dirty && fat.Length == 125 && data.Length == 125 * 4096 && openFiles.Length == 16
      ensures dirs == EmptyTree() && |FreeClusters(fat[..])| == NUM_CLUSTERS - FIRST_CLUSTER
      ensures forall i :: 0 <= i < MAX_OPEN_FILES ==> !openFiles[i].used
    {
      fat := new nat[NUM_CLUSTERS](_ => 0);
      data := new Byte[DATA_SIZE](_ => 0);
      openFiles := new FileDesc[MAX_OPEN_FILES](_ => FileDesc(false, [], 0, 0, 0, 0));
      dirs, dirty := EmptyTree(), false;
      chains, tags, sizes, spots := map[], seq(NUM_CLUSTERS, _ => Free), map[], map[];
      new;
      Conservation(fat[..], chains, tags);
    }

    // -------------------------------------------------------------- allocation

    /** Take the first free cluster, marking it as the end of a chain; 0 if there is none. */
    method AllocateCluster() returns (cluster: nat)
      requires fat.Length == NUM_CLUSTERS
      modifies fat
      ensures cluster == 0 ==> fat[..] == old(fat[..]) && forall c :: IsCluster(c) ==> fat[c] != 0
      ensures cluster != 0 ==>
                && IsCluster(cluster) && old(fat[cluster]) == 0 && fat[..] == old(fat[..])[cluster := EOC]
                && forall c :: FIRST_CLUSTER <= c < cluster ==> old(fat[c]) != 0
    {
      for i := FIRST_CLUSTER to NUM_CLUSTERS
        invariant fat[..] == old(fat[..])
        invariant forall c :: FIRST_CLUSTER <= c < i ==> fat[c] != 0
      {
        if fat[i] == 0 {
          fat[i] := EOC;
          return i;
        }
      }
      return 0;
    }

    /** Follow the FAT from somewhere in a chain to its end. */
    method FindLast(start: nat, ghost chain: Chain) returns (last: nat)
      requires fat.Length == NUM_CLUSTERS && Clusters(chain) && start in chain
      requires LinkedBy(fat[..], chain)
      ensures last == chain[|chain| - 1]
    {
      ghost var i :| 0 <= i < |chain| && chain[i] == start;
      last := start;
      Follow(fat[..], chain, i);
      while fat[last] != EOC
        invariant 0 <= i < |chain| && last == chain[i] && last < NUM_CLUSTERS
        invariant fat[last] == EOC <==> i == |chain| - 1
        decreases |chain| - i
      {
        Follow(fat[..], chain, i);
        Follow(fat[..], chain, i + 1);
        last := fat[last];
        i := i + 1;
      }
    }

    /** One round of the allocation loop of `vfs_write`: put a fresh cluster behind the chain of `p`. */
    method AddCluster(p: nat, last: nat) returns (newCluster: nat)
      requires fat.Length == NUM_CLUSTERS && Threaded(fat[..], chains, tags) && p in chains && last in chains[p]
      modifies this`chains, this`tags, fat
      ensures Threaded(fat[..], chains, tags)
      ensures newCluster == 0 ==> chains == old(chains) && tags == old(tags) && fat[..] == old(fat[..]) && FreeClusters(fat[..]) == {}
      ensures newCluster != 0 ==>
                && newCluster in FreeClusters(old(fat[..])) && FreeClusters(fat[..]) == FreeClusters(old(fat[..])) - {newCluster}
                && OnlyLonger(old(chains), chains, p) && chains[p] == old(chains[p]) + [newCluster]
    {
      ghost var before: seq<nat> := fat[..];
      newCluster := AllocateCluster();
      if newCluster == 0 {
        assert FreeClusters(fat[..]) == {};
        return;
      }
      MarkedCluster(before, chains, tags, p, newCluster);
      LinkedCluster(before, chains, tags, p, newCluster);
      ExtendChain(before, chains, tags, p, newCluster);
      var l := FindLast(last, chains[p]);
      fat[l] := newCluster;
      ghost var marked: seq<nat> := before[newCluster := EOC];
      assert fat[..] == marked[l := newCluster];
      tags := tags[newCluster := In(p, |chains[p]|)];
      chains := chains[p := chains[p] + [newCluster]];
    }

    /** The allocation loop of `vfs_write`: clusters already taken stay with the chain when space runs out. */
    method Grow(p: nat, firstCluster: nat, clustersToAdd: nat) returns (ok: bool)
      requires fat.Length == NUM_CLUSTERS && Threaded(fat[..], chains, tags) && p in chains && firstCluster in chains[p]
      modifies this`chains, this`tags, fat
      ensures Threaded(fat[..], chains, tags) && OnlyLonger(old(chains), chains, p)
      ensures ok <==> clustersToAdd <= |FreeClusters(old(fat[..]))|
      ensures if ok then |chains[p]| == old(|chains[p]|) + clustersToAdd else |FreeClusters(fat[..])| == 0
    {
      var lastCluster := firstCluster;
      var n := 0;
      while n < clustersToAdd
        invariant 0 <= n <= clustersToAdd
        invariant Threaded(fat[..], chains, tags) && OnlyLonger(old(chains), chains, p) && lastCluster in chains[p]
        invariant |chains[p]| == old(|chains[p]|) + n && |FreeClusters(fat[..])| + n == |FreeClusters(old(fat[..]))|
      {
        var newCluster := AddCluster(p, lastCluster);
        if newCluster == 0 {
          return false;
        }
        lastCluster := newCluster;
        assert chains[p][|chains[p]| - 1] == lastCluster;
        n := n + 1;
      }
      return true;
    }

    /** Follow `hops` links from the first cluster, or to the end of the chain. */
    method Seek(firstCluster: nat, hops: nat, ghost chain: Chain) returns (current: nat)
      requires fat.Length == NUM_CLUSTERS && chain != [] && hops <= |chain| && firstCluster == chain[0]
      requires LinkedBy(fat[..], chain)
      ensures current == if hops < |chain| then chain[hops] else EOC
      ensures current == EOC <==> hops == |chain|
    {
      current := firstCluster;
      var i := 0;
      assert IsCluster(chain[0]);
      while i < hops && current != EOC
        invariant 0 <= i <= hops && current == (if i < |chain| then chain[i] else EOC)
        invariant current == EOC <==> i == |chain|
      {
        Follow(fat[..], chain, i);
        current := fat[current];
        i := i + 1;
      }
    }

    // -------------------------------------------------------------- reading

    /** `memcpy` from the data area. */
    method CopyOut(buf: array<Byte>, at: nat, base: nat, n: nat)
      requires buf != data && at + n <= buf.Length && base + n <= data.Length
      modifies buf
      ensures Patched(old(buf[..]), buf[..], at, data[base..base + n])
    {
      forall k | 0 <= k < n {
        buf[at + k] := data[base + k];
      }
    }

    /** The loop of `vfs_read`: copy out `want` bytes from `offset` on, cluster by cluster. */
    method ReadClusters(start: nat, offset: nat, want: nat, buf: array<Byte>, ghost chain: Chain)
      requires fat.Length == NUM_CLUSTERS && data.Length == DATA_SIZE && buf != data && want <= buf.Length
      requires Clusters(chain) && LinkedBy(fat[..], chain)
      requires offset < |chain| * CLUSTER_SIZE && offset + want <= |chain| * CLUSTER_SIZE && start == chain[offset / CLUSTER_SIZE]
      modifies buf
      ensures CopiedOut(data[..], buf[..], chain, offset, want)
    {
      var bytesRead, current, intraOffset := 0, start, offset % CLUSTER_SIZE;
      ghost var i := offset / CLUSTER_SIZE;
      while bytesRead < want
        invariant 0 <= bytesRead <= want
        invariant offset + bytesRead == i * CLUSTER_SIZE + intraOffset && 0 <= intraOffset < CLUSTER_SIZE
        invariant 0 <= i < |chain| && current == chain[i]
        invariant CopiedOut(data[..], buf[..], chain, offset, bytesRead)
      {
        ghost var mid := buf[..];
        var chunkSize := CLUSTER_SIZE - intraOffset;
        if chunkSize > want - bytesRead {
          chunkSize := want - bytesRead;
        }
        assert IsCluster(current);
        CopyOut(buf, bytesRead, (current - FIRST_CLUSTER) * CLUSTER_SIZE + intraOffset, chunkSize);
        CopyChunk(data[..], mid, buf[..], chain, offset, bytesRead, chunkSize, i, intraOffset);
        bytesRead := bytesRead + chunkSize;
        intraOffset := intraOffset + chunkSize;
        if intraOffset >= CLUSTER_SIZE {
          Follow(fat[..], chain, i);
          current := fat[current];
          i := i + 1;
          intraOffset := 0;
          if current == EOC {
            break;
          }
        }
      }
    }

    // -------------------------------------------------------------- writing

    /** `memcpy` into the data area. */
    method CopyIn(base: nat, buf: array<Byte>, from: nat, n: nat)
      requires buf != data && from + n <= buf.Length && base + n <= data.Length
      modifies data
      ensures Patched(old(data[..]), data[..], base, buf[from..from + n])
    {
      forall k | 0 <= k < n {
        data[base + k] := buf[from + k];
      }
    }

    /** One chunk of the write loop. */
    method WriteChunk(current: nat, intraOffset: nat, buf: array<Byte>, from: nat, n: nat,
                      ghost before: seq<Byte>, ghost p: nat, ghost offset: nat, ghost i: nat)
      requires data.Length == DATA_SIZE && buf != data && from + n <= buf.Length
      requires Written(before, data[..], chains, tags, p, offset, buf[..from])
      requires i < |chains[p]| && current == chains[p][i] && offset + from == i * CLUSTER_SIZE + intraOffset
      requires intraOffset + n <= CLUSTER_SIZE
      modifies data
      ensures Written(before, data[..], chains, tags, p, offset, buf[..from + n])
    {
      ghost var mid := data[..];
      assert IsCluster(current);
      CopyIn((current - FIRST_CLUSTER) * CLUSTER_SIZE + intraOffset, buf, from, n);
      AppendChunk(before, mid, data[..], chains, tags, p, offset, buf[..from], buf[from..from + n], i, intraOffset);
      assert buf[..from] + buf[from..from + n] == buf[..from + n];
    }

    /** The loop of `vfs_write`: copy bytes in from `offset` on, cluster by cluster, until `count` or the chain is used up. */
    method WriteClusters(start: nat, offset: nat, buf: array<Byte>, count: nat, ghost p: nat, ghost chain: Chain)
        returns (bytesWritten: nat)
      requires fat.Length == NUM_CLUSTERS && data.Length == DATA_SIZE && buf != data && count <= buf.Length
      requires TagsAre(tags, chains) && p in chains && chain == chains[p]
      requires Clusters(chain) && LinkedBy(fat[..], chain)
      requires offset < |chain| * CLUSTER_SIZE && start == chain[offset / CLUSTER_SIZE]
      modifies data
      ensures bytesWritten == (if offset + count <= |chain| * CLUSTER_SIZE then count else |chain| * CLUSTER_SIZE - offset)
      ensures bytesWritten <= buf.Length && Written(old(data[..]), data[..], chains, tags, p, offset, buf[..bytesWritten])
    {
      ghost var before := data[..];
      NothingWritten(before, chains, tags, p, offset);
      assert buf[..0] == [];
      bytesWritten := 0;
      var current, intraOffset := start, offset % CLUSTER_SIZE;
      ghost var i := offset / CLUSTER_SIZE;
      while bytesWritten < count
        invariant 0 <= bytesWritten <= count
        invariant offset + bytesWritten == i * CLUSTER_SIZE + intraOffset && 0 <= intraOffset < CLUSTER_SIZE
        invariant 0 <= i < |chain| && current == chain[i]
        invariant Written(before, data[..], chains, tags, p, offset, buf[..bytesWritten])
      {
        var chunkSize := CLUSTER_SIZE - intraOffset;
        if chunkSize > count - bytesWritten {
          chunkSize := count - bytesWritten;
        }
        WriteChunk(current, intraOffset, buf, bytesWritten, chunkSize, before, p, offset, i);
        bytesWritten := bytesWritten + chunkSize;
        intraOffset := intraOffset + chunkSize;
        if intraOffset >= CLUSTER_SIZE {
          Follow(fat[..], chain, i);
          current := fat[current];
          i := i + 1;
          intraOffset := 0;
          if current == EOC {
            break;
          }
        }
      }
    }

    // -------------------------------------------------------------- vfs_read and vfs_write

    ghost predicate CanRead(fd: int)
      requires openFiles.Length == MAX_OPEN_FILES
      reads openFiles
    {
      0 <= fd < MAX_OPEN_FILES && openFiles[fd].Readable()
    }

    ghost predicate CanWrite(fd: int)
      requires openFiles.Length == MAX_OPEN_FILES
      reads openFiles
    {
      0 <= fd < MAX_OPEN_FILES && openFiles[fd].Writable()
    }

    /** Store a descriptor that fits its file. */
    method Store(fd: nat, file: FileDesc)
      requires FatValid() && EntriesMatch(dirs, spots, sizes) && DirsMatch(dirs, sizes, chains)
      requires fd < MAX_OPEN_FILES && DescriptorsMatch(openFiles[..][fd := file], dirs, spots, sizes)
      modifies openFiles
      ensures Valid() && openFiles[..] == old(openFiles[..])[fd := file]
    {
      hide Threaded, SizesFit, EntriesMatch, DirsMatch, DescriptorsMatch, FilesOf;
      openFiles[fd] := file;
      assert openFiles[..] == old(openFiles[..])[fd := file];
    }

    /** The part of `vfs_read` behind the checks: the slice at the offset. */
    method ReadAt(file: FileDesc, want: nat, buf: array<Byte>)
      requires FatValid() && file.firstCluster in sizes && file.size == sizes[file.firstCluster]
      requires buf != data && want <= buf.Length && file.offset < file.size && file.offset + want <= file.size
      modifies buf
      ensures buf[..want] == Files()[file.firstCluster][file.offset..file.offset + want]
    {
      hide Threaded, SizesFit, EntriesMatch, DirsMatch, DescriptorsMatch, FilesOf;
      FileOf(data[..], sizes, chains, file.firstCluster);
      ChainOf(fat[..], chains, tags, file.firstCluster);
      ghost var chain := chains[file.firstCluster];
      var current := Seek(file.firstCluster, file.offset / CLUSTER_SIZE, chain);
      if current == EOC {
        assert false;
      }
      ReadClusters(current, file.offset, want, buf, chain);
      CopiedSlice(data[..], buf[..], chain, file.size, file.offset, want);
    }

    /** `vfs_read` behind the check of the descriptor. */
    method ReadOpen(fd: nat, buf: array<Byte>, count: nat) returns (n: nat)
      requires Valid() && buf != data && count <= buf.Length && CanRead(fd)
      modifies buf, openFiles
      ensures Valid() && Files() == old(Files())
      ensures var d := old(openFiles[fd]);
        && Delivered(old(Files()), d, count, buf[..], n)
        && openFiles[..] == old(openFiles[..])[fd := d.(offset := d.offset + n)]
    {
      hide Threaded, SizesFit, EntriesMatch, DirsMatch, DescriptorsMatch, FilesOf;
      var file := openFiles[fd];
      OpenFile(openFiles[..], dirs, spots, sizes, fd);
      FileOf(data[..], sizes, chains, file.firstCluster);
      if file.offset >= file.size {
        assert openFiles[..] == openFiles[..][fd := file.(offset := file.offset + 0)];
        return 0;
      }
      n := if count <= file.size - file.offset then count else file.size - file.offset;
      DescriptorsAfterRead(openFiles[..], dirs, spots, sizes, fd, n);
      ReadAt(file, n, buf);
      Store(fd, file.(offset := file.offset + n));
    }

    /** A read returns the exact slice at the offset, as much of it as there is. */
    method Read(fd: int, buf: array<Byte>, count: nat) returns (n: int)
      requires Valid() && buf != data && count <= buf.Length
      modifies buf, openFiles
      ensures Valid() && Files() == old(Files())
      ensures !old(CanRead(fd)) ==> n == -1 && openFiles[..] == old(openFiles[..])
      ensures old(CanRead(fd)) ==>
                var d := old(openFiles[fd]);
                && 0 <= n && Delivered(old(Files()), d, count, buf[..], n)
                && openFiles[..] == old(openFiles[..])[fd := d.(offset := d.offset + n)]
    {
      hide Threaded, SizesFit, EntriesMatch, DirsMatch, DescriptorsMatch, FilesOf;
      if fd < 0 || fd >= MAX_OPEN_FILES || !openFiles[fd].used || openFiles[fd].mode % 2 != 1 {
        return -1;
      }
      n := ReadOpen(fd, buf, count);
    }

    /** Lengthen a file's chain, which does not show in any file's contents. */
    method GrowFile(h: nat, clustersToAdd: nat) returns (ok: bool)
      requires FatValid() && h in sizes
      modifies this`chains, this`tags, fat
      ensures FatValid() && Files() == old(Files()) && OnlyLonger(old(chains), chains, h)
      ensures ok <==> clustersToAdd <= |FreeClusters(old(fat[..]))|
      ensures if ok then |chains[h]| == old(|chains[h]|) + clustersToAdd else |FreeClusters(fat[..])| == 0
    {
      hide Threaded, SizesFit, EntriesMatch, DirsMatch, DescriptorsMatch, FilesOf;
      ghost var was := chains;
      FileOf(data[..], sizes, was, h);
      ChainOf(fat[..], was, tags, h);
      ok := Grow(h, h, clustersToAdd);
      ChainOf(fat[..], chains, tags, h);
      FilesAfterGrowth(data[..], sizes, was, chains, h);
    }

    /** The allocation part of `vfs_write`. */
    method Reserve(file: FileDesc, count: nat) returns (ok: bool)
      requires FatValid() && file.firstCluster in sizes
      modifies this`chains, this`tags, fat
      ensures FatValid() && Files() == old(Files()) && OnlyLonger(old(chains), chains, file.firstCluster)
      ensures var added := Added(file.offset, count, file.size);
        && (ok <==> added <= |FreeClusters(old(fat[..]))|)
        && if ok then |chains[file.firstCluster]| == old(|chains[file.firstCluster]|) + added else |FreeClusters(fat[..])| == 0
    {
      hide Threaded, SizesFit, EntriesMatch, DirsMatch, DescriptorsMatch, FilesOf;
      FileOf(data[..], sizes, chains, file.firstCluster);
      var newSize := (file.offset + count) % UINT32;
      var clustersNeeded := (newSize + CLUSTER_SIZE - 1) % UINT32 / CLUSTER_SIZE;
      var clustersCurrent := (file.size + CLUSTER_SIZE - 1) % UINT32 / CLUSTER_SIZE;
      ok := true;
      if clustersNeeded > clustersCurrent {
        ok := GrowFile(file.firstCluster, clustersNeeded - clustersCurrent);
      }
    }

    /** The copying part of `vfs_write`; -1 when the offset is the end of a full chain. */
    method WriteAt(file: FileDesc, buf: array<Byte>, count: nat) returns (n: int)
      requires FatValid() && file.firstCluster in sizes && buf != data && count <= buf.Length
      requires file.size == sizes[file.firstCluster] && file.offset <= file.size
      modifies this`sizes, data
      ensures FatValid() && file.firstCluster in old(Files())
      ensures n == Taken(Room(file, 0), count)
      ensures n == -1 ==> sizes == old(sizes) && Files() == old(Files())
      ensures n != -1 ==>
                && 0 <= n <= count && sizes == old(sizes)[file.firstCluster := Advanced(file, n).size]
                && WroteAs(old(Files()), Files(), file, buf[..n])
    {
      hide Threaded, SizesFit, EntriesMatch, DirsMatch, DescriptorsMatch, FilesOf;
      var h := file.firstCluster;
      ghost var before := data[..];
      FileOf(before, sizes, chains, h);
      ChainOf(fat[..], chains, tags, h);
      var current := Seek(h, file.offset / CLUSTER_SIZE, chains[h]);
      if current == EOC {
        return -1;
      }
      n := WriteClusters(current, file.offset, buf, count, h, chains[h]);
      FilesAfterWrite(before, data[..], sizes, chains, tags, h, file.offset, buf[..n], Advanced(file, n).size);
      sizes := sizes[h := Advanced(file, n).size];
    }

    /** The lookup at the end of `vfs_write`: the size goes into the entry that is found, if one is. */
    method StoreSize(path: string, size: nat)
      requires TreeValid(dirs)
      modifies this`dirs
      ensures dirs == SizeStored(old(dirs), path, size)
    {
      var names := ParsePath(path);
      if names.None? || names.value == [] {
        return;
      }
      var p := LookUp(dirs, names.value);
      if p.Some? {
        dirs := Put(dirs, p.value, At(dirs, p.value).(size := size));
      }
    }

    /** The descriptor after `n` bytes. */
    static method Advance(file: FileDesc, n: nat) returns (d: FileDesc)
      ensures d == Advanced(file, n)
    {
      d := file.(offset := file.offset + n);
      if d.offset > d.size {
        d := d.(size := d.offset);
      }
    }

    /** `vfs_write` behind the allocation: copy the bytes in, move the descriptor on and store a new size. */
    method WriteReserved(fd: nat, buf: array<Byte>, count: nat) returns (n: int)
      requires Valid() && buf != data && count <= buf.Length && CanWrite(fd)
      modifies this`dirs, this`sizes, data, openFiles
      ensures Valid()
      ensures var d := old(openFiles[fd]);
        && d.firstCluster in chains && n == Taken(Room(d, 0), count)
        && if n == -1 then Files() == old(Files()) && openFiles[..] == old(openFiles[..]) && dirs == old(dirs)
           else WroteAs(old(Files()), Files(), d, buf[..n]) && openFiles[..] == old(openFiles[..])[fd := Advanced(d, n)]
                && dirs == DirsAfterWrite(old(dirs), d, n)
    {
      hide Threaded, SizesFit, EntriesMatch, DirsMatch, DescriptorsMatch, FilesOf;
      var file := openFiles[fd];
      ghost var was, entries, files := sizes, dirs, openFiles[..];
      Trees(dirs, spots, sizes);
      OpenFile(files, dirs, spots, sizes, fd);
      FileOf(data[..], sizes, chains, file.firstCluster);
      hide TreeValid, DescriptorValid, WroteAs;
      n := WriteAt(file, buf, count);
      if n == -1 {
        return;
      }
      Advancing(files, entries, spots, was, chains, fd, n);
      if file.offset + n > file.size {
        StoreSize(file.path, file.offset + n);
      }
      file := Advance(file, n);
      assert openFiles[..] == files;
      Store(fd, file);
    }

    /** The bytes that a file's chain can take behind an offset, after `added` more clusters. */
    ghost function Room(d: FileDesc, added: nat): int
      requires d.firstCluster in chains
      reads this`chains
    {
      (|chains[d.firstCluster]| + added) * CLUSTER_SIZE - d.offset
    }

    /** `vfs_write` behind the check of the descriptor. */
    method WriteOpen(fd: nat, buf: array<Byte>, count: nat) returns (n: int)
      requires Valid() && buf != data && count <= buf.Length && CanWrite(fd)
      modifies this, fat, data, openFiles
      ensures Valid()
      ensures var d := old(openFiles[fd]);
        && d.firstCluster in old(chains)
        && var added := Added(d.offset, count, d.size);
        && n == (if added > |FreeClusters(old(fat[..]))| then -1 else Taken(old(Room(d, added)), count))
        && if n == -1 then Files() == old(Files()) && openFiles[..] == old(openFiles[..]) && dirs == old(dirs)
           else WroteAs(old(Files()), Files(), d, buf[..n]) && openFiles[..] == old(openFiles[..])[fd := Advanced(d, n)]
                && dirs == DirsAfterWrite(old(dirs), d, n) && dirty
    {
      hide Threaded, SizesFit, EntriesMatch, DirsMatch, DescriptorsMatch, FilesOf;
      var file := openFiles[fd];
      OpenFile(openFiles[..], dirs, spots, sizes, fd);
      FileOf(data[..], sizes, chains, file.firstCluster);
      ghost var was := chains;
      var ok := Reserve(file, count);
      DirsOfLonger(dirs, sizes, was, chains, file.firstCluster);
      if !ok {
        return -1;
      }
      n := WriteReserved(fd, buf, count);
      if n != -1 {
        dirty := true;
      }
    }

    /**
     A write overwrites or extends at the offset.  It fails for want of clusters, or at the end of a
     full chain, and otherwise takes as many bytes as the chain has room for.  The new size is stored in
     the entry that looking the path up finds, if it finds one.
     */
    method Write(fd: int, buf: array<Byte>, count: nat) returns (n: int)
      requires Valid() && buf != data && count <= buf.Length
      modifies this, fat, data, openFiles
      ensures Valid()
      ensures !old(CanWrite(fd)) ==> n == -1 && openFiles[..] == old(openFiles[..]) && Files() == old(Files()) && dirs == old(dirs)
      ensures old(CanWrite(fd)) ==>
                var d := old(openFiles[fd]);
                && d.firstCluster in old(chains)
                && var added := Added(d.offset, count, d.size);
                && n == (if added > |FreeClusters(old(fat[..]))| then -1 else Taken(old(Room(d, added)), count))
                && if n == -1 then Files() == old(Files()) && openFiles[..] == old(openFiles[..]) && dirs == old(dirs)
                   else WroteAs(old(Files()), Files(), d, buf[..n]) && openFiles[..] == old(openFiles[..])[fd := Advanced(d, n)]
                        && dirs == DirsAfterWrite(old(dirs), d, n) && dirty
    {
      hide Threaded, SizesFit, EntriesMatch, DirsMatch, DescriptorsMatch, FilesOf;
      if fd < 0 || fd >= MAX_OPEN_FILES || !openFiles[fd].used || openFiles[fd].mode / 2 % 2 != 1 {
        return -1;
      }
      n := WriteOpen(fd, buf, count);
    }

    /** Where the 32-bit sum does not wrap, a write takes all bytes or fails for want of clusters. */
    method WriteAll(fd: int, buf: array<Byte>, count: nat) returns (n: int)
      requires Valid() && buf != data && count <= buf.Length
      requires CanWrite(fd) && openFiles[fd].offset + count + CLUSTER_SIZE - 1 < UINT32
      modifies this, fat, data, openFiles
      ensures Valid() && (n == -1 || n == count)
      ensures var d := old(openFiles[fd]);
        && (count > 0 ==> (n == -1 <==> ClustersFor(d.offset + count) - ClustersFor(d.size) > |FreeClusters(old(fat[..]))|))
        && if n == -1 then Files() == old(Files()) && dirs == old(dirs)
           else WroteAs(old(Files()), Files(), d, buf[..count]) && dirs == DirsAfterWrite(old(dirs), d, count)
                && openFiles[..] == old(openFiles[..])[fd := Advanced(d, count)]
    {
      hide Threaded, SizesFit, EntriesMatch, DirsMatch, DescriptorsMatch, FilesOf;
      ghost var d, free := openFiles[fd], |FreeClusters(fat[..])|;
      OpenFile(openFiles[..], dirs, spots, sizes, fd);
      FileOf(data[..], sizes, chains, d.firstCluster);
      ChainOf(fat[..], chains, tags, d.firstCluster);
      ghost var length := |chains[d.firstCluster]|;
      n := Write(fd, buf, count);
      WholeUnlessWrapped(d.offset, count, d.size, length, free, n);
    }

    /**
     A write past the end: the size in the file's entry is the length of the file if and only if all
     components of the path lead to the directory of the entry; no other entry changes.
     */
    method WritePast(fd: int, buf: array<Byte>, count: nat) returns (n: int)
      requires Valid() && buf != data && count <= buf.Length && CanWrite(fd)
      modifies this, fat, data, openFiles
      ensures Valid()
      ensures var d := old(openFiles[fd]);
        n != -1 && d.offset + n > d.size ==>
          && d.firstCluster in Files() && d.firstCluster in spots && Parsed(d.path).Some?
          && var p := spots[d.firstCluster];
          && OnlySizeAt(old(dirs), dirs, p) && At(dirs, p).firstCluster == d.firstCluster
          && (At(dirs, p).size == |Files()[d.firstCluster]| <==> LeadsTo(old(dirs), Parsed(d.path).value, p.dir))
    {
      hide Threaded, SizesFit, EntriesMatch, DirsMatch, DescriptorsMatch, FilesOf, DirsAfterWrite, LeadsTo, OnlySizeAt;
      ghost var d, was, at, size := openFiles[fd], dirs, spots, sizes;
      OpenFile(openFiles[..], dirs, spots, sizes, fd);
      EntryOf(dirs, spots, sizes, d.firstCluster);
      FileOf(data[..], sizes, chains, d.firstCluster);
      n := Write(fd, buf, count);
      if n != -1 && d.offset + n > d.size {
        SizeReachesEntry(was, at, size, d, n);
        SizeChanged(was, dirs, at[d.firstCluster]);
        FileAt(dirs, spots, sizes, at[d.firstCluster]);
      }
    }

    // -------------------------------------------------------------- creating and removing

    /** A new chain; 0 if no cluster is free. */
    method NewChain() returns (cluster: nat)
      requires Valid()
      modifies this`chains, this`tags, fat
      ensures FatValid() && Files() == old(Files()) && DirsMatch(dirs, sizes, chains)
      ensures cluster == 0 <==> FreeClusters(old(fat[..])) == {}
      ensures cluster != 0 ==>
                && chains == old(chains)[cluster := [cluster]] && IsCluster(cluster)
                && cluster !in sizes && cluster !in dirs && |FreeClusters(fat[..])| == |FreeClusters(old(fat[..]))| - 1
    {
      hide Threaded, SizesFit, EntriesMatch, DirsMatch, DescriptorsMatch, FilesOf;
      ghost var before, was := fat[..], chains;
      cluster := AllocateCluster();
      if cluster == 0 {
        assert FreeClusters(before) == {};
        return;
      }
      MarkedFree(before, cluster);
      StartChain(before, chains, tags, cluster);
      FilesAfterCreate(data[..], sizes, chains, cluster);
      DirsOfMore(dirs, sizes, chains, cluster);
      tags := tags[cluster := In(cluster, 0)];
      chains := chains[cluster := [cluster]];
    }

    /** The creating branch of `vfs_open`: an empty file in slot `p`. */
    method CreateFile(p: Spot, name: string) returns (cluster: nat)
      requires Valid() && RoomFor(dirs, p, name)
      modifies this, fat
      ensures Valid() && (cluster == 0 <==> FreeClusters(old(fat[..])) == {})
      ensures cluster == 0 ==> Files() == old(Files()) && dirs == old(dirs)
      ensures cluster != 0 ==>
                && cluster !in old(Files()) && Files() == old(Files())[cluster := []]
                && dirs == Put(old(dirs), p, Entry(name, false, cluster, 0))
                && |FreeClusters(fat[..])| == |FreeClusters(old(fat[..]))| - 1
    {
      hide Threaded, SizesFit, EntriesMatch, DirsMatch, DescriptorsMatch, FilesOf;
      hide RoomFor;
      cluster := NewChain();
      if cluster == 0 {
        return;
      }
      Trees(dirs, spots, sizes);
      EntriesAfterCreate(dirs, spots, sizes, p, name, cluster);
      DescriptorsAfterCreate(openFiles[..], dirs, Put(dirs, p, Entry(name, false, cluster, 0)), spots, sizes, p, cluster);
      ChainOf(fat[..], chains, tags, cluster);
      FilesAfterEmpty(data[..], sizes, chains, cluster);
      DirsOfFile(dirs, Put(dirs, p, Entry(name, false, cluster, 0)), sizes, chains, cluster);
      dirs := Put(dirs, p, Entry(name, false, cluster, 0));
      spots, sizes := spots[cluster := p], sizes[cluster := 0];
      dirty := true;
    }

    /** The parent directory, without the name and with an unused slot. */
    method FindRoom(path: string) returns (p: Option<Spot>)
      requires TreeValid(dirs) && Plain(path)
      ensures p.Some? <==> CanCreate(dirs, path, 1)
      ensures p.Some? ==> p.value == NewSpot(dirs, path) && RoomFor(dirs, p.value, LastName(path))
    {
      var names := ParsePath(path);
      if names.None? {
        return None;
      }
      var c := LookUpParent(dirs, names.value);
      if c.None? {
        return None;
      }
      var taken := SearchEntry(dirs[c.value], LastName(path));
      if taken < |dirs[c.value]| {
        return None;
      }
      var j := SearchUnused(dirs[c.value]);
      if j == |dirs[c.value]| {
        return None;
      }
      return Some(Spot(c.value, j));
    }

    /** The part of `vfs_mkdir` behind the checks. */
    method MakeDir(p: Spot, name: string) returns (code: int)
      requires Valid() && RoomFor(dirs, p, name)
      modifies this, fat, data
      ensures Valid() && Files() == old(Files()) && code == if FreeClusters(old(fat[..])) == {} then -1 else 0
      ensures code == -1 ==> dirs == old(dirs)
      ensures code == 0 ==> DirMade(old(dirs), dirs, p, name) && |FreeClusters(fat[..])| == |FreeClusters(old(fat[..]))| - 1
    {
      hide Threaded, SizesFit, EntriesMatch, DirsMatch, DescriptorsMatch, FilesOf;
      hide RoomFor;
      ghost var was := dirs;
      var h := NewChain();
      if h == 0 {
        return -1;
      }
      EntriesAfterMkdir(dirs, spots, sizes, p, name, h);
      DescriptorsAfterMkdir(openFiles[..], dirs, WithDir(dirs, p, name, h), spots, sizes);
      DirsOfDir(dirs, WithDir(dirs, p, name, h), sizes, chains, h);
      dirs := WithDir(dirs, p, name, h);
      ClearCluster(h);
      dirty := true;
      code := 0;
      assert DirMadeAt(was, dirs, p, name, h);
    }

    /** `vfs_mkdir`: a new entry, and a directory of its own behind it. */
    method Mkdir(path: string) returns (code: int)
      requires Valid() && Plain(path)
      modifies this, fat, data
      ensures Valid() && Files() == old(Files()) && (code == 0 || code == -1)
      ensures code == 0 <==> CanCreate(old(dirs), path, |FreeClusters(old(fat[..]))|)
      ensures code == -1 ==> dirs == old(dirs)
      ensures code == 0 ==>
                && DirMade(old(dirs), dirs, NewSpot(old(dirs), path), LastName(path))
                && |FreeClusters(fat[..])| == |FreeClusters(old(fat[..]))| - 1
    {
      hide Threaded, SizesFit, EntriesMatch, DirsMatch, DescriptorsMatch, FilesOf;
      hide RoomFor, DirMade;
      Trees(dirs, spots, sizes);
      var p := FindRoom(path);
      if p.None? {
        return -1;
      }
      code := MakeDir(p.value, LastName(path));
    }

    /** `memset` of a directory's cluster. */
    method ClearCluster(h: nat)
      requires FatValid() && h in chains && chains[h] == [h] && h !in sizes
      modifies data
      ensures FatValid() && Files() == old(Files())
    {
      hide Threaded, SizesFit, EntriesMatch, DirsMatch, DescriptorsMatch, FilesOf;
      ghost var before := data[..];
      ChainOf(fat[..], chains, tags, h);
      var base := (h - FIRST_CLUSTER) * CLUSTER_SIZE;
      forall k | 0 <= k < CLUSTER_SIZE {
        data[base + k] := 0;
      }
      forall x | 0 <= x < DATA_SIZE && data[x] != before[x]
        ensures var c := x / CLUSTER_SIZE + FIRST_CLUSTER; IsCluster(c) && tags[c].In? && tags[c].head == h
      {
        assert base <= x < base + CLUSTER_SIZE;
      }
      FilesOutside(before, data[..], sizes, chains, tags, h);
    }

    /** `vfs_unlink`: of the entry that is found, free the whole chain and nothing else. */
    method Unlink(path: string) returns (code: int)
      requires Valid() && Plain(path)
      requires Found(dirs, path).Some? ==> !IsOpen(At(dirs, Found(dirs, path).value).firstCluster)
      modifies this, fat
      ensures Valid()
      ensures code == if Found(old(dirs), path).Some? && At(old(dirs), Found(old(dirs), path).value).IsFile() then 0 else -1
      ensures code == -1 ==> dirs == old(dirs) && Files() == old(Files()) && fat[..] == old(fat[..])
      ensures code == 0 ==>
                var p := Found(old(dirs), path).value;
                var h := At(old(dirs), p).firstCluster;
                && h in old(chains) && dirs == Put(old(dirs), p, Unused) && Files() == old(Files()) - {h} && chains == old(chains) - {h}
                && Freed(old(fat[..]), fat[..], old(chains)[h])
    {
      hide Threaded, SizesFit, EntriesMatch, DirsMatch, DescriptorsMatch, FilesOf;
      hide Freed;
      Trees(dirs, spots, sizes);
      var names := ParsePath(path);
      if names.None? {
        return -1;
      }
      var p := LookUp(dirs, names.value);
      if p.None? {
        return -1;
      }
      if At(dirs, p.value).isDir {
        return -1;
      }
      RemoveFile(p.value);
      code := 0;
    }

    /** The part of `vfs_unlink` behind the checks. */
    method RemoveFile(p: Spot)
      requires Valid() && ValidSpot(dirs, p) && At(dirs, p).IsFile() && !IsOpen(At(dirs, p).firstCluster)
      modifies this, fat
      ensures Valid()
      ensures var h := At(old(dirs), p).firstCluster;
        && h in old(chains) && dirs == Put(old(dirs), p, Unused) && Files() == old(Files()) - {h} && chains == old(chains) - {h}
        && Freed(old(fat[..]), fat[..], old(chains)[h])
    {
      hide Threaded, SizesFit, EntriesMatch, DirsMatch, DescriptorsMatch, FilesOf;
      hide Freed;
      var h := At(dirs, p).firstCluster;
      FileAt(dirs, spots, sizes, p);
      FileOf(data[..], sizes, chains, h);
      FilesAfterUnlink(data[..], sizes, chains, h);
      Removing(openFiles[..], dirs, spots, sizes, chains, h);
      FreeClusterChain(h);
      tags := Untagged(tags, h);
      chains := chains - {h};
      sizes, spots := sizes - {h}, spots - {h};
      dirs := Put(dirs, p, Unused);
      dirty := true;
    }

    /** The loop of `vfs_unlink`. */
    method FreeClusterChain(h: nat)
      requires fat.Length == NUM_CLUSTERS && Threaded(fat[..], chains, tags) && h in chains
      modifies fat
      ensures Freed(old(fat[..]), fat[..], chains[h])
      ensures Threaded(fat[..], chains - {h}, Untagged(tags, h))
    {
      ghost var before: seq<nat> := fat[..];
      ghost var chain := chains[h];
      var current := h;
      ghost var i := 0;
      while current != EOC
        invariant 0 <= i <= |chain| && current == (if i < |chain| then chain[i] else EOC)
        invariant forall x :: IsCluster(x) ==>
                    fat[x] == if tags[x].In? && tags[x].head == h && tags[x].index < i then 0 else before[x]
        decreases |chain| - i
      {
        Follow(before, chain, i);
        assert tags[chain[i]] == In(h, i);
        var next := fat[current];
        fat[current] := 0;
        current := next;
        i := i + 1;
      }
      FreeChain(before, fat[..], chains, tags, h);
      TaggedAre(chains, tags, h);
    }

    // -------------------------------------------------------------- descriptors

    /** The first part of `vfs_open`: the entry that is found, or a new one. */
    method FindOrCreate(path: string, create: bool, exclusive: bool) returns (p: Option<Spot>)
      requires Valid() && Plain(path)
      modifies this, fat
      ensures Valid()
      ensures p.Some? && ValidSpot(dirs, p.value) && At(dirs, p.value).IsFile() <==>
                CanOpen(old(dirs), path, create, exclusive, |FreeClusters(old(fat[..]))|)
      ensures p.None? ==> Files() == old(Files()) && dirs == old(dirs)
      ensures p.Some? ==> OpensAt(old(dirs), dirs, old(Files()), Files(), path, p.value)
      ensures p.Some? ==> |FreeClusters(fat[..])| == |FreeClusters(old(fat[..]))| - if Found(old(dirs), path).Some? then 0 else 1
    {
      hide Threaded, SizesFit, EntriesMatch, DirsMatch, DescriptorsMatch, FilesOf;
      hide RoomFor;
      Trees(dirs, spots, sizes);
      var names := ParsePath(path);
      if names.None? {
        return None;
      }
      p := LookUp(dirs, names.value);
      if p.Some? {
        return if create && exclusive then None else p;
      }
      if !create {
        return None;
      }
      p := FindRoom(path);
      if p.None? {
        return None;
      }
      var cluster := CreateFile(p.value, LastName(path));
      if cluster == 0 {
        return None;
      }
    }

    /** The end of `vfs_open`: a descriptor at offset 0, if a slot is free. */
    method OpenEntry(p: Spot, path: string, mode: nat) returns (fd: int)
      requires Valid() && ValidSpot(dirs, p) && At(dirs, p).IsFile() && !IsOpen(At(dirs, p).firstCluster)
      requires Parsed(path).Some? && Backed(dirs, Parsed(path).value, p)
      modifies openFiles
      ensures Valid() && Files() == old(Files()) && At(dirs, p).firstCluster in Files()
      ensures fd == -1 ==> openFiles[..] == old(openFiles[..]) && forall i :: 0 <= i < MAX_OPEN_FILES ==> openFiles[i].used
      ensures fd != -1 ==>
                && 0 <= fd < MAX_OPEN_FILES && !old(openFiles[fd].used)
                && var h := At(dirs, p).firstCluster;
                   openFiles[..] == old(openFiles[..])[fd := FileDesc(true, path, h, |Files()[h]|, 0, mode)]
    {
      hide Threaded, SizesFit, EntriesMatch, DirsMatch, DescriptorsMatch, FilesOf;
      hide Backed;
      ClosedFile(openFiles[..], dirs, spots, sizes, p);
      FileOf(data[..], sizes, chains, At(dirs, p).firstCluster);
      fd := FreeDescriptor();
      if fd == -1 {
        return -1;
      }
      var file := FileDesc(true, path, At(dirs, p).firstCluster, At(dirs, p).size, 0, mode);
      DescriptorsAfterOpen(openFiles[..], dirs, spots, sizes, fd, file);
      Store(fd, file);
    }

    /** The flag tests of `vfs_open`: `mode & O_RDWR` is non-zero for either access bit, so both are always granted. */
    static method DecodeMode(mode: nat) returns (create: bool, read: bool, write: bool)
      ensures create <==> mode / 4 % 2 == 1
      ensures (read <==> mode % 4 != 0) && (write <==> mode % 4 != 0)
    {
      create := mode / 4 % 2 == 1;
      read := mode % 2 == 1 || mode % 4 != 0;
      write := mode / 2 % 2 == 1 || mode % 4 != 0;
    }

    /** `vfs_open`; at most one live descriptor per file. */
    method Open(path: string, mode: nat, exclusive: bool) returns (fd: int)
      requires Valid() && Plain(path)
      requires Found(dirs, path).Some? ==> !IsOpen(At(dirs, Found(dirs, path).value).firstCluster)
      modifies this, fat, openFiles
      ensures Valid()
      ensures fd != -1 <==>
                && mode % 4 != 0 && (exists i :: 0 <= i < MAX_OPEN_FILES && !old(openFiles[i].used))
                && CanOpen(old(dirs), path, mode / 4 % 2 == 1, exclusive, |FreeClusters(old(fat[..]))|)
      ensures fd == -1 ==> openFiles[..] == old(openFiles[..])
      ensures fd == -1 ==>
                || (Files() == old(Files()) && dirs == old(dirs))
                || (Found(old(dirs), path) == None && exists p :: OpensAt(old(dirs), dirs, old(Files()), Files(), path, p))
      ensures fd != -1 ==>
                && 0 <= fd < MAX_OPEN_FILES && !old(openFiles[fd].used)
                && exists p :: OpensAt(old(dirs), dirs, old(Files()), Files(), path, p)
                     && var h := At(dirs, p).firstCluster;
                     && h in Files() && openFiles[..] == old(openFiles[..])[fd := FileDesc(true, path, h, |Files()[h]|, 0, 3)]
      ensures fd != -1 ==> |FreeClusters(fat[..])| == |FreeClusters(old(fat[..]))| - if Found(old(dirs), path).Some? then 0 else 1
    {
      hide Threaded, SizesFit, EntriesMatch, DirsMatch, DescriptorsMatch, FilesOf;
      var create, read, write := DecodeMode(mode);
      if !read && !write {
        return -1;
      }
      ghost var was, files, open := dirs, Files(), openFiles[..];
      Trees(dirs, spots, sizes);
      ghost var oldSpots, oldSizes := spots, sizes;
      var p := FindOrCreate(path, create, exclusive);
      if p.None? {
        return -1;
      }
      if At(dirs, p.value).isDir {
        return -1;
      }
      OpensBacked(was, dirs, files, Files(), path, p.value);
      if IsOpen(At(dirs, p.value).firstCluster) {
        HeadsAreFiles(open, was, oldSpots, oldSizes, At(dirs, p.value).firstCluster);
      }
      fd := OpenEntry(p.value, path, if read && write then 3 else if read then 1 else 2);
    }

    method FreeDescriptor() returns (fd: int)
      requires openFiles.Length == MAX_OPEN_FILES
      ensures if fd == -1 then forall i :: 0 <= i < MAX_OPEN_FILES ==> openFiles[i].used
              else 0 <= fd < MAX_OPEN_FILES && !openFiles[fd].used && forall i :: 0 <= i < fd ==> openFiles[i].used
    {
      for i := 0 to MAX_OPEN_FILES
        invariant forall k :: 0 <= k < i ==> openFiles[k].used
      {
        if !openFiles[i].used {
          return i;
        }
      }
      return -1;
    }

    /** Closing a file cuts its contents to the size in its entry, whatever has been written. */
    method Close(fd: int) returns (code: int)
      requires Valid()
      modifies this`sizes, openFiles
      ensures Valid()
      ensures code == if 0 <= fd < MAX_OPEN_FILES && old(openFiles[fd].used) then 0 else -1
      ensures code == -1 ==> openFiles[..] == old(openFiles[..]) && Files() == old(Files())
      ensures code == 0 ==>
                var h := old(openFiles[fd]).firstCluster;
                && openFiles[..] == old(openFiles[..])[fd := old(openFiles[fd]).(used := false)]
                && h in old(Files()) && h in spots && IsEntryOf(dirs, spots[h], h, |old(Files())[h]|)
                && Files() == old(Files())[h := old(Files())[h][..At(dirs, spots[h]).size]]
    {
      hide Threaded, SizesFit, EntriesMatch, DirsMatch, DescriptorsMatch, FilesOf;
      if fd < 0 || fd >= MAX_OPEN_FILES || !openFiles[fd].used {
        return -1;
      }
      ghost var h := openFiles[fd].firstCluster;
      OpenFile(openFiles[..], dirs, spots, sizes, fd);
      EntryOf(dirs, spots, sizes, h);
      FileOf(data[..], sizes, chains, h);
      ghost var size := At(dirs, spots[h]).size;
      EntriesAfterWrite(dirs, spots, sizes, h, size);
      DescriptorsAfterClose(openFiles[..], dirs, spots, sizes, fd, size);
      FilesAfterCut(data[..], sizes, chains, h, size);
      DirsStillMatch(dirs, dirs, sizes, sizes[h := size], chains);
      sizes := sizes[h := size];
      Store(fd, openFiles[fd].(used := false));
      return 0;
    }
  }
}
