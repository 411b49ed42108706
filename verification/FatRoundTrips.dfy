/**
 What becomes of bytes that are written, when their file is closed and opened again by its path, in
 fat16/vfs.c: they are lost where the path names a regular file, and come back where it is found.
 */
module FatRoundTrips {
  import opened Bytes
  import opened FatChains
  import opened FatTree
  import opened FatContents
  import opened FatFiles

  // ---------------------------------------------------------------- the round trip that fails

  lemma PathOfA()
    ensures Parsed("/a") == Some(["a"]) && LastName("/a") == "a" && Plain("/a")
  {
    assert "a"[1..] == "" && ToSlash("a") == 1 && "a"[..1] == "a";
    assert Components("a") == ["a"];
    assert "/a"[1..] == "a";
    assert "/a"[..1] == "/";
    assert LastName("/") == [];
  }

  /** The first slot of the root directory is free for it. */
  lemma RoomForA(free: nat)
    requires free > 0
    ensures var empty := EmptyTree();
      && Parsed("/a") == Some(["a"]) && TreeValid(empty) && Found(empty, "/a") == None && CanOpen(empty, "/a", true, false, free)
      && FindParent(empty, ["a"]) == Some(ROOT) && NewSpot(empty, "/a") == Spot(ROOT, 0)
  {
    PathOfA();
    var empty, names := EmptyTree(), ["a"];
    assert names[..0] == [];
    assert DirSlot(empty[ROOT], "a", 0) == ROOT_ENTRIES;
    assert UnusedSlot(empty[ROOT], 0) == 0;
  }

  /** The file `/a` with first cluster `h`, empty and alone. */
  ghost predicate OnlyA(dirs: Dirs, files: FileMap, h: nat) {
    dirs == Put(EmptyTree(), Spot(ROOT, 0), Entry("a", false, h, 0)) && files == map[h := []]
  }

  lemma EntryOfA(dirs: Dirs, h: nat, p: Spot, size: nat)
    requires OnlyA(dirs, map[h := []], h) && IsEntryOf(dirs, p, h, size)
    ensures p == Spot(ROOT, 0) && At(dirs, p).size == 0
  {
  }

  method CreateA() returns (vfs: Fat16, fd: int, ghost h: nat)
    ensures fresh(vfs) && fresh(vfs.fat) && fresh(vfs.data) && fresh(vfs.openFiles) && vfs.Valid()
    ensures OnlyA(vfs.dirs, vfs.Files(), h) && Found(vfs.dirs, "/a") == None && NamesFile(vfs.dirs, ["a"]) && TreeValid(vfs.dirs)
    ensures 0 <= fd < MAX_OPEN_FILES && vfs.openFiles[fd] == FileDesc(true, "/a", h, 0, 0, 3)
    ensures |FreeClusters(vfs.fat[..])| > 0
  {
    hide Threaded, SizesFit, EntriesMatch, DirsMatch, DescriptorsMatch, FilesOf, TreeValid, NamesFile, RoomFor, CanOpen;
    vfs := new Fat16();
    ghost var empty := EmptyTree();
    PathOfA();
    RoomForA(|FreeClusters(vfs.fat[..])|);
    assert !vfs.openFiles[0].used;
    fd := vfs.Open("/a", 7, false);
    ghost var p: Spot :|
      && OpensAt(empty, vfs.dirs, map[], vfs.Files(), "/a", p)
      && At(vfs.dirs, p).firstCluster == vfs.openFiles[fd].firstCluster;
    CreatedIsNamed(empty, vfs.dirs, map[], vfs.Files(), "/a", p);
    h := At(vfs.dirs, p).firstCluster;
  }

  /**
   The round trip that fails: create `/a`, write one byte, close.  The byte is gone, the entry's size is
   still 0, and no flags open the file again.
   */
  method CreateWriteCloseOpen(buf: array<Byte>, mode: nat, exclusive: bool) returns (vfs: Fat16, n: int, again: int)
    requires buf.Length == 1
    ensures fresh(vfs) && vfs.Valid() && n == 1 && again == -1
    ensures exists h :: OnlyA(vfs.dirs, vfs.Files(), h)
  {
    hide Threaded, SizesFit, EntriesMatch, DirsMatch, DescriptorsMatch, FilesOf, TreeValid, NamesFile, CanOpen;
    ghost var h: nat;
    var fd: int;
    vfs, fd, h := CreateA();
    PathOfA();
    SizeIsNotStored(vfs.dirs, vfs.openFiles[fd], 1);
    n := vfs.WriteAll(fd, buf, 1);
    var code := vfs.Close(fd);
    EntryOfA(vfs.dirs, h, vfs.spots[h], 1);
    assert OnlyA(vfs.dirs, vfs.Files(), h);
    ExistingFileCannotBeOpened(vfs.dirs, "/a", mode / 4 % 2 == 1, exclusive, |FreeClusters(vfs.fat[..])|);
    again := vfs.Open("/a", mode, exclusive);
  }

  // ---------------------------------------------------------------- the round trip that does not fail

  /** A path that is found, of a file that is not open, and a descriptor to open it with. */
  ghost predicate Reachable(vfs: Fat16, path: string)
    requires vfs.openFiles.Length == MAX_OPEN_FILES
    reads vfs`dirs, vfs.openFiles
  {
    && Plain(path) && Found(vfs.dirs, path).Some? && At(vfs.dirs, Found(vfs.dirs, path).value).IsFile()
    && !vfs.IsOpen(At(vfs.dirs, Found(vfs.dirs, path).value).firstCluster)
    && exists i :: 0 <= i < MAX_OPEN_FILES && !vfs.openFiles[i].used
  }

  /** Where the entry of a found file stands after a write of `n` bytes at its start, and how large it says the file is. */
  lemma FoundAgain(dirs: Dirs, spots: Spots, sizes: Sizes, d: FileDesc, p: Spot, n: nat)
    requires EntriesMatch(dirs, spots, sizes) && DescriptorValid(d, dirs, spots, sizes) && d.used && d.offset == 0
    requires Found(dirs, d.path) == Some(p) && At(dirs, p).IsFile() && spots[d.firstCluster] == p && At(dirs, p).size == d.size
    ensures var now := DirsAfterWrite(dirs, d, n);
      && Found(now, d.path) == Some(p) && At(now, p).IsFile() && At(now, p).firstCluster == At(dirs, p).firstCluster
      && At(now, p).size == if n > d.size then n else d.size
  {
    var names, now := Parsed(d.path).value, DirsAfterWrite(dirs, d, n);
    EntriesAfterAdvance(dirs, spots, sizes, d, n);
    WalkKept(dirs, now, ROOT, names);
    BackedKept(dirs, now, names, p);
    BackedFinds(now, names, p);
    if n > d.size {
      SizeReachesEntry(dirs, spots, sizes, d, n);
      LeadsToWalk(dirs, names, p.dir);
    }
  }

  /** Slot `fd` holds a fresh descriptor of the found file, at its start. */
  ghost predicate OpenAtStart(vfs: Fat16, path: string, fd: int)
    requires vfs.openFiles.Length == MAX_OPEN_FILES
    reads vfs`dirs, vfs`spots, vfs.openFiles
  {
    && Found(vfs.dirs, path).Some? && At(vfs.dirs, Found(vfs.dirs, path).value).IsFile() && Plain(path)
    && 0 <= fd < MAX_OPEN_FILES
    && var e := At(vfs.dirs, Found(vfs.dirs, path).value);
    && vfs.openFiles[fd] == FileDesc(true, path, e.firstCluster, e.size, 0, 3)
    && e.firstCluster in vfs.spots && vfs.spots[e.firstCluster] == Found(vfs.dirs, path).value
  }

  method OpenFound(vfs: Fat16, path: string) returns (fd: int)
    requires vfs.Valid() && Reachable(vfs, path)
    modifies vfs, vfs.fat, vfs.openFiles
    ensures vfs.Valid() && vfs.dirs == old(vfs.dirs) && vfs.Files() == old(vfs.Files()) && OpenAtStart(vfs, path, fd)
    ensures |FreeClusters(vfs.fat[..])| == |FreeClusters(old(vfs.fat[..]))|
  {
    hide Threaded, SizesFit, EntriesMatch, DirsMatch, DescriptorsMatch, FilesOf, Plain, Found;
    ghost var p := Found(vfs.dirs, path).value;
    ClosedFile(vfs.openFiles[..], vfs.dirs, vfs.spots, vfs.sizes, p);
    FileOf(vfs.data[..], vfs.sizes, vfs.chains, At(vfs.dirs, p).firstCluster);
    fd := vfs.Open(path, 3, false);
    FileAt(vfs.dirs, vfs.spots, vfs.sizes, p);
  }

  /** Write at the start and close: what was written stays with the file. */
  method WriteAndClose(vfs: Fat16, path: string, fd: int, buf: array<Byte>, count: nat) returns (n: int)
    requires vfs.Valid() && vfs.openFiles.Length == MAX_OPEN_FILES && OpenAtStart(vfs, path, fd)
    requires buf != vfs.data && count <= buf.Length && count + CLUSTER_SIZE - 1 < UINT32
    modifies vfs, vfs.fat, vfs.data, vfs.openFiles
    ensures vfs.Valid() && (n == -1 || n == count)
    ensures var size := old(vfs.openFiles[fd]).size;
      count > 0 ==> (n == -1 <==> ClustersFor(count) - ClustersFor(size) > |FreeClusters(old(vfs.fat[..]))|)
    ensures n != -1 ==>
              && Reachable(vfs, path)
              && var h := At(vfs.dirs, Found(vfs.dirs, path).value).firstCluster;
                 h in vfs.Files() && |vfs.Files()[h]| >= count && vfs.Files()[h][..count] == buf[..count]
  {
    hide Threaded, SizesFit, EntriesMatch, DirsMatch, DescriptorsMatch, FilesOf, DirsAfterWrite, Plain, Found;
    ghost var p, d := Found(vfs.dirs, path).value, vfs.openFiles[fd];
    OpenFile(vfs.openFiles[..], vfs.dirs, vfs.spots, vfs.sizes, fd);
    FoundAgain(vfs.dirs, vfs.spots, vfs.sizes, d, p, count);
    n := vfs.WriteAll(fd, buf, count);
    if n != -1 {
      FileAt(vfs.dirs, vfs.spots, vfs.sizes, p);
      HeadLess(vfs.openFiles[..], vfs.dirs, vfs.spots, vfs.sizes, fd);
    }
    var _ := vfs.Close(fd);
    assert !vfs.openFiles[fd].used;
  }

  lemma HeadLess(files: seq<FileDesc>, dirs: Dirs, spots: Spots, sizes: Sizes, fd: nat)
    requires DescriptorsMatch(files, dirs, spots, sizes) && fd < |files| && files[fd].used
    ensures OpenHeads(files[fd := files[fd].(used := false)]) == OpenHeads(files) - {files[fd].firstCluster}
  {
    OneHeadLess(files, fd);
  }

  /** Write to a found file, close it, open it again and read: the bytes come back. */
  method WriteCloseOpenRead(vfs: Fat16, path: string, buf: array<Byte>, count: nat, out: array<Byte>) returns (n: int, r: int)
    requires vfs.Valid() && Reachable(vfs, path) && buf != vfs.data && out != vfs.data && out != buf
    requires count <= buf.Length && count <= out.Length && count + CLUSTER_SIZE - 1 < UINT32
    modifies vfs, vfs.fat, vfs.data, vfs.openFiles, out
    ensures vfs.Valid() && (n == -1 || n == count)
    ensures var size := At(old(vfs.dirs), Found(old(vfs.dirs), path).value).size;
      count > 0 ==> (n == -1 <==> ClustersFor(count) - ClustersFor(size) > |FreeClusters(old(vfs.fat[..]))|)
    ensures n != -1 ==> r == count && out[..count] == buf[..count]
  {
    hide Threaded, SizesFit, EntriesMatch, DirsMatch, DescriptorsMatch, FilesOf, Plain, Found;
    var fd := OpenFound(vfs, path);
    n := WriteAndClose(vfs, path, fd, buf, count);
    r := -1;
    if n != -1 {
      fd := OpenFound(vfs, path);
      r := vfs.Read(fd, out, count);
    }
  }

  lemma PathOfAA()
    ensures Parsed("/a/a") == Some(["a", "a"]) && LastName("/a/a") == "a" && Plain("/a/a")
  {
    PathOfA();
    assert "a/a"[1..] == "/a" && ToSlash("a/a") == 1 && "a/a"[..1] == "a" && "a/a"[2..] == "a";
    assert "a"[1..] == "" && ToSlash("a") == 1 && "a"[..1] == "a" && Components("a") == ["a"];
    assert Components("a/a") == ["a"] + Components("a") == ["a", "a"];
    assert "/a/a"[1..] == "a/a";
    assert "/a/a"[..3] == "/a/" && LastName("/a/") == [];
  }

  /** The directory `/a`, and in it, if `file` is given, the file `a` with that first cluster. */
  ghost function TreeOfA(h: nat, file: Option<nat>): Dirs {
    var dirs := WithDir(EmptyTree(), Spot(ROOT, 0), "a", h);
    if file.None? || h == ROOT then dirs else Put(dirs, Spot(h, 2), Entry("a", false, file.value, 0))
  }

  lemma RoomForAA(h: nat, free: nat)
    requires h != ROOT && free > 0
    ensures var dirs := TreeOfA(h, None);
      && Found(dirs, "/a/a") == None && CanOpen(dirs, "/a/a", true, false, free)
      && FindParent(dirs, ["a", "a"]) == Some(h) && NewSpot(dirs, "/a/a") == Spot(h, 2)
  {
    PathOfAA();
    var dirs, names := TreeOfA(h, None), ["a", "a"];
    assert names[1..] == ["a"] && names[..1] == ["a"] && ["a"][1..] == [];
    assert DirSlot(dirs[ROOT], "a", 0) == 0;
    assert DirSlot(dirs[h], "a", 0) == DIR_ENTRIES && NamedSlot(dirs[h], "a", 0) == DIR_ENTRIES;
    assert dirs[h][2].Unused? && UnusedSlot(dirs[h], 0) == 2;
  }

  lemma NamesakeIsFound(h: nat, f: nat)
    requires h != ROOT
    ensures Found(TreeOfA(h, Some(f)), "/a") == Some(Spot(h, 2)) && At(TreeOfA(h, Some(f)), Spot(h, 2)) == Entry("a", false, f, 0)
  {
    PathOfA();
    var dirs := TreeOfA(h, Some(f));
    assert ["a"][1..] == [];
    assert DirSlot(dirs[ROOT], "a", 0) == 0;
    assert !dirs[h][0].Named("a") && !dirs[h][1].Named("a") && dirs[h][2].Named("a");
    assert NamedSlot(dirs[h], "a", 0) == 2;
  }

  method CreateDirA() returns (vfs: Fat16, ghost h: nat)
    ensures fresh(vfs) && fresh(vfs.fat) && fresh(vfs.data) && fresh(vfs.openFiles) && vfs.Valid()
    ensures h != ROOT && vfs.dirs == TreeOfA(h, None) && vfs.Files() == map[] && |FreeClusters(vfs.fat[..])| > 2
    ensures forall i :: 0 <= i < MAX_OPEN_FILES ==> !vfs.openFiles[i].used
  {
    hide Threaded, SizesFit, EntriesMatch, DirsMatch, DescriptorsMatch, FilesOf, RoomFor, CanCreate;
    vfs := new Fat16();
    PathOfA();
    RoomForA(1);
    DirRoomForA(|FreeClusters(vfs.fat[..])|);
    var code := vfs.Mkdir("/a");
    h :| DirMadeAt(EmptyTree(), vfs.dirs, Spot(ROOT, 0), "a", h);
  }

  /** Make the directory `/a` and in it the file `a`, closed again. */
  method CreateNamesake() returns (vfs: Fat16)
    ensures fresh(vfs) && fresh(vfs.fat) && fresh(vfs.data) && fresh(vfs.openFiles) && vfs.Valid()
    ensures Reachable(vfs, "/a") && At(vfs.dirs, Found(vfs.dirs, "/a").value).size == 0 && |FreeClusters(vfs.fat[..])| > 1
  {
    hide Threaded, SizesFit, EntriesMatch, DirsMatch, DescriptorsMatch, FilesOf, CanOpen, Found, RoomFor, TreeOfA;
    ghost var h: nat;
    vfs, h := CreateDirA();
    PathOfA();
    PathOfAA();
    RoomForAA(h, |FreeClusters(vfs.fat[..])|);
    assert !vfs.openFiles[0].used;
    var fd := vfs.Open("/a/a", 7, false);
    ghost var p: Spot :|
      && OpensAt(TreeOfA(h, None), vfs.dirs, map[], vfs.Files(), "/a/a", p)
      && At(vfs.dirs, p).firstCluster == vfs.openFiles[fd].firstCluster;
    ghost var f, files := At(vfs.dirs, p).firstCluster, vfs.openFiles[..];
    WithNamesake(h, f);
    NamesakeIsFound(h, f);
    HeadLess(files, vfs.dirs, vfs.spots, vfs.sizes, fd);
    var _ := vfs.Close(fd);
    assert !vfs.openFiles[fd].used;
  }

  lemma WithNamesake(h: nat, f: nat)
    requires h != ROOT
    ensures ValidSpot(TreeOfA(h, None), Spot(h, 2))
    ensures TreeOfA(h, Some(f)) == Put(TreeOfA(h, None), Spot(h, 2), Entry("a", false, f, 0))
  {
  }

  lemma DirRoomForA(free: nat)
    requires free > 0
    ensures CanCreate(EmptyTree(), "/a", free)
  {
    RoomForA(free);
  }

  /** Such a file keeps what is written to it: through `/a`, its own directory's path. */
  method NamesakeKeepsByte(buf: array<Byte>, out: array<Byte>) returns (vfs: Fat16, n: int, r: int)
    requires buf.Length == 1 && out.Length == 1 && buf != out
    modifies out
    ensures vfs.Valid() && n == 1 && r == 1 && out[0] == buf[0]
  {
    hide Threaded, SizesFit, EntriesMatch, DirsMatch, DescriptorsMatch, Reachable, Found, Plain;
    vfs := CreateNamesake();
    n, r := WriteCloseOpenRead(vfs, "/a", buf, 1, out);
    assert out[..1][0] == buf[..1][0];
  }
}
