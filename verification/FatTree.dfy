/**
 The directories of fat16/vfs.c, and the lookup of a path in them.

 A directory is named by its cluster, the root directory by 0, and is a sequence of slots.
 */
module FatTree {

  const MAX_DEPTH := 4
  const NAME_LENGTH := 11
  const ROOT := 0
  const ROOT_ENTRIES := 256
  const DIR_ENTRIES := 128

  /** The first character of the name of a deleted entry. */
  const DELETED := 0xE5 as char

  datatype Option<T> = None | Some(value: T)

  /** A slot is free, or one of the two that a directory starts with, or an entry in use. */
  datatype Slot = Unused | Dots | Entry(name: string, isDir: bool, firstCluster: nat, size: nat) {
    predicate Named(n: string) { Entry? && name == n }

    predicate IsFile() { Entry? && !isDir }
  }

  type Dir = seq<Slot>

  type Dirs = map<nat, Dir>

  /** Where an entry stands: in which directory, and in which slot. */
  datatype Spot = Spot(dir: nat, index: nat)

  // ---------------------------------------------------------------- paths

  /** The length of `s` up to a slash. */
  function ToSlash(s: string): (n: nat)
    ensures n <= |s| && '/' !in s[..n] && (n < |s| ==> s[n] == '/')
  {
    if s == [] || s[0] == '/' then 0 else 1 + ToSlash(s[1..])
  }

  /** The components of a path behind its first slash; nothing comes after a slash at its end. */
  function Components(s: string): seq<string>
    decreases |s|
  {
    if s == [] then []
    else [s[..ToSlash(s)]] + if ToSlash(s) < |s| then Components(s[ToSlash(s) + 1..]) else []
  }

  function Shallow(names: seq<string>): seq<string> {
    if |names| <= MAX_DEPTH then names else names[..MAX_DEPTH]
  }

  predicate Short(names: seq<string>) {
    forall i :: 0 <= i < |names| ==> |names[i]| <= NAME_LENGTH
  }

  /** What `findEntry` reads from a path: at most four components; none if one of them is too long. */
  function Parsed(path: string): Option<seq<string>> {
    if path == [] || path[0] != '/' then None
    else
      var names := Shallow(Components(path[1..]));
      if Short(names) then Some(names) else None
  }

  /** `strrchr(path, '/') + 1`. */
  function LastName(path: string): string {
    if path == [] || path[|path| - 1] == '/' then [] else LastName(path[..|path| - 1]) + [path[|path| - 1]]
  }

  /** A path as it is written from the names of its components. */
  function PathOf(names: seq<string>): string {
    if names == [] then [] else "/" + names[0] + PathOf(names[1..])
  }

  lemma {:induction false} SlashEnds(name: string, rest: string)
    requires '/' !in name && (rest == [] || rest[0] == '/')
    ensures ToSlash(name + rest) == |name|
    decreases |name|
  {
    if name == [] {
      assert name + rest == rest;
    } else {
      assert (name + rest)[1..] == name[1..] + rest && name[0] in name;
      SlashEnds(name[1..], rest);
    }
  }

  predicate ProperNames(names: seq<string>) {
    forall i :: 0 <= i < |names| ==> names[i] != [] && '/' !in names[i]
  }

  lemma FirstComponent(name: string, rest: string)
    requires name != [] && '/' !in name && (rest == [] || rest[0] == '/')
    ensures Components(name + rest) == [name] + if rest == [] then [] else Components(rest[1..])
  {
    hide ToSlash;
    var s := name + rest;
    SlashEnds(name, rest);
    assert s[..|name|] == name;
    if rest != [] {
      assert s[|name| + 1..] == rest[1..];
    } else {
      assert s == name;
    }
  }

  lemma {:induction false} ComponentsOf(names: seq<string>)
    requires ProperNames(names) && names != []
    ensures Components(PathOf(names)[1..]) == names
    decreases |names|
  {
    hide Components;
    var rest := PathOf(names[1..]);
    assert PathOf(names)[1..] == names[0] + rest;
    FirstComponent(names[0], rest);
    if names[1..] != [] {
      ComponentsOf(names[1..]);
    }
  }

  lemma {:induction false} LastOf(front: string, name: string)
    requires '/' !in name
    ensures LastName(front + "/" + name) == name
    decreases |name|
  {
    var path := front + "/" + name;
    if name != [] {
      var n := |name| - 1;
      assert name[n] in name && path[..|path| - 1] == front + "/" + name[..n];
      LastOf(front, name[..n]);
    }
  }

  lemma {:induction false} PathEnds(names: seq<string>) returns (front: string)
    requires names != []
    ensures PathOf(names) == front + "/" + names[|names| - 1]
    decreases |names|
  {
    if |names| == 1 {
      front := [];
      assert PathOf(names[1..]) == [];
    } else {
      var rest := PathEnds(names[1..]);
      front := "/" + names[0] + rest;
    }
  }

  /**
   A path is read as the first four of the names it was written from, and not at all if one of these has
   more than eleven characters; the name of a new entry is always the last one.
   */
  lemma PathIsRead(names: seq<string>)
    requires ProperNames(names) && names != []
    ensures var shown := if |names| <= 4 then names else names[..4];
      Parsed(PathOf(names)) == if forall i :: 0 <= i < |shown| ==> |shown[i]| <= 11 then Some(shown) else None
    ensures LastName(PathOf(names)) == names[|names| - 1]
  {
    ComponentsOf(names);
    var front := PathEnds(names);
    LastOf(front, names[|names| - 1]);
  }

  /** A path that is read as it is written: of one to four components, the last one a proper name. */
  predicate Plain(path: string) {
    Parsed(path).Some? ==>
      var names := Parsed(path).value;
      && names != [] && names == Components(path[1..]) && names[|names| - 1] == LastName(path)
      && LastName(path) != [] && LastName(path)[0] != DELETED
  }

  // ---------------------------------------------------------------- lookup

  /** The first slot from `i` on that holds a directory of this name. */
  function DirSlot(d: Dir, name: string, i: nat): (j: nat)
    requires i <= |d|
    ensures i <= j <= |d| && (j < |d| ==> d[j].Named(name) && d[j].isDir)
    ensures forall k :: i <= k < j ==> !(d[k].Named(name) && d[k].isDir)
    decreases |d| - i
  {
    if i == |d| || (d[i].Named(name) && d[i].isDir) then i else DirSlot(d, name, i + 1)
  }

  function NamedSlot(d: Dir, name: string, i: nat): (j: nat)
    requires i <= |d|
    ensures i <= j <= |d| && (j < |d| ==> d[j].Named(name))
    ensures forall k :: i <= k < j ==> !d[k].Named(name)
    decreases |d| - i
  {
    if i == |d| || d[i].Named(name) then i else NamedSlot(d, name, i + 1)
  }

  function UnusedSlot(d: Dir, i: nat): (j: nat)
    requires i <= |d|
    ensures i <= j <= |d| && (j < |d| ==> d[j].Unused?)
    ensures forall k :: i <= k < j ==> !d[k].Unused?
    decreases |d| - i
  {
    if i == |d| || d[i].Unused? then i else UnusedSlot(d, i + 1)
  }

  /** Descend from directory `at` through directories of these names. */
  function Walk(dirs: Dirs, at: nat, names: seq<string>): (c: Option<nat>)
    ensures c.Some? ==> c.value in dirs
    decreases |names|
  {
    if at !in dirs then None
    else if names == [] then Some(at)
    else
      var j := DirSlot(dirs[at], names[0], 0);
      if j == |dirs[at]| then None else Walk(dirs, dirs[at][j].firstCluster, names[1..])
  }

  /** `findEntry` for an entry: descend through all components, the last one included, and look for the last one's name there. */
  function FindEntry(dirs: Dirs, names: seq<string>): (p: Option<Spot>)
    requires names != []
    ensures p.Some? ==> ValidSpot(dirs, p.value) && At(dirs, p.value).Named(names[|names| - 1])
  {
    var c := Walk(dirs, ROOT, names);
    if c.None? then None
    else
      var j := NamedSlot(dirs[c.value], names[|names| - 1], 0);
      if j == |dirs[c.value]| then None else Some(Spot(c.value, j))
  }

  /** `findEntry` for the parent directory. */
  function FindParent(dirs: Dirs, names: seq<string>): (c: Option<nat>)
    ensures c.Some? ==> c.value in dirs
  {
    Walk(dirs, ROOT, if names == [] then [] else names[..|names| - 1])
  }

  predicate ValidSpot(dirs: Dirs, p: Spot) {
    p.dir in dirs && p.index < |dirs[p.dir]|
  }

  function At(dirs: Dirs, p: Spot): Slot
    requires ValidSpot(dirs, p)
  {
    dirs[p.dir][p.index]
  }

  function Put(dirs: Dirs, p: Spot, s: Slot): Dirs
    requires ValidSpot(dirs, p)
  {
    dirs[p.dir := dirs[p.dir][p.index := s]]
  }

  /** An empty root directory. */
  function EmptyTree(): (dirs: Dirs)
    ensures ROOT in dirs && |dirs[ROOT]| == 256
  {
    map[ROOT := seq(ROOT_ENTRIES, _ => Unused)]
  }

  // ---------------------------------------------------------------- well-formed trees

  ghost predicate SameName(d: Dir, i: nat, j: nat)
    requires i < |d| && j < |d|
  {
    d[i].Entry? && d[j].Named(d[i].name)
  }

  ghost predicate NamesDiffer(d: Dir) {
    forall i: nat, j: nat {:trigger SameName(d, i, j)} :: i < |d| && j < |d| && i != j ==> !SameName(d, i, j)
  }

  /** Names are unique in each directory, and the entry of a directory leads to one. */
  ghost predicate TreeValid(dirs: Dirs) {
    && ROOT in dirs
    && (forall c :: c in dirs ==> NamesDiffer(dirs[c]))
    && (forall c, j :: c in dirs && 0 <= j < |dirs[c]| && dirs[c][j].Entry? && dirs[c][j].isDir ==> dirs[c][j].firstCluster in dirs)
  }

  // ---------------------------------------------------------------- what is found

  /** The directories on the way: `trail[i]` holds a directory named `names[i]`, whose cluster is `trail[i + 1]`. */
  ghost predicate Leads(dirs: Dirs, trail: seq<nat>, names: seq<string>) {
    && |trail| == |names| + 1
    && forall i :: 0 <= i < |names| ==> HasDir(dirs, trail[i], names[i], trail[i + 1])
  }

  ghost predicate HasDir(dirs: Dirs, c: nat, name: string, child: nat) {
    c in dirs && exists j :: 0 <= j < |dirs[c]| && dirs[c][j].Named(name) && dirs[c][j].isDir && dirs[c][j].firstCluster == child
  }

  ghost predicate HasEntry(dirs: Dirs, c: nat, name: string) {
    c in dirs && exists j :: 0 <= j < |dirs[c]| && dirs[c][j].Named(name)
  }

  lemma {:induction false} WalkLeads(dirs: Dirs, at: nat, names: seq<string>) returns (trail: seq<nat>)
    requires Walk(dirs, at, names).Some?
    ensures Leads(dirs, trail, names) && trail[0] == at && trail[|names|] == Walk(dirs, at, names).value
    decreases |names|
  {
    if names == [] {
      trail := [at];
    } else {
      var j := DirSlot(dirs[at], names[0], 0);
      var rest := WalkLeads(dirs, dirs[at][j].firstCluster, names[1..]);
      trail := [at] + rest;
      forall i | 0 <= i < |names| ensures HasDir(dirs, trail[i], names[i], trail[i + 1]) {
        if i > 0 {
          assert HasDir(dirs, rest[i - 1], names[1..][i - 1], rest[i]);
        }
      }
    }
  }

  lemma {:induction false} LeadsWalk(dirs: Dirs, trail: seq<nat>, names: seq<string>)
    requires TreeValid(dirs) && Leads(dirs, trail, names) && trail[|names|] in dirs
    ensures Walk(dirs, trail[0], names) == Some(trail[|names|])
    decreases |names|
  {
    if names != [] {
      assert HasDir(dirs, trail[0], names[0], trail[1]);
      var d := dirs[trail[0]];
      var k :| 0 <= k < |d| && d[k].Named(names[0]) && d[k].isDir && d[k].firstCluster == trail[1];
      var j := DirSlot(d, names[0], 0);
      assert j < |d|;
      if j != k {
        assert SameName(d, j, k);
      }
      forall i | 0 <= i < |names[1..]| ensures HasDir(dirs, trail[1..][i], names[1..][i], trail[1..][i + 1]) {
        assert HasDir(dirs, trail[i + 1], names[i + 1], trail[i + 2]);
      }
      LeadsWalk(dirs, trail[1..], names[1..]);
    }
  }

  ghost predicate LeadsTo(dirs: Dirs, names: seq<string>, c: nat) {
    exists trail :: Leads(dirs, trail, names) && trail[0] == ROOT && trail[|names|] == c
  }

  lemma LeadsToWalk(dirs: Dirs, names: seq<string>, c: nat)
    requires TreeValid(dirs) && c in dirs
    ensures LeadsTo(dirs, names, c) <==> Walk(dirs, ROOT, names) == Some(c)
  {
    if Walk(dirs, ROOT, names) == Some(c) {
      var trail := WalkLeads(dirs, ROOT, names);
    }
    if LeadsTo(dirs, names, c) {
      var trail :| Leads(dirs, trail, names) && trail[0] == ROOT && trail[|names|] == c;
      LeadsWalk(dirs, trail, names);
    }
  }

  /**
   An entry is found if and only if every component, the last one included, names a directory, and the
   directory so reached holds an entry with the last component's name.
   */
  lemma FindEntryExactly(dirs: Dirs, names: seq<string>)
    requires TreeValid(dirs) && names != []
    ensures FindEntry(dirs, names).Some? <==> exists c :: LeadsTo(dirs, names, c) && HasEntry(dirs, c, names[|names| - 1])
  {
    if FindEntry(dirs, names).Some? {
      var p := FindEntry(dirs, names).value;
      var trail := WalkLeads(dirs, ROOT, names);
      assert LeadsTo(dirs, names, p.dir) && HasEntry(dirs, p.dir, names[|names| - 1]);
    }
    forall c | LeadsTo(dirs, names, c) && HasEntry(dirs, c, names[|names| - 1]) ensures FindEntry(dirs, names).Some? {
      var trail :| Leads(dirs, trail, names) && trail[0] == ROOT && trail[|names|] == c;
      LeadsWalk(dirs, trail, names);
    }
  }

  /** The path names a regular file: its directory holds one of this name. */
  ghost predicate NamesFile(dirs: Dirs, names: seq<string>) {
    && names != [] && FindParent(dirs, names).Some?
    && exists j :: 0 <= j < |dirs[FindParent(dirs, names).value]|
                && dirs[FindParent(dirs, names).value][j].Named(names[|names| - 1])
                && !dirs[FindParent(dirs, names).value][j].isDir
  }

  lemma {:induction false} WalkLast(dirs: Dirs, at: nat, names: seq<string>)
    requires names != []
    ensures var c, last := Walk(dirs, at, names[..|names| - 1]), [names[|names| - 1]];
      Walk(dirs, at, names) == if c.None? then None else Walk(dirs, c.value, last)
    decreases |names|
  {
    if |names| == 1 {
      assert names == [names[0]] && names[..0] == [];
    } else if at in dirs {
      var j := DirSlot(dirs[at], names[0], 0);
      assert names[..|names| - 1][1..] == names[1..][..|names| - 2];
      if j < |dirs[at]| {
        WalkLast(dirs, dirs[at][j].firstCluster, names[1..]);
      }
    }
  }

  /** A path that names a regular file is never found. */
  lemma RegularFileIsNeverFound(dirs: Dirs, names: seq<string>)
    requires TreeValid(dirs) && NamesFile(dirs, names)
    ensures FindEntry(dirs, names) == None
  {
    WalkLast(dirs, ROOT, names);
    var d, last := dirs[FindParent(dirs, names).value], names[|names| - 1];
    var k :| 0 <= k < |d| && d[k].Named(last) && !d[k].isDir;
    var j := DirSlot(d, last, 0);
    if j < |d| {
      assert SameName(d, j, k);
    }
  }

  // ---------------------------------------------------------------- what changes of the tree keep

  /** Every directory entry of `d` is still in its slot. */
  ghost predicate DirsKept(d: Dir, now: Dir) {
    forall j {:trigger d[j]} :: 0 <= j < |d| && d[j].Entry? && d[j].isDir ==>
      j < |now| && now[j].Named(d[j].name) && now[j].isDir && now[j].firstCluster == d[j].firstCluster
  }

  /** Directories are only added. */
  ghost predicate Grows(dirs: Dirs, now: Dirs) {
    forall c :: c in dirs ==> c in now && NamesDiffer(now[c]) && DirsKept(dirs[c], now[c])
  }

  lemma {:induction false} WalkKept(dirs: Dirs, now: Dirs, at: nat, names: seq<string>)
    requires Grows(dirs, now) && Walk(dirs, at, names).Some?
    ensures Walk(now, at, names) == Walk(dirs, at, names)
    decreases |names|
  {
    if names != [] {
      var j, k := DirSlot(dirs[at], names[0], 0), DirSlot(now[at], names[0], 0);
      assert dirs[at][j].isDir && now[at][j].Named(names[0]);
      if k != j {
        assert SameName(now[at], j, k);
      }
      WalkKept(dirs, now, dirs[at][j].firstCluster, names[1..]);
    }
  }

  /** The slot holds a file with the last of these names, in the directory that all of them or all but the last lead to. */
  ghost predicate Backed(dirs: Dirs, names: seq<string>, p: Spot) {
    && names != [] && ValidSpot(dirs, p) && At(dirs, p).IsFile() && At(dirs, p).Named(names[|names| - 1])
    && (Walk(dirs, ROOT, names) == Some(p.dir) || Walk(dirs, ROOT, names[..|names| - 1]) == Some(p.dir))
  }

  /** Looking such a path up finds that file or nothing: that file exactly when all of the names lead to its directory. */
  lemma BackedFinds(dirs: Dirs, names: seq<string>, p: Spot)
    requires TreeValid(dirs) && Backed(dirs, names, p)
    ensures FindEntry(dirs, names) == if Walk(dirs, ROOT, names) == Some(p.dir) then Some(p) else None
  {
    var d, last := dirs[p.dir], names[|names| - 1];
    if Walk(dirs, ROOT, names) == Some(p.dir) {
      var j := NamedSlot(d, last, 0);
      if j != p.index {
        assert SameName(d, j, p.index);
      }
    } else {
      assert d[p.index].Named(last) && !d[p.index].isDir;
      RegularFileIsNeverFound(dirs, names);
    }
  }

  lemma BackedKept(dirs: Dirs, now: Dirs, names: seq<string>, p: Spot)
    requires Backed(dirs, names, p) && Grows(dirs, now)
    requires ValidSpot(now, p) && At(now, p).IsFile() && At(now, p).name == At(dirs, p).name
    ensures Backed(now, names, p)
  {
    if Walk(dirs, ROOT, names) == Some(p.dir) {
      WalkKept(dirs, now, ROOT, names);
    } else {
      WalkKept(dirs, now, ROOT, names[..|names| - 1]);
    }
  }

  lemma GrowsAt(dirs: Dirs, p: Spot, s: Slot)
    requires TreeValid(dirs) && ValidSpot(dirs, p) && !(At(dirs, p).Entry? && At(dirs, p).isDir)
    requires NamesDiffer(dirs[p.dir][p.index := s])
    ensures Grows(dirs, Put(dirs, p, s))
  {
  }

  /** A new size in an entry. */
  lemma Resized(dirs: Dirs, p: Spot, size: nat)
    requires TreeValid(dirs) && ValidSpot(dirs, p) && At(dirs, p).IsFile()
    ensures var now := Put(dirs, p, At(dirs, p).(size := size)); TreeValid(now) && Grows(dirs, now)
  {
    var d := dirs[p.dir];
    var d' := d[p.index := d[p.index].(size := size)];
    forall i: nat, j: nat | i < |d'| && j < |d'| && i != j ensures !SameName(d', i, j) {
      assert !SameName(d, i, j);
    }
    GrowsAt(dirs, p, d[p.index].(size := size));
  }

  /** A file's entry deleted. */
  lemma Deleted(dirs: Dirs, p: Spot)
    requires TreeValid(dirs) && ValidSpot(dirs, p) && At(dirs, p).IsFile()
    ensures var now := Put(dirs, p, Unused); TreeValid(now) && Grows(dirs, now)
  {
    var d := dirs[p.dir];
    var d' := d[p.index := Unused];
    forall i: nat, j: nat | i < |d'| && j < |d'| && i != j ensures !SameName(d', i, j) {
      assert !SameName(d, i, j);
    }
    GrowsAt(dirs, p, Unused);
  }

  lemma NewName(d: Dir, i: nat, s: Slot)
    requires NamesDiffer(d) && i < |d| && d[i].Unused? && s.Entry? && forall j :: 0 <= j < |d| ==> !d[j].Named(s.name)
    ensures NamesDiffer(d[i := s])
  {
    var d' := d[i := s];
    forall a: nat, b: nat | a < |d'| && b < |d'| && a != b ensures !SameName(d', a, b) {
      assert !SameName(d, a, b);
    }
  }

  /** An unused slot in a directory that has no entry of this name. */
  ghost predicate RoomFor(dirs: Dirs, p: Spot, name: string) {
    ValidSpot(dirs, p) && At(dirs, p).Unused? && forall j :: 0 <= j < |dirs[p.dir]| ==> !dirs[p.dir][j].Named(name)
  }

  /** A new file. */
  lemma FileAdded(dirs: Dirs, p: Spot, name: string, h: nat)
    requires TreeValid(dirs) && RoomFor(dirs, p, name)
    ensures var now := Put(dirs, p, Entry(name, false, h, 0)); TreeValid(now) && Grows(dirs, now)
  {
    NewName(dirs[p.dir], p.index, Entry(name, false, h, 0));
    GrowsAt(dirs, p, Entry(name, false, h, 0));
  }

  function NewDir(): (d: Dir)
    ensures |d| == 128 && forall j :: 0 <= j < |d| ==> !d[j].Entry?
  {
    seq(DIR_ENTRIES, j => if j < 2 then Dots else Unused)
  }

  function WithDir(dirs: Dirs, p: Spot, name: string, h: nat): Dirs
    requires ValidSpot(dirs, p)
  {
    Put(dirs, p, Entry(name, true, h, 0))[h := NewDir()]
  }

  /** A new directory. */
  lemma DirAdded(dirs: Dirs, p: Spot, name: string, h: nat)
    requires TreeValid(dirs) && RoomFor(dirs, p, name) && h !in dirs
    ensures TreeValid(WithDir(dirs, p, name, h)) && Grows(dirs, WithDir(dirs, p, name, h))
  {
    NewName(dirs[p.dir], p.index, Entry(name, true, h, 0));
    GrowsAt(dirs, p, Entry(name, true, h, 0));
  }

  // ---------------------------------------------------------------- the loops

  /** The parsing loop of `findEntry`. */
  method ParsePath(path: string) returns (r: Option<seq<string>>)
    ensures r == Parsed(path)
  {
    if path == [] || path[0] != '/' {
      return None;
    }
    var names: seq<string>, p := [], path[1..];
    ghost var all := Components(p);
    while p != [] && |names| < MAX_DEPTH
      invariant |names| <= MAX_DEPTH && all == names + Components(p) && Short(names)
      decreases |p|
    {
      var next := ToSlash(p);
      if next > NAME_LENGTH {
        NameTooLong(names, p);
        return None;
      }
      OneMoreName(names, p);
      names := names + [p[..next]];
      p := if next < |p| then p[next + 1..] else [];
    }
    assert Shallow(all) == names;
    return Some(names);
  }

  lemma NameTooLong(names: seq<string>, p: string)
    requires p != [] && |names| < MAX_DEPTH && ToSlash(p) > NAME_LENGTH
    ensures !Short(Shallow(names + Components(p)))
  {
    assert Shallow(names + Components(p))[|names|] == p[..ToSlash(p)];
  }

  lemma OneMoreName(names: seq<string>, p: string)
    requires p != []
    ensures var next := ToSlash(p);
      names + Components(p) == names + [p[..next]] + Components(if next < |p| then p[next + 1..] else [])
  {
  }

  /** The loop that looks for a directory of this name. */
  method SearchDir(d: Dir, name: string) returns (j: nat)
    ensures j == DirSlot(d, name, 0)
  {
    j := 0;
    while j < |d|
      invariant j <= |d| && DirSlot(d, name, j) == DirSlot(d, name, 0)
    {
      if d[j].Named(name) && d[j].isDir {
        return;
      }
      j := j + 1;
    }
  }

  method SearchEntry(d: Dir, name: string) returns (j: nat)
    ensures j == NamedSlot(d, name, 0)
  {
    j := 0;
    while j < |d|
      invariant j <= |d| && NamedSlot(d, name, j) == NamedSlot(d, name, 0)
    {
      if d[j].Named(name) {
        return;
      }
      j := j + 1;
    }
  }

  method SearchUnused(d: Dir) returns (j: nat)
    ensures j == UnusedSlot(d, 0)
  {
    j := 0;
    while j < |d|
      invariant j <= |d| && UnusedSlot(d, j) == UnusedSlot(d, 0)
    {
      if d[j].Unused? {
        return;
      }
      j := j + 1;
    }
  }

  /** The descent of `findEntry`, through `depth` of the names. */
  method Descend(dirs: Dirs, names: seq<string>, depth: nat) returns (c: Option<nat>)
    requires TreeValid(dirs) && depth <= |names|
    ensures c == Walk(dirs, ROOT, names[..depth])
  {
    var current := ROOT;
    var i: nat := 0;
    assert names[..depth][0..] == names[..depth];
    while i < depth
      invariant i <= depth && current in dirs
      invariant Walk(dirs, ROOT, names[..depth]) == Walk(dirs, current, names[..depth][i..])
    {
      assert names[..depth][i..][0] == names[i] && names[..depth][i..][1..] == names[..depth][i + 1..];
      var j := SearchDir(dirs[current], names[i]);
      if j == |dirs[current]| {
        return None;
      }
      current := dirs[current][j].firstCluster;
      i := i + 1;
    }
    assert names[..depth][i..] == [];
    return Some(current);
  }

  /** `findEntry` for an entry, on the components of a path. */
  method LookUp(dirs: Dirs, names: seq<string>) returns (p: Option<Spot>)
    requires TreeValid(dirs) && names != []
    ensures p == FindEntry(dirs, names)
  {
    var c := Descend(dirs, names, |names|);
    assert names[..|names|] == names;
    if c.None? {
      return None;
    }
    var j := SearchEntry(dirs[c.value], names[|names| - 1]);
    if j == |dirs[c.value]| {
      return None;
    }
    return Some(Spot(c.value, j));
  }

  /** `findEntry` for the parent directory. */
  method LookUpParent(dirs: Dirs, names: seq<string>) returns (c: Option<nat>)
    requires TreeValid(dirs)
    ensures c == FindParent(dirs, names)
  {
    c := Descend(dirs, names, if |names| > 0 then |names| - 1 else 0);
  }
}
