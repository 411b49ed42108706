/** What the edits of src/ed/ed.c do to the buffer and to the marks, as functions on values. */
module EdSpec {
  // A line has an identity besides its text, the `char *` of the source: a mark is meant to follow the
  // line, not the text.

  datatype Line = Line(id: nat, text: string)

  type Lines = seq<Line>

  const MARKS := 26
  const UNSET := -1

  // ---------------------------------------------------------------- edits of the buffer

  function Inserted(s: Lines, at: nat, block: Lines): (r: Lines)
    requires at <= |s|
    ensures |r| == |s| + |block|
  {
    s[..at] + (block + s[at..])
  }

  function Deleted(s: Lines, lo: nat, n: nat): (r: Lines)
    requires lo + n <= |s|
    ensures |r| == |s| - n
  {
    s[..lo] + s[lo + n..]
  }

  /** Where the line `dest` is once `n` lines from `lo` on are gone. */
  function Adjusted(lo: nat, n: nat, dest: int): int {
    if dest >= lo + n then dest - n else dest
  }

  /** The `n` lines from `lo` on taken out and put behind line `dest`. */
  function Moved(s: Lines, lo: nat, n: nat, dest: nat): (r: Lines)
    requires lo + n <= |s| && dest < |s| && !(lo <= dest < lo + n)
    ensures |r| == |s|
  {
    Inserted(Deleted(s, lo, n), Adjusted(lo, n, dest) + 1, s[lo..lo + n])
  }

  // ---------------------------------------------------------------- edits of a mark

  function MarkAfterDelete(m: int, lo: nat, n: nat): int {
    if m < 0 then m else if lo <= m < lo + n then UNSET else if m >= lo + n then m - n else m
  }

  function MarkAfterInsert(m: int, at: nat, n: nat): int {
    if m < 0 then m else if m >= at then m + n else m
  }

  function MarkAfterMove(m: int, lo: nat, n: nat, dest: nat): int {
    var to := Adjusted(lo, n, dest) + 1;
    if m < 0 then m
    else if lo <= m < lo + n then to + (m - lo)
    else if lo < to then if lo + n <= m <= dest then m - n else m
    else if to <= m < lo then m + n
    else m
  }

  // ---------------------------------------------------------------- following a line

  ghost predicate Clash(s: Lines, i: nat, j: nat)
    requires i < |s| && j < |s|
  {
    s[i].id == s[j].id
  }

  ghost predicate DistinctLines(s: Lines) {
    forall i: nat, j: nat {:trigger Clash(s, i, j)} :: i < j < |s| ==> !Clash(s, i, j)
  }

  lemma NoClash(s: Lines, i: nat, j: nat)
    requires DistinctLines(s) && i < |s| && j < |s| && i != j
    ensures s[i].id != s[j].id
  {
    assert if i < j then !Clash(s, i, j) else !Clash(s, j, i);
  }

  /** A mark `m` on a line of `s` denotes the same line as `m'` does in `s'`, or the line is gone and `m'` unset. */
  ghost predicate Follows(s: Lines, m: int, s': Lines, m': int) {
    && (m < 0 ==> m' == m)
    && (0 <= m < |s| ==> if s[m] in s' then 0 <= m' < |s'| && s'[m'] == s[m] else m' == -1)
  }

  lemma DeleteFollows(s: Lines, m: int, lo: nat, n: nat)
    requires DistinctLines(s) && lo + n <= |s| && m < |s|
    ensures Follows(s, m, Deleted(s, lo, n), MarkAfterDelete(m, lo, n))
  {
    var r := Deleted(s, lo, n);
    if lo <= m < lo + n {
      forall i | 0 <= i < |r| ensures r[i] != s[m] {
        assert r[i] == s[if i < lo then i else i + n];
        NoClash(s, if i < lo then i else i + n, m);
      }
    } else if m >= 0 {
      assert r[MarkAfterDelete(m, lo, n)] == s[m];
    }
  }

  /** The lines that stay are distinct, and none of the others is left. */
  lemma DeleteStaysDistinct(s: Lines, lo: nat, n: nat)
    requires DistinctLines(s) && lo + n <= |s|
    ensures var r := Deleted(s, lo, n);
      && DistinctLines(r)
      && forall i, j :: 0 <= i < |r| && lo <= j < lo + n ==> r[i].id != s[j].id
  {
    var r := Deleted(s, lo, n);
    assert forall i :: 0 <= i < |r| ==> r[i] == s[if i < lo then i else i + n];
    forall i: nat, j: nat | i < j < |r| ensures !Clash(r, i, j) {
      NoClash(s, if i < lo then i else i + n, if j < lo then j else j + n);
    }
    forall i, j | 0 <= i < |r| && lo <= j < lo + n ensures r[i].id != s[j].id {
      NoClash(s, if i < lo then i else i + n, j);
    }
  }

  lemma InsertFollows(s: Lines, m: int, at: nat, block: Lines)
    requires at <= |s| && m < |s|
    ensures Follows(s, m, Inserted(s, at, block), MarkAfterInsert(m, at, |block|))
  {
    if m >= 0 {
      var s', m' := Inserted(s, at, block), MarkAfterInsert(m, at, |block|);
      assert s'[m'] == s[m];
    }
  }

  lemma InsertStaysDistinct(s: Lines, at: nat, block: Lines)
    requires at <= |s| && DistinctLines(s) && DistinctLines(block)
    requires forall i, j :: 0 <= i < |s| && 0 <= j < |block| ==> s[i].id != block[j].id
    ensures DistinctLines(Inserted(s, at, block))
  {
    var r, n := Inserted(s, at, block), |block|;
    forall i: nat, j: nat | i < j < |r| ensures !Clash(r, i, j) {
      var inI, inJ := at <= i < at + n, at <= j < at + n;
      if inI && inJ {
        NoClash(block, i - at, j - at);
      } else if !inI && !inJ {
        NoClash(s, if i < at then i else i - n, if j < at then j else j - n);
      }
    }
  }

  /** Moving is a permutation of the lines, and marks move by the same permutation. */
  lemma MoveFollows(s: Lines, m: int, lo: nat, n: nat, dest: nat)
    requires lo + n <= |s| && dest < |s| && !(lo <= dest < lo + n) && m < |s|
    ensures |Moved(s, lo, n, dest)| == |s|
    ensures m >= 0 ==>
              var m' := MarkAfterMove(m, lo, n, dest);
              0 <= m' < |s| && Moved(s, lo, n, dest)[m'] == s[m]
    ensures Follows(s, m, Moved(s, lo, n, dest), MarkAfterMove(m, lo, n, dest))
  {
    if m >= 0 {
      MovedAt(s, m, lo, n, dest);
    }
  }

  lemma MovedAt(s: Lines, m: nat, lo: nat, n: nat, dest: nat)
    requires lo + n <= |s| && dest < |s| && !(lo <= dest < lo + n) && m < |s|
    ensures |Moved(s, lo, n, dest)| == |s| && 0 <= MarkAfterMove(m, lo, n, dest) < |s|
    ensures Moved(s, lo, n, dest)[MarkAfterMove(m, lo, n, dest)] == s[m]
  {
    var rest, to, block := Deleted(s, lo, n), Adjusted(lo, n, dest) + 1, s[lo..lo + n];
    var m' := MarkAfterMove(m, lo, n, dest);
    if lo <= m < lo + n {
      assert Inserted(rest, to, block)[m'] == block[m - lo];
    } else {
      var k := if m < lo then m else m - n;
      assert rest[k] == s[m];
      assert m' == if k < to then k else k + n;
      assert Inserted(rest, to, block)[m'] == rest[k];
    }
  }

  /** Two lines never collide under a move. */
  lemma MoveIsInjective(m: nat, k: nat, lo: nat, n: nat, dest: nat)
    requires !(lo <= dest < lo + n) && m != k
    ensures MarkAfterMove(m, lo, n, dest) != MarkAfterMove(k, lo, n, dest)
  {
  }

  lemma BlockStaysDistinct(s: Lines, lo: nat, n: nat)
    requires DistinctLines(s) && lo + n <= |s|
    ensures DistinctLines(s[lo..lo + n])
  {
    var block := s[lo..lo + n];
    forall i: nat, j: nat | i < j < n ensures !Clash(block, i, j) {
      NoClash(s, lo + i, lo + j);
    }
  }

  lemma MoveStaysDistinct(s: Lines, lo: nat, n: nat, dest: nat)
    requires DistinctLines(s) && lo + n <= |s| && dest < |s| && !(lo <= dest < lo + n)
    ensures DistinctLines(Moved(s, lo, n, dest))
  {
    var rest, block := Deleted(s, lo, n), s[lo..lo + n];
    DeleteStaysDistinct(s, lo, n);
    BlockStaysDistinct(s, lo, n);
    InsertStaysDistinct(rest, Adjusted(lo, n, dest) + 1, block);
  }

  /** The block stands right behind the destination line, and the other lines keep their order. */
  lemma MoveIsSplice(s: Lines, lo: nat, n: nat, dest: nat)
    requires lo + n <= |s| && dest < |s| && !(lo <= dest < lo + n)
    ensures var r, to := Moved(s, lo, n, dest), Adjusted(lo, n, dest) + 1;
      && 0 < to && to + n <= |r| && r[to - 1] == s[dest] && r[to..to + n] == s[lo..lo + n]
      && Deleted(r, to, n) == Deleted(s, lo, n)
  {
    var rest, to, block := Deleted(s, lo, n), Adjusted(lo, n, dest) + 1, s[lo..lo + n];
    assert rest[to - 1] == s[dest];
    assert Moved(s, lo, n, dest)[..to] == rest[..to] && Moved(s, lo, n, dest)[to + n..] == rest[to..];
  }

  lemma MoveConserves(s: Lines, lo: nat, n: nat, dest: nat)
    requires lo + n <= |s| && dest < |s| && !(lo <= dest < lo + n)
    ensures multiset(Moved(s, lo, n, dest)) == multiset(s)
  {
    MoveIsSplice(s, lo, n, dest);
    SameBlockSameRest(s, lo, Moved(s, lo, n, dest), Adjusted(lo, n, dest) + 1, n);
  }

  lemma SameBlockSameRest(s: Lines, lo: nat, r: Lines, to: nat, n: nat)
    requires lo + n <= |s| && to + n <= |r|
    requires s[lo..lo + n] == r[to..to + n] && Deleted(s, lo, n) == Deleted(r, to, n)
    ensures multiset(r) == multiset(s)
  {
    DeletedLines(s, lo, n);
    DeletedLines(r, to, n);
  }

  lemma DeletedLines(s: Lines, lo: nat, n: nat)
    requires lo + n <= |s|
    ensures multiset(Deleted(s, lo, n)) + multiset(s[lo..lo + n]) == multiset(s)
  {
    assert s == s[..lo] + (s[lo..lo + n] + s[lo + n..]);
  }

  // ---------------------------------------------------------------- lines selected one by one

  /** The indices in `[lo..hi)` of the lines to delete, in ascending order. */
  function Selected(s: Lines, lo: nat, hi: nat, hit: Line -> bool): (r: seq<nat>)
    requires lo <= hi <= |s|
    ensures forall k :: 0 <= k < |r| ==> lo <= r[k] < hi
    decreases hi
  {
    if lo == hi then []
    else if hit(s[hi - 1]) then Selected(s, lo, hi - 1, hit) + [hi - 1]
    else Selected(s, lo, hi - 1, hit)
  }

  /** Every index is still in the buffer when its turn comes. */
  ghost predicate Deletable(s: Lines, at: seq<nat>)
    decreases |at|
  {
    at == [] || (at[|at| - 1] < |s| && Deletable(Deleted(s, at[|at| - 1], 1), at[..|at| - 1]))
  }

  /** Lines deleted one at a time, the last index first. */
  ghost function DeletedEach(s: Lines, at: seq<nat>): Lines
    requires Deletable(s, at)
    decreases |at|
  {
    if at == [] then s else DeletedEach(Deleted(s, at[|at| - 1], 1), at[..|at| - 1])
  }

  lemma DeletedLast(s: Lines, at: seq<nat>, last: nat)
    requires last < |s| && Deletable(Deleted(s, last, 1), at)
    ensures Deletable(s, at + [last]) && DeletedEach(s, at + [last]) == DeletedEach(Deleted(s, last, 1), at)
  {
    assert (at + [last])[..|at|] == at;
  }

  function Survivors(s: Lines, hit: Line -> bool): Lines {
    if s == [] then []
    else if hit(s[|s| - 1]) then Survivors(s[..|s| - 1], hit)
    else Survivors(s[..|s| - 1], hit) + [s[|s| - 1]]
  }

  /** The lines outside the range, and those inside it that were not hit, in order. */
  function Kept(s: Lines, lo: nat, hi: nat, hit: Line -> bool): Lines
    requires lo <= hi <= |s|
  {
    s[..lo] + (Survivors(s[lo..hi], hit) + s[hi..])
  }

  /** Deleting the hits from the last index down leaves exactly the other lines. */
  lemma {:induction false} DescendingDeletion(s: Lines, lo: nat, hi: nat, hit: Line -> bool)
    requires lo <= hi <= |s|
    ensures Deletable(s, Selected(s, lo, hi, hit))
    ensures DeletedEach(s, Selected(s, lo, hi, hit)) == Kept(s, lo, hi, hit)
    decreases hi
  {
    var at := Selected(s, lo, hi, hit);
    if lo == hi {
      NothingToDelete(s, lo, hit);
    } else {
      var rest := Selected(s, lo, hi - 1, hit);
      if hit(s[hi - 1]) {
        var r := Deleted(s, hi - 1, 1);
        HitIsCut(s, lo, hi, hit);
        DescendingDeletion(r, lo, hi - 1, hit);
        DeletedLast(s, rest, hi - 1);
        assert at == rest + [hi - 1];
      } else {
        MissIsKept(s, lo, hi, hit);
        DescendingDeletion(s, lo, hi - 1, hit);
        assert at == rest;
      }
    }
  }

  lemma NothingToDelete(s: Lines, lo: nat, hit: Line -> bool)
    requires lo <= |s|
    ensures Kept(s, lo, lo, hit) == s
  {
    assert s[lo..lo] == [];
  }

  lemma HitIsCut(s: Lines, lo: nat, hi: nat, hit: Line -> bool)
    requires lo < hi <= |s| && hit(s[hi - 1])
    ensures var r := Deleted(s, hi - 1, 1);
      && Kept(r, lo, hi - 1, hit) == Kept(s, lo, hi, hit)
      && Selected(r, lo, hi - 1, hit) == Selected(s, lo, hi - 1, hit)
  {
    CutLast(s, lo, hi - 1);
    SelectionLooksOnlyBelow(s, Deleted(s, hi - 1, 1), lo, hi - 1, hit);
    assert s[lo..hi][..hi - lo - 1] == s[lo..hi - 1];
  }

  lemma MissIsKept(s: Lines, lo: nat, hi: nat, hit: Line -> bool)
    requires lo < hi <= |s| && !hit(s[hi - 1])
    ensures Kept(s, lo, hi - 1, hit) == Kept(s, lo, hi, hit)
  {
    assert s[lo..hi][..hi - lo - 1] == s[lo..hi - 1];
    assert s[hi - 1..] == [s[hi - 1]] + s[hi..];
  }

  lemma CutLast(s: Lines, lo: nat, k: nat)
    requires lo <= k < |s|
    ensures var r := Deleted(s, k, 1);
      r[..k] == s[..k] && r[..lo] == s[..lo] && r[lo..k] == s[lo..k] && r[k..] == s[k + 1..]
  {
  }

  lemma {:induction false} SelectionLooksOnlyBelow(s: Lines, r: Lines, lo: nat, hi: nat, hit: Line -> bool)
    requires lo <= hi <= |s| && hi <= |r| && s[..hi] == r[..hi]
    ensures Selected(s, lo, hi, hit) == Selected(r, lo, hi, hit)
    decreases hi
  {
    if lo < hi {
      assert s[hi - 1] == s[..hi][hi - 1] && r[hi - 1] == r[..hi][hi - 1];
      assert s[..hi - 1] == s[..hi][..hi - 1] && r[..hi - 1] == r[..hi][..hi - 1];
      SelectionLooksOnlyBelow(s, r, lo, hi - 1, hit);
    }
  }

  /** The survivors are the lines that were not hit: all of them, and no other. */
  lemma {:induction false} SurvivorsAre(s: Lines, hit: Line -> bool, line: Line)
    ensures line in Survivors(s, hit) <==> line in s && !hit(line)
  {
    if s != [] {
      assert s == s[..|s| - 1] + [s[|s| - 1]];
      SurvivorsAre(s[..|s| - 1], hit, line);
    }
  }

  // ---------------------------------------------------------------- whole runs

  datatype Buffer = Buffer(lines: Lines, marks: seq<int>)

  /**
   One edit of the buffer. Append, insert, read and copy all insert a block, whose lines are new:
   their identities are below `bound` but not below any that was in use. Change deletes and then inserts.
   */
  datatype Edit =
    | Insert(at: nat, block: Lines, bound: nat)
    | Delete(lo: nat, n: nat)
    | Move(from: nat, count: nat, dest: nat)
    | Mark(letter: nat, line: nat)

  /** All identities in use are below `next`. */
  ghost predicate SoundLines(s: Lines, next: nat) {
    DistinctLines(s) && forall i :: 0 <= i < |s| ==> s[i].id < next
  }

  ghost predicate MarksInRange(b: Buffer) {
    forall k :: 0 <= k < |b.marks| ==> b.marks[k] < |b.lines|
  }

  ghost predicate NewLines(block: Lines, next: nat, bound: nat) {
    next <= bound && DistinctLines(block) && forall j :: 0 <= j < |block| ==> next <= block[j].id < bound
  }

  ghost predicate Fits(s: Lines, e: Edit) {
    match e
    case Insert(at, _, _) => at <= |s|
    case Delete(lo, n) => lo + n <= |s|
    case Move(lo, n, dest) => lo + n <= |s| && dest < |s| && !(lo <= dest < lo + n)
    case Mark(_, line) => line < |s|
  }

  ghost predicate Legal(b: Buffer, next: nat, e: Edit) {
    && Fits(b.lines, e)
    && (e.Insert? ==> NewLines(e.block, next, e.bound))
    && (e.Mark? ==> e.letter < |b.marks|)
  }

  ghost function LinesStep(s: Lines, e: Edit): Lines
    requires Fits(s, e)
  {
    match e
    case Insert(at, block, _) => Inserted(s, at, block)
    case Delete(lo, n) => Deleted(s, lo, n)
    case Move(lo, n, dest) => Moved(s, lo, n, dest)
    case Mark(_, _) => s
  }

  function MarkStep(m: int, e: Edit): int {
    match e
    case Insert(at, block, _) => MarkAfterInsert(m, at, |block|)
    case Delete(lo, n) => MarkAfterDelete(m, lo, n)
    case Move(lo, n, dest) => MarkAfterMove(m, lo, n, dest)
    case Mark(_, _) => m
  }

  function MarksStep(marks: seq<int>, e: Edit): (r: seq<int>)
    ensures |r| == |marks|
    ensures forall k :: 0 <= k < |r| ==> r[k] == if e.Mark? && e.letter == k then e.line else MarkStep(marks[k], e)
  {
    seq(|marks|, k requires 0 <= k < |marks| => if e.Mark? && e.letter == k then e.line else MarkStep(marks[k], e))
  }

  ghost function Step(b: Buffer, e: Edit): (r: Buffer)
    requires Fits(b.lines, e)
    ensures |r.marks| == |b.marks|
  {
    Buffer(LinesStep(b.lines, e), MarksStep(b.marks, e))
  }

  function NextAfter(next: nat, e: Edit): nat {
    if e.Insert? then e.bound else next
  }

  lemma StepKeepsLines(b: Buffer, next: nat, e: Edit)
    requires SoundLines(b.lines, next) && Legal(b, next, e)
    ensures SoundLines(LinesStep(b.lines, e), NextAfter(next, e))
  {
    match e
    case Insert(at, block, _) => InsertStaysDistinct(b.lines, at, block);
    case Delete(lo, n) =>
      DeleteStaysDistinct(b.lines, lo, n);
      assert forall i :: 0 <= i < |b.lines| - n ==> Deleted(b.lines, lo, n)[i] == b.lines[if i < lo then i else i + n];
    case Move(lo, n, dest) =>
      MoveStaysDistinct(b.lines, lo, n, dest);
      MoveConserves(b.lines, lo, n, dest);
      FromTheSameLines(b.lines, Moved(b.lines, lo, n, dest), next);
    case Mark(_, _) =>
  }

  /** A permutation of lines with used identities has only used identities. */
  lemma FromTheSameLines(s: Lines, r: Lines, next: nat)
    requires multiset(r) == multiset(s) && forall i :: 0 <= i < |s| ==> s[i].id < next
    ensures forall i :: 0 <= i < |r| ==> r[i].id < next
  {
    forall i | 0 <= i < |r| ensures r[i].id < next {
      assert r[i] in multiset(s);
      assert r[i] in s;
    }
  }

  lemma StepKeepsMarksInRange(b: Buffer, next: nat, e: Edit)
    requires MarksInRange(b) && Legal(b, next, e)
    ensures MarksInRange(Step(b, e))
  {
    if e.Move? {
      forall k | 0 <= k < |b.marks| ensures MarkStep(b.marks[k], e) < |Step(b, e).lines| {
        MoveFollows(b.lines, b.marks[k], e.from, e.count, e.dest);
      }
    }
  }

  lemma StepFollows(b: Buffer, next: nat, e: Edit, k: nat)
    requires SoundLines(b.lines, next) && MarksInRange(b) && Legal(b, next, e)
    requires k < |b.marks| && !(e.Mark? && e.letter == k)
    ensures Follows(b.lines, b.marks[k], Step(b, e).lines, Step(b, e).marks[k])
  {
    match e
    case Insert(at, block, _) => InsertFollows(b.lines, b.marks[k], at, block);
    case Delete(lo, n) => DeleteFollows(b.lines, b.marks[k], lo, n);
    case Move(lo, n, dest) => MoveFollows(b.lines, b.marks[k], lo, n, dest);
    case Mark(_, _) =>
  }

  /** A line that is gone stays gone: identities are not reused. */
  lemma GoneStaysGone(b: Buffer, next: nat, e: Edit, line: Line)
    requires Legal(b, next, e) && line.id < next && line !in b.lines
    ensures line !in Step(b, e).lines
  {
    match e
    case Insert(at, block, _) =>
    case Delete(lo, n) =>
    case Move(lo, n, dest) =>
      MoveConserves(b.lines, lo, n, dest);
      SameLines(b.lines, Moved(b.lines, lo, n, dest), line);
    case Mark(_, _) =>
  }

  lemma SameLines(s: Lines, r: Lines, line: Line)
    requires multiset(r) == multiset(s) && line !in s
    ensures line !in r
  {
    assert line !in multiset(s);
  }

  ghost predicate LegalRun(b: Buffer, next: nat, edits: seq<Edit>)
    decreases |edits|
  {
    edits == [] || (Legal(b, next, edits[0]) && LegalRun(Step(b, edits[0]), NextAfter(next, edits[0]), edits[1..]))
  }

  ghost function Run(b: Buffer, next: nat, edits: seq<Edit>): (r: Buffer)
    requires LegalRun(b, next, edits)
    ensures |r.marks| == |b.marks|
    decreases |edits|
  {
    if edits == [] then b else Run(Step(b, edits[0]), NextAfter(next, edits[0]), edits[1..])
  }

  ghost predicate SetsMark(edits: seq<Edit>, k: nat) {
    exists i :: 0 <= i < |edits| && edits[i].Mark? && edits[i].letter == k
  }

  lemma SetsMarkSplit(edits: seq<Edit>, k: nat)
    requires edits != [] && !SetsMark(edits, k)
    ensures !(edits[0].Mark? && edits[0].letter == k) && !SetsMark(edits[1..], k)
  {
    assert forall i :: 0 <= i < |edits[1..]| ==> edits[1..][i] == edits[i + 1];
  }

  /** Once its line is gone and it is unset, a mark stays unset, and the line does not come back. */
  lemma {:induction false} UnsetStaysUnset(b: Buffer, next: nat, edits: seq<Edit>, k: nat, line: Line)
    requires LegalRun(b, next, edits) && k < |b.marks| && !SetsMark(edits, k)
    requires b.marks[k] == UNSET && line.id < next && line !in b.lines
    ensures Run(b, next, edits).marks[k] == UNSET && line !in Run(b, next, edits).lines
    decreases |edits|
  {
    if edits != [] {
      SetsMarkSplit(edits, k);
      GoneStaysGone(b, next, edits[0], line);
      UnsetStaysUnset(Step(b, edits[0]), NextAfter(next, edits[0]), edits[1..], k, line);
    }
  }

  /**
   Marks over whole runs: a mark that is set, and not set again, denotes the same line after
   any run of edits, until that line is deleted; from then on it is unset.
   */
  lemma {:induction false} MarksFollowTheirLines(b: Buffer, next: nat, edits: seq<Edit>, k: nat)
    requires SoundLines(b.lines, next) && MarksInRange(b)
    requires LegalRun(b, next, edits) && k < |b.marks| && !SetsMark(edits, k)
    requires 0 <= b.marks[k]
    ensures Follows(b.lines, b.marks[k], Run(b, next, edits).lines, Run(b, next, edits).marks[k])
    decreases |edits|
  {
    if edits != [] {
      var e, line := edits[0], b.lines[b.marks[k]];
      var b', next' := Step(b, e), NextAfter(next, e);
      SetsMarkSplit(edits, k);
      StepKeepsLines(b, next, e);
      StepKeepsMarksInRange(b, next, e);
      StepFollows(b, next, e, k);
      if line in b'.lines {
        MarksFollowTheirLines(b', next', edits[1..], k);
      } else {
        UnsetStaysUnset(b', next', edits[1..], k, line);
      }
    }
  }

  // ---------------------------------------------------------------- what the commands do in these terms

  /** The new lines for some texts, with identities from `from` on. */
  function LinesOf(texts: seq<string>, from: nat): (r: Lines)
    ensures |r| == |texts|
    ensures forall k :: 0 <= k < |r| ==> r[k] == Line(from + k, texts[k])
  {
    seq(|texts|, k requires 0 <= k < |texts| => Line(from + k, texts[k]))
  }

  function TextsOf(s: Lines): (r: seq<string>)
    ensures |r| == |s|
    ensures forall k :: 0 <= k < |r| ==> r[k] == s[k].text
  {
    seq(|s|, k requires 0 <= k < |s| => s[k].text)
  }

  /** The deletion of lines one at a time, the last index first, as a run of edits. */
  function DeleteEdits(at: seq<nat>): seq<Edit> {
    if at == [] then [] else [Delete(at[|at| - 1], 1)] + DeleteEdits(at[..|at| - 1])
  }

  lemma {:induction false} DeleteEditsRun(b: Buffer, next: nat, at: seq<nat>)
    requires Deletable(b.lines, at)
    ensures LegalRun(b, next, DeleteEdits(at))
    ensures Run(b, next, DeleteEdits(at)).lines == DeletedEach(b.lines, at)
    decreases |at|
  {
    if at != [] {
      var e, rest := Delete(at[|at| - 1], 1), at[..|at| - 1];
      assert DeleteEdits(at)[0] == e && DeleteEdits(at)[1..] == DeleteEdits(rest);
      DeleteEditsRun(Step(b, e), next, rest);
    }
  }
}
