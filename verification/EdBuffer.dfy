/**
 The line editor of src/ed/ed.c: an array of lines shifted in place, and 26 marks that go with it.

 The commands that insert, delete, move and copy lines are proved to perform one edit of EdSpec, or two
 where one deletes and inserts; addresses count from 0, and -1 stands in front of the first line.
 */
module EdBuffer {
  import opened EdSpec

  /** A line as it was read, and whether a newline ended it. */
  datatype Input = Input(text: string, newline: bool)

  datatype Outcome = Done | InvalidAddress | InvalidDestination | CannotOpenFile | NothingToUndo

  datatype FileText = Unreadable | Readable(input: seq<Input>)

  /** The texts a command takes from its input: up to a lone dot, where that ends it, or to a line without a newline. */
  function Accepted(input: seq<Input>, dotEnds: bool): seq<string> {
    if input == [] || (dotEnds && input[0].text == ".") then []
    else if !input[0].newline then [input[0].text]
    else [input[0].text] + Accepted(input[1..], dotEnds)
  }

  function ByteCount(input: seq<Input>): nat {
    if input == [] then 0
    else if !input[0].newline then |input[0].text|
    else |input[0].text| + 1 + ByteCount(input[1..])
  }

  method CountBytes(input: seq<Input>) returns (bytes: nat)
    ensures bytes == ByteCount(input)
  {
    bytes := 0;
    var k: nat := 0;
    while k < |input|
      invariant k <= |input| && ByteCount(input) == bytes + ByteCount(input[k..])
    {
      assert input[k..][1..] == input[k + 1..];
      if !input[k].newline {
        return bytes + |input[k].text|;
      }
      bytes := bytes + |input[k].text| + 1;
      k := k + 1;
    }
  }

  /** The bytes of a file: each line with its newline, if it has one. */
  function FileBytes(input: seq<Input>): string {
    if input == [] then [] else input[0].text + (if input[0].newline then "\n" else "") + FileBytes(input[1..])
  }

  /** Only the last line can lack a newline. */
  predicate Complete(input: seq<Input>) {
    forall k :: 0 <= k < |input| - 1 ==> input[k].newline
  }

  /** The count is the length of the file. */
  lemma {:induction false} CountIsLength(input: seq<Input>)
    requires Complete(input)
    ensures ByteCount(input) == |FileBytes(input)|
    decreases |input|
  {
    if input != [] {
      if input[0].newline {
        assert Complete(input[1..]);
        CountIsLength(input[1..]);
      } else {
        assert input[1..] == [];
      }
    }
  }

  /** The lines taken from a file are all of its lines, in order. */
  lemma {:induction false} AllLinesAccepted(input: seq<Input>)
    requires Complete(input)
    ensures |Accepted(input, false)| == |input| && forall k :: 0 <= k < |input| ==> Accepted(input, false)[k] == input[k].text
    decreases |input|
  {
    if input != [] {
      if input[0].newline {
        assert Complete(input[1..]);
        AllLinesAccepted(input[1..]);
      } else {
        assert input[1..] == [];
      }
    }
  }

  /** The lines typed in are those in front of the first lone dot, or all of them. */
  lemma {:induction false} LinesBeforeDot(input: seq<Input>) returns (n: nat)
    requires Complete(input)
    ensures n <= |input| && (n < |input| ==> input[n].text == ".") && forall k :: 0 <= k < n ==> input[k].text != "."
    ensures |Accepted(input, true)| == n && forall k :: 0 <= k < n ==> Accepted(input, true)[k] == input[k].text
    decreases |input|
  {
    if input == [] || input[0].text == "." {
      n := 0;
    } else if !input[0].newline {
      assert input[1..] == [];
      n := 1;
    } else {
      assert Complete(input[1..]);
      var rest := LinesBeforeDot(input[1..]);
      n := rest + 1;
    }
  }

  /** Lines without a byte to count: one that starts with a NUL and that no newline ends. */
  lemma LinesWithoutBytes(input: seq<Input>)
    ensures ByteCount(input) == 0 && Accepted(input, false) != [] <==> input != [] && input[0] == Input("", false)
  {
  }

  /** One command has done exactly one legal edit. */
  ghost predicate Performs(before: Buffer, next: nat, e: Edit, after: Buffer) {
    Legal(before, next, e) && after == Step(before, e)
  }

  /** New lines have come in, and the marks have been moved or not. */
  ghost predicate ReadIn(before: Buffer, next: nat, e: Edit, moved: bool, after: Buffer) {
    && Legal(before, next, e) && after.lines == LinesStep(before.lines, e)
    && after.marks == if moved then MarksStep(before.marks, e) else before.marks
  }

  /** Lines that are new now were new before. */
  lemma StillNew(before: Buffer, earlier: nat, next: nat, e: Edit, after: Buffer)
    requires earlier <= next && Performs(before, next, e, after)
    ensures Performs(before, earlier, e, after)
  {
  }

  // ---------------------------------------------------------------- shifting in place

  /** Close a gap of `n` lines at `lo`. */
  method ShiftDown(a: array<Line>, lo: nat, n: nat, count: nat)
    requires lo + n <= count <= a.Length
    modifies a
    ensures a[..count - n] == Deleted(old(a[..count]), lo, n)
  {
    ghost var was := a[..count];
    for i := lo to count - n
      invariant forall k {:trigger a[k]} :: 0 <= k < count ==> a[k] == was[if lo <= k < i then k + n else k]
    {
      a[i] := a[i + n];
    }
  }

  /** Open a gap of `n` lines at `at`. */
  method ShiftUp(a: array<Line>, at: nat, n: nat, count: nat)
    requires at <= count && count + n <= a.Length
    modifies a
    ensures forall k {:trigger a[k]} :: 0 <= k < count + n && !(at <= k < at + n) ==>
              a[k] == old(a[..count])[if k < at then k else k - n]
  {
    ghost var was := a[..count];
    for i := count downto at
      invariant forall k {:trigger a[k]} :: 0 <= k < count + n && !(i <= k < i + n) ==> a[k] == was[if k < i then k else k - n]
    {
      a[i + n] := a[i];
    }
  }

  method PutBlock(a: array<Line>, at: nat, block: array<Line>)
    requires at + block.Length <= a.Length && a != block
    modifies a
    ensures forall k :: at <= k < at + block.Length ==> a[k] == block[k - at]
    ensures forall k :: 0 <= k < a.Length && !(at <= k < at + block.Length) ==> a[k] == old(a[k])
  {
    for i := 0 to block.Length
      invariant forall k :: at <= k < at + i ==> a[k] == block[k - at]
      invariant forall k :: 0 <= k < a.Length && !(at <= k < at + i) ==> a[k] == old(a[k])
    {
      a[at + i] := block[i];
    }
  }

  /** A block between what stood below the gap and what was shifted above it. */
  lemma Filled(a: array<Line>, s: Lines, at: nat, block: Lines)
    requires at <= |s| && |s| + |block| <= a.Length
    requires forall k {:trigger a[k]} :: at <= k < at + |block| ==> a[k] == block[k - at]
    requires forall k {:trigger a[k]} :: 0 <= k < |s| + |block| && !(at <= k < at + |block|) ==>
               a[k] == s[if k < at then k else k - |block|]
    ensures a[..|s| + |block|] == Inserted(s, at, block)
  {
  }

  method Realloc(a: array<Line>, count: nat, size: nat) returns (b: array<Line>)
    requires count <= a.Length && count <= size
    ensures fresh(b) && b.Length == size && forall k {:trigger b[k]} :: 0 <= k < count ==> b[k] == a[k]
  {
    b := new Line[size](_ => Line(0, ""));
    for i := 0 to count
      invariant forall k :: 0 <= k < i ==> b[k] == a[k]
    {
      b[i] := a[i];
    }
  }

  method WithLine(a: array<Line>, count: nat, at: nat, line: Line) returns (b: array<Line>)
    requires at <= count <= a.Length
    ensures fresh(b) && b.Length == count + 1 && b[..] == Inserted(a[..count], at, [line])
  {
    b := Realloc(a, count, count + 1);
    ghost var was := a[..count];
    assert b[..count] == was;
    ShiftUp(b, at, 1, count);
    b[at] := line;
    Filled(b, was, at, [line]);
    assert b[..count + 1] == b[..];
  }

  /** Save the block, close the gap it leaves, open one behind the destination and put the block there. */
  method MoveBlock(a: array<Line>, count: nat, start: nat, end: nat, destAddr: nat) returns (adjusted: nat)
    requires start <= end < count <= a.Length && destAddr < count && !(start <= destAddr <= end)
    modifies a
    ensures a[..count] == Moved(old(a[..count]), start, end - start + 1, destAddr)
    ensures adjusted == Adjusted(start, end - start + 1, destAddr)
  {
    hide Inserted, Deleted, Moved;
    var n := end - start + 1;
    ghost var was := a[..count];
    MovedIs(was, start, n, destAddr);
    var moved := TakeBlock(a, start, n, count);
    ghost var rest, block := a[..count - n], moved[..];
    adjusted := destAddr;
    if destAddr > end {
      adjusted := destAddr - n;
    }
    PutBehind(a, count, count - n, adjusted, moved);
    assert a[..count] == Inserted(rest, adjusted + 1, block);
  }

  lemma MovedIs(s: Lines, lo: nat, n: nat, dest: nat)
    requires lo + n <= |s| && dest < |s| && !(lo <= dest < lo + n)
    ensures var adjusted := Adjusted(lo, n, dest);
      && 0 <= adjusted < |s| - n
      && Moved(s, lo, n, dest) == Inserted(Deleted(s, lo, n), adjusted + 1, s[lo..lo + n])
  {
  }

  method TakeBlock(a: array<Line>, start: nat, n: nat, count: nat) returns (block: array<Line>)
    requires start + n <= count <= a.Length
    modifies a
    ensures fresh(block) && block.Length == n && block[..] == old(a[..count])[start..start + n]
    ensures a[..count - n] == Deleted(old(a[..count]), start, n)
  {
    block := Copied(a, start, n, count);
    ShiftDown(a, start, n, count);
  }

  method Copied(a: array<Line>, start: nat, n: nat, ghost count: nat) returns (block: array<Line>)
    requires start + n <= count <= a.Length
    ensures fresh(block) && block.Length == n && block[..] == a[..count][start..start + n]
  {
    block := new Line[n](_ => Line(0, ""));
    for i := 0 to n
      invariant forall k {:trigger block[k]} :: 0 <= k < i ==> block[k] == a[start + k]
    {
      block[i] := a[start + i];
    }
  }

  /** Put a block behind line `dest`; with it there are `total` lines. */
  method PutBehind(a: array<Line>, total: nat, count: nat, dest: nat, block: array<Line>)
    requires dest < count && count + block.Length == total <= a.Length && a != block
    modifies a
    ensures a[..total] == Inserted(old(a[..count]), dest + 1, block[..])
  {
    ShiftUp(a, dest + 1, block.Length, count);
    PutBlock(a, dest + 1, block);
    Filled(a, old(a[..count]), dest + 1, block[..]);
  }

  /** Put copies of the `n` lines from `start` on behind line `dest`. */
  method CopyBlock(a: array<Line>, count: nat, start: nat, n: nat, dest: nat, from: nat)
    requires start + n <= count && dest < count && count + n == a.Length
    modifies a
    ensures a[..count + n] == Inserted(old(a[..count]), dest + 1, LinesOf(TextsOf(old(a[..count])[start..start + n]), from))
  {
    ghost var was := a[..count];
    ghost var block := LinesOf(TextsOf(was[start..start + n]), from);
    assert forall k :: 0 <= k < n ==> block[k] == Line(from + k, was[start + k].text);
    ShiftUp(a, dest + 1, n, count);
    FillWithCopies(a, was, block, start, n, dest, from);
  }

  method WithCopies(a: array<Line>, count: nat, start: nat, n: nat, dest: nat, from: nat) returns (b: array<Line>)
    requires start + n <= count <= a.Length && dest < count
    ensures fresh(b) && b.Length == count + n
    ensures b[..count + n] == Inserted(a[..count], dest + 1, LinesOf(TextsOf(a[..count][start..start + n]), from))
  {
    b := Realloc(a, count, count + n);
    assert b[..count] == a[..count];
    CopyBlock(b, count, start, n, dest, from);
  }

  /** The sources are read where the shift has left them. */
  method FillWithCopies(a: array<Line>, ghost was: Lines, ghost block: Lines, start: nat, n: nat, dest: nat, from: nat)
    requires start + n <= |was| && dest < |was| && |was| + n == a.Length
    requires |block| == n && forall k :: 0 <= k < n ==> block[k] == Line(from + k, was[start + k].text)
    requires forall k {:trigger a[k]} :: 0 <= k < a.Length && !(dest + 1 <= k < dest + 1 + n) ==>
               a[k] == was[if k < dest + 1 then k else k - n]
    modifies a
    ensures a[..|was| + n] == Inserted(was, dest + 1, block)
  {
    for i := 0 to n
      invariant forall k {:trigger a[k]} :: 0 <= k < a.Length && !(dest + 1 <= k < dest + 1 + n) ==>
                  a[k] == was[if k < dest + 1 then k else k - n]
      invariant forall k {:trigger a[k]} :: dest + 1 <= k < dest + 1 + i ==> a[k] == block[k - (dest + 1)]
    {
      var src := start + i;
      if src > dest {
        src := src + n;
      }
      assert a[src] == was[start + i];
      a[dest + 1 + i] := Line(from + i, a[src].text);
    }
    Filled(a, was, dest + 1, block);
  }

  lemma OneMoreLine(s: Lines, at: nat, texts: seq<string>, from: nat, text: string, now: Lines, next: Lines)
    requires at <= |s| && now == Inserted(s, at, LinesOf(texts, from))
    requires next == Inserted(now, at + |texts|, [Line(from + |texts|, text)])
    ensures next == Inserted(s, at, LinesOf(texts + [text], from))
  {
  }

  /** Taking line `k` after `texts` leads closer to everything that is taken. */
  lemma TakesOne(input: seq<Input>, dotEnds: bool, k: nat, texts: seq<string>)
    requires k < |input| && !(dotEnds && input[k].text == ".")
    requires Accepted(input, dotEnds) == texts + Accepted(input[k..], dotEnds)
    ensures var next := texts + [input[k].text];
      Accepted(input, dotEnds) == if input[k].newline then next + Accepted(input[k + 1..], dotEnds) else next
  {
    assert input[k..][0] == input[k] && input[k..][1..] == input[k + 1..];
  }

  lemma LinesOfAreNew(texts: seq<string>, from: nat)
    ensures NewLines(LinesOf(texts, from), from, from + |texts|)
  {
  }

  class Editor {
    var lines: array<Line>
    var numLines: nat
    var currentLine: int
    var dirty: bool
    const marks: array<int>
    var undoLines: array<Line>
    var undoNumLines: nat
    var undoCurrentLine: int
    var undoValid: bool
    /** How many lines have been allocated: the identity of the next one. */
    var nextId: nat

    predicate Shaped()
      reads this`lines, this`numLines, this`undoLines, this`undoNumLines
    {
      && numLines <= lines.Length && undoNumLines <= undoLines.Length
      && marks.Length == MARKS && lines != undoLines
    }

    ghost predicate Valid()
      reads this`lines, this`numLines, this`undoLines, this`undoNumLines, this`nextId, lines, undoLines
    {
      Shaped() && SoundLines(lines[..numLines], nextId) && SoundLines(undoLines[..undoNumLines], nextId)
    }

    ghost function Buf(): Buffer
      reads this`lines, this`numLines, lines, marks
      requires numLines <= lines.Length
    {
      Buffer(lines[..numLines], marks[..])
    }

    /** The snapshot holds the texts of these lines. */
    ghost predicate Remembers(s: Lines)
      reads this`undoLines, this`undoNumLines, this`undoValid, undoLines
    {
      undoValid && undoNumLines <= undoLines.Length && TextsOf(undoLines[..undoNumLines]) == TextsOf(s)
    }

    constructor ()
      ensures Valid() && Buf() == Buffer([], seq(26, _ => -1))
      ensures currentLine == -1 && !dirty && !undoValid
      ensures fresh(lines) && fresh(undoLines) && fresh(marks)
    {
      lines, undoLines := new Line[0], new Line[0];
      numLines, currentLine, dirty := 0, -1, false;
      undoNumLines, undoCurrentLine, undoValid := 0, 0, false;
      marks := new int[MARKS](_ => UNSET);
      nextId := 0;
    }

    /** Copy the lines for the undo command; the copies are lines of their own. */
    method PrepareUndo()
      requires Valid()
      modifies this`undoLines, this`undoNumLines, this`undoCurrentLine, this`undoValid, this`nextId
      ensures Valid() && fresh(undoLines) && nextId == old(nextId) + numLines
      ensures Remembers(lines[..numLines]) && undoCurrentLine == currentLine
      ensures Buf() == old(Buf())
    {
      var copies := new Line[numLines];
      for i := 0 to numLines
        invariant nextId == old(nextId)
        invariant forall k :: 0 <= k < i ==> copies[k] == Line(nextId + k, lines[k].text)
      {
        copies[i] := Line(nextId + i, lines[i].text);
      }
      undoLines, undoNumLines, undoCurrentLine, undoValid := copies, numLines, currentLine, true;
      nextId := nextId + numLines;
    }

    method UpdateMarksAfterDelete(startLine: nat, numDeleted: nat)
      modifies marks
      ensures forall k :: 0 <= k < marks.Length ==> marks[k] == MarkAfterDelete(old(marks[k]), startLine, numDeleted)
    {
      for i := 0 to marks.Length
        invariant forall k :: 0 <= k < i ==> marks[k] == MarkAfterDelete(old(marks[k]), startLine, numDeleted)
        invariant forall k :: i <= k < marks.Length ==> marks[k] == old(marks[k])
      {
        if marks[i] < 0 {
          continue;
        }
        if startLine <= marks[i] < startLine + numDeleted {
          marks[i] := -1;
        } else if marks[i] >= startLine + numDeleted {
          marks[i] := marks[i] - numDeleted;
        }
      }
    }

    method UpdateMarksAfterInsert(insertLine: nat, numInserted: nat)
      modifies marks
      ensures forall k :: 0 <= k < marks.Length ==> marks[k] == MarkAfterInsert(old(marks[k]), insertLine, numInserted)
    {
      for i := 0 to marks.Length
        invariant forall k :: 0 <= k < i ==> marks[k] == MarkAfterInsert(old(marks[k]), insertLine, numInserted)
        invariant forall k :: i <= k < marks.Length ==> marks[k] == old(marks[k])
      {
        if marks[i] < 0 {
          continue;
        }
        if marks[i] >= insertLine {
          marks[i] := marks[i] + numInserted;
        }
      }
    }

    method UpdateMarksAfterMove(start: nat, end: nat, destAddr: nat)
      requires start <= end && !(start <= destAddr <= end)
      modifies marks
      ensures forall k :: 0 <= k < marks.Length ==>
                marks[k] == MarkAfterMove(old(marks[k]), start, end - start + 1, destAddr)
    {
      var n := end - start + 1;
      var adjusted := if destAddr > end then destAddr - n else destAddr;
      for i := 0 to marks.Length
        invariant forall k :: 0 <= k < i ==> marks[k] == MarkAfterMove(old(marks[k]), start, n, destAddr)
        invariant forall k :: i <= k < marks.Length ==> marks[k] == old(marks[k])
      {
        if marks[i] < 0 {
          continue;
        }
        if start <= marks[i] <= end {
          var offset := marks[i] - start;
          marks[i] := adjusted + 1 + offset;
        } else if start < adjusted + 1 {
          if end < marks[i] <= destAddr {
            marks[i] := marks[i] - n;
          }
        } else {
          if adjusted + 1 <= marks[i] < start {
            marks[i] := marks[i] + n;
          }
        }
      }
    }

    // -------------------------------------------------------------- inserting

    /** One more line behind the ones inserted so far. */
    method InsertNext(pos: nat, text: string, ghost was: Lines, ghost at: nat, ghost texts: seq<string>, ghost from: nat)
      requires Shaped() && at <= |was| && pos == at + |texts| && nextId == from + |texts|
      requires lines[..numLines] == Inserted(was, at, LinesOf(texts, from))
      modifies this`lines, this`numLines, this`nextId
      ensures Shaped() && fresh(lines) && nextId == old(nextId) + 1
      ensures lines[..numLines] == Inserted(was, at, LinesOf(texts + [text], from))
    {
      ghost var now := lines[..numLines];
      lines := WithLine(lines, numLines, pos, Line(nextId, text));
      numLines := numLines + 1;
      OneMoreLine(was, at, texts, from, text, now, lines[..numLines]);
      nextId := nextId + 1;
    }

    /** The loop that append, insert and read share: one line after the other, each behind the one before. */
    method InsertInput(at: nat, input: seq<Input>, dotEnds: bool) returns (n: nat)
      requires Shaped() && at <= numLines
      modifies this`lines, this`numLines, this`nextId
      ensures Shaped() && (lines == old(lines) || fresh(lines))
      ensures n == |Accepted(input, dotEnds)| && nextId == old(nextId) + n
      ensures lines[..numLines] == Inserted(old(lines[..numLines]), at, LinesOf(Accepted(input, dotEnds), old(nextId)))
    {
      ghost var was, from, all := lines[..numLines], nextId, Accepted(input, dotEnds);
      ghost var texts: seq<string> := [];
      var pos, k: nat := at, 0;
      n := 0;
      assert lines[..numLines] == Inserted(was, at, LinesOf(texts, from));
      while k < |input| && !(dotEnds && input[k].text == ".")
        invariant k <= |input| && Shaped() && (lines == old(lines) || fresh(lines))
        invariant all == texts + Accepted(input[k..], dotEnds)
        invariant n == |texts| && pos == at + n <= numLines && nextId == from + n
        invariant lines[..numLines] == Inserted(was, at, LinesOf(texts, from))
      {
        InsertNext(pos, input[k].text, was, at, texts, from);
        TakesOne(input, dotEnds, k, texts);
        texts := texts + [input[k].text];
        n, pos := n + 1, pos + 1;
        if !input[k].newline {
          return;
        }
        k := k + 1;
      }
      assert texts == all;
    }

    /** The input goes in at `at`, and the marks behind it move along. */
    method InsertAndMark(at: nat, input: seq<Input>, dotEnds: bool) returns (n: nat, ghost e: Edit)
      requires Valid() && at <= numLines
      modifies this`lines, this`numLines, this`nextId, this`dirty, marks
      ensures Valid() && (lines == old(lines) || fresh(lines))
      ensures var texts := Accepted(input, dotEnds);
        && n == |texts|
        && nextId == old(nextId) + n
        && e == Insert(at, LinesOf(texts, old(nextId)), nextId)
        && dirty == (old(dirty) || texts != [])
      ensures Performs(old(Buf()), old(nextId), e, Buf())
    {
      ghost var before, from := Buf(), nextId;
      n := InsertInput(at, input, dotEnds);
      if n > 0 {
        dirty := true;
        UpdateMarksAfterInsert(at, n);
      }
      e := Insert(at, LinesOf(Accepted(input, dotEnds), from), nextId);
      Inserting(before, from, at, Accepted(input, dotEnds));
    }

    method AppendLine(addr: int, input: seq<Input>) returns (ghost e: Edit)
      requires Valid() && -1 <= addr < numLines
      modifies this, marks
      ensures Valid() && (lines == old(lines) || fresh(lines)) && fresh(undoLines)
      ensures Remembers(old(lines[..numLines])) && undoCurrentLine == old(currentLine)
      ensures var texts := Accepted(input, true);
        && e == Insert(addr + 1, LinesOf(texts, old(nextId + numLines)), nextId)
        && currentLine == (if texts != [] then addr + |texts|
                           else if numLines == 0 then old(currentLine)
                           else if addr + 1 < numLines then addr + 1 else addr)
        && dirty == (old(dirty) || texts != [])
      ensures Performs(old(Buf()), old(nextId), e, Buf())
    {
      PrepareUndo();
      var n: nat;
      n, e := InsertAndMark(addr + 1, input, true);
      PlaceCurrentLine(addr, n);
    }

    method PlaceCurrentLine(addr: int, n: nat)
      modifies this`currentLine
      ensures currentLine == if n > 0 then addr + n
                             else if numLines == 0 then old(currentLine)
                             else if addr + 1 < numLines then addr + 1 else addr
    {
      if n > 0 {
        currentLine := addr + n;
      } else if numLines > 0 && addr + 1 < numLines {
        currentLine := addr + 1;
      } else if numLines > 0 {
        currentLine := addr;
      }
    }

    method InsertLine(addr: nat, input: seq<Input>) returns (ghost e: Edit)
      requires Valid() && addr <= numLines
      modifies this, marks
      ensures Valid() && (lines == old(lines) || fresh(lines)) && fresh(undoLines)
      ensures Remembers(old(lines[..numLines])) && undoCurrentLine == old(currentLine)
      ensures var texts := Accepted(input, true);
        && e == Insert(addr, LinesOf(texts, old(nextId + numLines)), nextId)
        && currentLine == (if texts != [] then addr + |texts| - 1 else addr)
        && dirty == (old(dirty) || texts != [])
      ensures Performs(old(Buf()), old(nextId), e, Buf())
    {
      PrepareUndo();
      var n: nat;
      n, e := InsertAndMark(addr, input, true);
      if n > 0 {
        currentLine := addr + n - 1;
      } else {
        currentLine := addr;
      }
    }

    /**
     Read a file in behind an address.  The marks, the dirty flag and the current line only change
     if bytes were counted; `ReadInIsEditExactly` says when the call is one edit all the same.
     */
    method ReadFileAtAddress(addr: int, file: FileText) returns (outcome: Outcome, bytes: nat, ghost e: Edit)
      requires Valid() && -1 <= addr < numLines
      modifies this, marks
      ensures Valid() && (lines == old(lines) || fresh(lines)) && fresh(undoLines)
      ensures Remembers(old(lines[..numLines])) && undoCurrentLine == old(currentLine)
      ensures outcome == if file.Readable? then Done else CannotOpenFile
      ensures outcome != Done ==> bytes == 0 && Buf() == old(Buf()) && dirty == old(dirty) && currentLine == old(currentLine)
      ensures outcome == Done ==>
                var texts := Accepted(file.input, false);
                && bytes == ByteCount(file.input)
                && e == Insert(addr + 1, LinesOf(texts, old(nextId + numLines)), nextId)
                && ReadIn(old(Buf()), old(nextId), e, bytes > 0, Buf())
                && currentLine == (if bytes > 0 then addr + |texts| else old(currentLine))
                && dirty == (old(dirty) || bytes > 0)
    {
      PrepareUndo();
      if !file.Readable? {
        return CannotOpenFile, 0, Delete(0, 0);
      }
      bytes := CountBytes(file.input);
      outcome := Done;
      e := TakeFile(addr, file.input, bytes);
    }

    /** The loop, and what depends on the count of bytes. */
    method TakeFile(addr: int, input: seq<Input>, bytes: nat) returns (ghost e: Edit)
      requires Valid() && -1 <= addr < numLines && bytes == ByteCount(input)
      modifies this`lines, this`numLines, this`nextId, this`dirty, this`currentLine, marks
      ensures Valid() && (lines == old(lines) || fresh(lines))
      ensures var texts := Accepted(input, false);
        && e == Insert(addr + 1, LinesOf(texts, old(nextId)), nextId) && nextId == old(nextId) + |texts|
        && currentLine == (if bytes > 0 then addr + |texts| else old(currentLine))
        && dirty == (old(dirty) || bytes > 0)
      ensures ReadIn(old(Buf()), old(nextId), e, bytes > 0, Buf())
    {
      ghost var before, from := Buf(), nextId;
      var n := InsertInput(addr + 1, input, false);
      e := Insert(addr + 1, LinesOf(Accepted(input, false), from), nextId);
      Inserting(before, from, addr + 1, Accepted(input, false));
      if bytes > 0 {
        currentLine := addr + n;
        dirty := true;
        UpdateMarksAfterInsert(addr + 1, n);
      }
    }

    // -------------------------------------------------------------- deleting

    /** Take lines out, with the storage they no longer need. */
    method TakeOut(start: nat, n: nat)
      requires Valid() && start + n <= numLines && n > 0
      modifies this`lines, this`numLines, this`dirty, lines, marks
      ensures Valid() && (lines == old(lines) || fresh(lines)) && dirty
      ensures Performs(old(Buf()), old(nextId), Delete(start, n), Buf())
    {
      ghost var before := Buf();
      StepKeepsLines(before, nextId, Delete(start, n));
      ShiftDown(lines, start, n, numLines);
      numLines := numLines - n;
      lines := Realloc(lines, numLines, numLines);
      assert lines[..numLines] == Deleted(before.lines, start, n);
      dirty := true;
      UpdateMarksAfterDelete(start, n);
    }

    method DeleteLine(addr: int) returns (outcome: Outcome)
      requires Valid()
      modifies this, lines, marks
      ensures Valid() && (lines == old(lines) || fresh(lines)) && fresh(undoLines)
      ensures Remembers(old(lines[..numLines])) && undoCurrentLine == old(currentLine)
      ensures outcome == (if 0 <= addr < old(numLines) then Done else InvalidAddress) && nextId == old(nextId + numLines)
      ensures outcome != Done ==> Buf() == old(Buf()) && dirty == old(dirty) && currentLine == old(currentLine)
      ensures outcome == Done ==>
                && Performs(old(Buf()), old(nextId), Delete(addr, 1), Buf())
                && dirty && currentLine == (if addr < numLines then addr else numLines - 1)
    {
      PrepareUndo();
      if numLines == 0 || addr < 0 || addr >= numLines {
        return InvalidAddress;
      }
      TakeOut(addr, 1);
      currentLine := if addr < numLines then addr else numLines - 1;
      if currentLine < 0 {
        currentLine := -1;
      }
      outcome := Done;
    }

    method DeleteRange(start: int, end: int) returns (outcome: Outcome)
      requires Valid() && start <= end
      modifies this, lines, marks
      ensures Valid() && (lines == old(lines) || fresh(lines)) && fresh(undoLines)
      ensures Remembers(old(lines[..numLines])) && undoCurrentLine == old(currentLine)
      ensures outcome == (if 0 <= start && end < old(numLines) then Done else InvalidAddress) && nextId == old(nextId + numLines)
      ensures outcome != Done ==> Buf() == old(Buf()) && dirty == old(dirty) && currentLine == old(currentLine)
      ensures outcome == Done ==>
                && Performs(old(Buf()), old(nextId), Delete(start, end - start + 1), Buf())
                && dirty && currentLine == (if start < numLines then start else numLines - 1)
    {
      hide Performs, TextsOf;
      PrepareUndo();
      if start < 0 || end < 0 || start >= numLines || end >= numLines {
        return InvalidAddress;
      }
      ghost var before, later := Buf(), nextId;
      TakeOut(start, end - start + 1);
      StillNew(before, old(nextId), later, Delete(start, end - start + 1), Buf());
      if numLines == 0 {
        currentLine := -1;
      } else {
        currentLine := if start < numLines then start else numLines - 1;
      }
      outcome := Done;
    }

    /**
     Delete a range and put the input where it stood. The snapshot is taken again for the
     insertion, so undo only goes back to the buffer between the two.
     */
    method ChangeRange(start: int, end: int, input: seq<Input>) returns (outcome: Outcome, ghost between: Buffer, ghost e: Edit)
      requires Valid() && start <= end
      modifies this, lines, marks
      ensures Valid() && (lines == old(lines) || fresh(lines)) && fresh(undoLines)
      ensures outcome == if 0 <= start && end < old(numLines) then Done else InvalidAddress
      ensures outcome != Done ==> Buf() == old(Buf()) && dirty == old(dirty) && currentLine == old(currentLine)
      ensures outcome == Done ==>
                var n, texts, later := end - start + 1, Accepted(input, true), old(nextId + 2 * numLines);
                && Performs(old(Buf()), old(nextId), Delete(start, n), between) && Remembers(between.lines)
                && e == Insert(start, LinesOf(texts, later + |between.lines|), nextId)
                && dirty && currentLine == (if texts != [] then start + |texts| - 1 else start)
      ensures outcome == Done ==> Performs(between, old(nextId), e, Buf())
    {
      hide Performs, Accepted, LinesOf;
      PrepareUndo();
      if start < 0 || end < 0 || start >= numLines || end >= numLines {
        return InvalidAddress, Buf(), Delete(0, 0);
      }
      outcome := Done;
      ghost var before, later := Buf(), nextId;
      between, e := DeleteAndInsert(start, end, input);
      StillNew(before, old(nextId), later, Delete(start, end - start + 1), between);
      StillNew(between, old(nextId), later + old(numLines), e, Buf());
    }

    method DeleteAndInsert(start: nat, end: nat, input: seq<Input>) returns (ghost between: Buffer, ghost e: Edit)
      requires Valid() && start <= end < numLines
      modifies this, lines, marks
      ensures Valid() && (lines == old(lines) || fresh(lines)) && fresh(undoLines)
      ensures Performs(old(Buf()), old(nextId), Delete(start, end - start + 1), between) && Remembers(between.lines)
      ensures var texts, later := Accepted(input, true), old(nextId + numLines);
        && e == Insert(start, LinesOf(texts, later + |between.lines|), nextId)
        && dirty && currentLine == if texts != [] then start + |texts| - 1 else start
      ensures Performs(between, old(nextId + numLines), e, Buf())
    {
      hide Accepted, LinesOf;
      var _ := DeleteRange(start, end);
      between := Buf();
      var insertAddr := start;
      if insertAddr > numLines {
        insertAddr := numLines;
      }
      e := InsertLine(insertAddr, input);
    }

    // -------------------------------------------------------------- moving and copying

    method MoveRange(start: int, end: int, destAddr: int) returns (outcome: Outcome)
      requires Valid() && start <= end && destAddr != numLines
      modifies this, lines, marks
      ensures Valid() && lines == old(lines) && fresh(undoLines)
      ensures Remembers(old(lines[..numLines])) && undoCurrentLine == old(currentLine)
      ensures outcome == if start < 0 || end >= old(numLines) || destAddr < 0 || destAddr > old(numLines) then InvalidAddress
                         else if start <= destAddr <= end then InvalidDestination else Done
      ensures outcome != Done ==> Buf() == old(Buf()) && dirty == old(dirty) && currentLine == old(currentLine)
      ensures outcome == Done ==>
                var n := end - start + 1;
                && Performs(old(Buf()), old(nextId), Move(start, n, destAddr), Buf())
                && dirty && currentLine == Adjusted(start, n, destAddr) + n
    {
      PrepareUndo();
      if start < 0 || end < 0 || start >= numLines || end >= numLines {
        return InvalidAddress;
      }
      if destAddr < 0 || destAddr > numLines {
        return InvalidAddress;
      }
      if start <= destAddr <= end {
        return InvalidDestination;
      }
      MoveLines(start, end, destAddr);
      outcome := Done;
    }

    method MoveLines(start: nat, end: nat, destAddr: nat)
      requires Valid() && start <= end < numLines && destAddr < numLines && !(start <= destAddr <= end)
      modifies this`currentLine, this`dirty, lines, marks
      ensures Valid() && dirty
      ensures var n := end - start + 1;
        Performs(old(Buf()), nextId, Move(start, n, destAddr), Buf()) && currentLine == Adjusted(start, n, destAddr) + n
    {
      var n := end - start + 1;
      StepKeepsLines(Buf(), nextId, Move(start, n, destAddr));
      var adjusted := MoveBlock(lines, numLines, start, end, destAddr);
      currentLine := adjusted + n;
      dirty := true;
      UpdateMarksAfterMove(start, end, destAddr);
    }

    method CopyRange(start: int, end: int, destAddr: int) returns (outcome: Outcome, ghost e: Edit)
      requires Valid() && start <= end && destAddr != numLines
      modifies this, lines, marks
      ensures Valid() && (lines == old(lines) || fresh(lines)) && fresh(undoLines)
      ensures Remembers(old(lines[..numLines])) && undoCurrentLine == old(currentLine)
      ensures outcome == if start < 0 || end >= old(numLines) || destAddr < 0 || destAddr > old(numLines) then InvalidAddress else Done
      ensures outcome != Done ==> Buf() == old(Buf()) && dirty == old(dirty) && currentLine == old(currentLine)
      ensures outcome == Done ==>
                var n := end - start + 1;
                && e == Insert(destAddr + 1, LinesOf(TextsOf(old(lines[..numLines])[start..end + 1]), old(nextId + numLines)), nextId)
                && dirty && currentLine == destAddr + n
      ensures outcome == Done ==> Performs(old(Buf()), old(nextId), e, Buf())
    {
      PrepareUndo();
      e := Delete(0, 0);
      if start < 0 || end < 0 || start >= numLines || end >= numLines {
        return InvalidAddress, e;
      }
      if destAddr < 0 || destAddr > numLines {
        return InvalidAddress, e;
      }
      ghost var before, later := Buf(), nextId;
      outcome := Done;
      e := CopyLines(start, end, destAddr);
      StillNew(before, old(nextId), later, e, Buf());
    }

    method CopyLines(start: nat, end: nat, destAddr: nat) returns (ghost e: Edit)
      requires Valid() && start <= end < numLines && destAddr < numLines
      modifies this`lines, this`numLines, this`nextId, this`currentLine, this`dirty, marks
      ensures Valid() && fresh(lines) && dirty && currentLine == destAddr + (end - start + 1)
      ensures e == Insert(destAddr + 1, LinesOf(TextsOf(old(lines[..numLines])[start..end + 1]), old(nextId)), nextId)
      ensures Performs(old(Buf()), old(nextId), e, Buf())
    {
      ghost var before, texts := Buf(), TextsOf(lines[..numLines][start..end + 1]);
      var n := end - start + 1;
      e := Insert(destAddr + 1, LinesOf(texts, nextId), nextId + n);
      Inserting(before, nextId, destAddr + 1, texts);
      lines := WithCopies(lines, numLines, start, n, destAddr, nextId);
      numLines, nextId := numLines + n, nextId + n;
      currentLine := destAddr + n;
      dirty := true;
      UpdateMarksAfterInsert(destAddr + 1, n);
    }

    // -------------------------------------------------------------- marks, undo and the global command

    method SetMark(letter: nat, addr: int) returns (outcome: Outcome)
      requires Valid() && letter < MARKS
      modifies this`currentLine, marks
      ensures Valid() && outcome == if 0 <= addr < numLines then Done else InvalidAddress
      ensures outcome != Done ==> Buf() == old(Buf()) && currentLine == old(currentLine)
      ensures outcome == Done ==> Performs(old(Buf()), nextId, Mark(letter, addr), Buf()) && currentLine == addr
    {
      if addr < 0 || addr >= numLines {
        return InvalidAddress;
      }
      marks[letter] := addr;
      currentLine := addr;
      outcome := Done;
    }

    /** Put the snapshot back; the marks stay as they are. */
    method Undo() returns (outcome: Outcome)
      requires Valid()
      modifies this
      ensures Valid() && outcome == if old(undoValid) then Done else NothingToUndo
      ensures outcome != Done ==> Buf() == old(Buf()) && dirty == old(dirty) && currentLine == old(currentLine)
      ensures outcome == Done ==>
                && Buf() == Buffer(old(undoLines[..undoNumLines]), old(marks[..])) && currentLine == old(undoCurrentLine)
                && dirty && !undoValid
    {
      if !undoValid {
        return NothingToUndo;
      }
      lines, numLines, currentLine := undoLines, undoNumLines, undoCurrentLine;
      undoLines, undoNumLines, undoCurrentLine, undoValid := new Line[0], 0, 0, false;
      dirty := true;
      outcome := Done;
    }

    /** A deletion and `u`: the texts and the current line come back, the marks of the deleted lines do not. */
    method DeleteAndUndo(start: int, end: int) returns (deleted: Outcome, undone: Outcome)
      requires Valid() && start <= end
      modifies this, lines, marks
      ensures Valid() && undone == Done
      ensures TextsOf(lines[..numLines]) == TextsOf(old(lines[..numLines])) && currentLine == old(currentLine)
      ensures deleted == if 0 <= start && end < old(numLines) then Done else InvalidAddress
      ensures deleted != Done ==> marks[..] == old(marks[..])
      ensures deleted == Done ==>
                forall k :: 0 <= k < 26 ==>
                  var m := old(marks[..])[k];
                  marks[k] == if m < start then m else if m <= end then -1 else m - (end - start + 1)
    {
      deleted := DeleteRange(start, end);
      undone := Undo();
    }

    /** Collect the indices first, then delete one line at a time, the last one first. */
    method GlobalDelete(start: nat, end: nat, isGlobal: bool, matches: string -> bool)
      requires Valid() && start <= end < numLines
      modifies this, lines, marks
      ensures Valid()
      ensures var hit := (line: Line) => isGlobal == matches(line.text);
        var at := Selected(old(lines[..numLines]), start, end + 1, hit);
        && lines[..numLines] == Kept(old(lines[..numLines]), start, end + 1, hit)
        && LegalRun(old(Buf()), old(nextId), DeleteEdits(at))
        && Buf() == Run(old(Buf()), old(nextId), DeleteEdits(at))
        && (at == [] ==> currentLine == old(currentLine) && dirty == old(dirty))
        && (at != [] ==> dirty && currentLine == if at[0] < numLines then at[0] else numLines - 1)
    {
      ghost var hit := (line: Line) => isGlobal == matches(line.text);
      ghost var before, next := Buf(), nextId;
      var idxs, n := CollectIndices(start, end, isGlobal, matches);
      DescendingDeletion(before.lines, start, end + 1, hit);
      DeleteEditsRun(before, next, idxs[..n]);
      DeleteIndices(idxs, n, next);
    }

    /** The loop over the collected indices. */
    method DeleteIndices(idxs: array<nat>, n: nat, ghost next: nat)
      requires Valid() && n <= idxs.Length
      requires Deletable(lines[..numLines], idxs[..n]) && LegalRun(Buf(), next, DeleteEdits(idxs[..n]))
      modifies this, lines, marks
      ensures Valid() && Buf() == Run(old(Buf()), next, DeleteEdits(old(idxs[..n])))
      ensures n == 0 ==> currentLine == old(currentLine) && dirty == old(dirty)
      ensures n > 0 ==> dirty && currentLine == if old(idxs[0]) < numLines then old(idxs[0]) else numLines - 1
    {
      ghost var at, goal := idxs[..n], Run(Buf(), next, DeleteEdits(idxs[..n]));
      var k := n;
      assert at[..n] == at;
      while k > 0
        invariant k <= n && Valid() && (lines == old(lines) || fresh(lines)) && at == idxs[..n]
        invariant Deletable(lines[..numLines], at[..k])
        invariant LegalRun(Buf(), next, DeleteEdits(at[..k])) && Run(Buf(), next, DeleteEdits(at[..k])) == goal
        invariant k == n ==> currentLine == old(currentLine) && dirty == old(dirty)
        invariant k < n ==> dirty && currentLine == if at[k] < numLines then at[k] else numLines - 1
      {
        k := k - 1;
        DeleteSelected(idxs[k], next, at, k + 1);
      }
    }

    /** The last one of the first `k` selected lines, with the others still to be deleted. */
    method DeleteSelected(index: nat, ghost next: nat, ghost at: seq<nat>, ghost k: nat)
      requires Valid() && 0 < k <= |at| && index == at[k - 1]
      requires Deletable(lines[..numLines], at[..k]) && LegalRun(Buf(), next, DeleteEdits(at[..k]))
      modifies this, lines, marks
      ensures Valid() && (lines == old(lines) || fresh(lines))
      ensures Deletable(lines[..numLines], at[..k - 1]) && LegalRun(Buf(), next, DeleteEdits(at[..k - 1]))
      ensures Run(Buf(), next, DeleteEdits(at[..k - 1])) == old(Run(Buf(), next, DeleteEdits(at[..k])))
      ensures dirty && currentLine == if index < numLines then index else numLines - 1
    {
      LastDeletion(Buf(), next, at, k);
      var _ := DeleteRange(index, index);
    }

    method CollectIndices(start: nat, end: nat, isGlobal: bool, matches: string -> bool) returns (idxs: array<nat>, n: nat)
      requires Valid() && start <= end < numLines
      ensures fresh(idxs) && n <= idxs.Length
      ensures idxs[..n] == Selected(lines[..numLines], start, end + 1, (line: Line) => isGlobal == matches(line.text))
    {
      ghost var s, hit := lines[..numLines], (line: Line) => isGlobal == matches(line.text);
      idxs := new nat[end - start + 1];
      n := 0;
      for i := start to end + 1
        invariant n <= i - start
        invariant idxs[..n] == Selected(s, start, i, hit)
      {
        var matched := matches(lines[i].text);
        if (isGlobal && matched) || (!isGlobal && !matched) {
          idxs[n] := i;
          n := n + 1;
        }
      }
    }
  }

  /** Lines that are new to a run that starts later are new to one that starts earlier, with the same outcome. */
  lemma {:induction false} RunFromEarlier(b: Buffer, earlier: nat, later: nat, edits: seq<Edit>)
    requires earlier <= later && LegalRun(b, later, edits)
    ensures LegalRun(b, earlier, edits) && Run(b, earlier, edits) == Run(b, later, edits)
    decreases |edits|
  {
    if edits != [] {
      RunFromEarlier(Step(b, edits[0]), NextAfter(earlier, edits[0]), NextAfter(later, edits[0]), edits[1..]);
    }
  }

  /** Commands one after the other make one run: what is proved of runs holds of any session of the editor. */
  lemma SessionIsRun(b: Buffer, next: nat, e: Edit, between: Buffer, later: nat, edits: seq<Edit>)
    requires Performs(b, next, e, between) && NextAfter(next, e) <= later && LegalRun(between, later, edits)
    ensures LegalRun(b, next, [e] + edits) && Run(b, next, [e] + edits) == Run(between, later, edits)
  {
    RunFromEarlier(between, NextAfter(next, e), later, edits);
    assert ([e] + edits)[1..] == edits;
  }

  /** A file read in is one edit exactly when bytes were counted, or no line came in, or no mark had to move. */
  lemma ReadInIsEditExactly(before: Buffer, next: nat, input: seq<Input>, from: nat, e: Edit, after: Buffer)
    requires e.Insert? && e.block == LinesOf(Accepted(input, false), from)
    requires ReadIn(before, next, e, ByteCount(input) > 0, after)
    ensures Performs(before, next, e, after) <==>
              || ByteCount(input) > 0 || Accepted(input, false) == []
              || forall k :: 0 <= k < |before.marks| ==> before.marks[k] < e.at
  {
    var stepped := MarksStep(before.marks, e);
    if stepped == before.marks {
      forall k | 0 <= k < |before.marks| ensures e.block == [] || before.marks[k] < e.at {
        assert stepped[k] == MarkAfterInsert(before.marks[k], e.at, |e.block|);
      }
    }
  }

  /** A mark that stays where it is while lines come in keeps denoting its line exactly when it stands in front of them. */
  lemma UnmovedMark(s: Lines, m: nat, at: nat, block: Lines)
    requires at <= |s| && m < |s| && block != []
    requires DistinctLines(Inserted(s, at, block))
    ensures Follows(s, m, Inserted(s, at, block), m) <==> m < at
  {
    var r, moved := Inserted(s, at, block), MarkAfterInsert(m, at, |block|);
    assert r[moved] == s[m];
    if m >= at {
      NoClash(r, m, moved);
    }
  }

  /** The file that loses marks: a mark on the first line, and a line without bytes read in front of it. */
  lemma NulLineLosesMark()
    ensures var input, s := [Input("", false)], [Line(0, "a")];
      && ByteCount(input) == 0 && Accepted(input, false) == [""]
      && !Follows(s, 0, Inserted(s, 0, LinesOf([""], 1)), 0)
  {
    var s, block := [Line(0, "a")], LinesOf([""], 1);
    assert Accepted([Input("", false)], false) == [""];
    InsertStaysDistinct(s, 0, block);
    UnmovedMark(s, 0, 0, block);
  }

  /** The edits still to do, after the first of them is done. */
  lemma LastDeletion(b: Buffer, next: nat, at: seq<nat>, k: nat)
    requires 0 < k <= |at| && Deletable(b.lines, at[..k]) && LegalRun(b, next, DeleteEdits(at[..k]))
    ensures at[k - 1] < |b.lines|
    ensures var b' := Step(b, Delete(at[k - 1], 1));
      && Deletable(b'.lines, at[..k - 1]) && LegalRun(b', next, DeleteEdits(at[..k - 1]))
      && Run(b', next, DeleteEdits(at[..k - 1])) == Run(b, next, DeleteEdits(at[..k]))
  {
    var now := at[..k];
    assert now[|now| - 1] == at[k - 1] && now[..|now| - 1] == at[..k - 1];
    assert DeleteEdits(now)[0] == Delete(at[k - 1], 1) && DeleteEdits(now)[1..] == DeleteEdits(at[..k - 1]);
  }

  /** Inserting new lines keeps the buffer sound; inserting none is no edit at all. */
  lemma Inserting(b: Buffer, next: nat, at: nat, texts: seq<string>)
    requires SoundLines(b.lines, next) && at <= |b.lines|
    ensures var e := Insert(at, LinesOf(texts, next), next + |texts|);
      && Legal(b, next, e)
      && SoundLines(LinesStep(b.lines, e), e.bound)
      && LinesStep(b.lines, e) == Inserted(b.lines, at, e.block)
      && (texts == [] ==> MarksStep(b.marks, e) == b.marks)
  {
    LinesOfAreNew(texts, next);
    StepKeepsLines(b, next, Insert(at, LinesOf(texts, next), next + |texts|));
  }
}
