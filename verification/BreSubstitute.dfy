/** `bre_substitute`: measure the replacement, allocate, then write it. */
module BreSubstitute {
  import opened BreCaptures
  import opened BreLanguage
  import opened BreMatcher

  /** `\1` to `\9` at position `i` of the replacement. */
  predicate ReferenceAt(replacement: string, i: nat) {
    i + 1 < |replacement| && replacement[i] == '\\' && '1' <= replacement[i + 1] <= '9'
  }

  function ReferenceIndex(replacement: string, i: nat): (g: nat)
    requires ReferenceAt(replacement, i)
    ensures g < BRE_MAX_GROUPS
  {
    replacement[i + 1] as int - '1' as int
  }

  ghost predicate AllWithin(groups: seq<Capture>, text: string) {
    forall k :: 0 <= k < |groups| ==> groups[k].Within(|text|)
  }

  /** The text a reference stands for: its capture, or nothing when the group is not recorded. */
  function Captured(groups: seq<Capture>, text: string, g: nat): string
    requires AllWithin(groups, text)
  {
    if g < |groups| then text[groups[g].start..groups[g].start + groups[g].length] else []
  }

  /** What stands at position `i` of the replacement, and where the next piece begins. */
  function PieceAt(replacement: string, i: nat, groups: seq<Capture>, text: string): string
    requires AllWithin(groups, text) && i < |replacement|
  {
    if ReferenceAt(replacement, i) then Captured(groups, text, ReferenceIndex(replacement, i)) else [replacement[i]]
  }

  function NextPiece(replacement: string, i: nat): (next: nat)
    requires i < |replacement|
    ensures i < next <= |replacement|
  {
    if ReferenceAt(replacement, i) then i + 2 else i + 1
  }

  /** What the replacement stands for from position `i` on. */
  function Expand(replacement: string, i: nat, groups: seq<Capture>, text: string): string
    requires AllWithin(groups, text)
    decreases |replacement| - i
  {
    if i >= |replacement| then []
    else PieceAt(replacement, i, groups, text) + Expand(replacement, NextPiece(replacement, i), groups, text)
  }

  /** A replacement without a backslash stands for itself, whatever was captured. */
  lemma {:induction false} PlainReplacement(replacement: string, i: nat, groups: seq<Capture>, text: string)
    requires AllWithin(groups, text) && i <= |replacement| && '\\' !in replacement
    ensures Expand(replacement, i, groups, text) == replacement[i..]
    decreases |replacement| - i
  {
    if i < |replacement| {
      PlainReplacement(replacement, i + 1, groups, text);
    }
  }

  /** A replacement that is one reference stands for exactly the captured slice. */
  lemma SingleReference(c: char, groups: seq<Capture>, text: string)
    requires AllWithin(groups, text) && '1' <= c <= '9'
    ensures Expand(['\\', c], 0, groups, text) == Captured(groups, text, c as int - '1' as int)
  {
    assert Expand(['\\', c], 2, groups, text) == [];
  }

  // ---------------------------------------------------------------- replacements as they are written

  /** A character that stands for itself, or a backslash with a digit from 1 to 9. */
  datatype Part = Letter(c: char) | Reference(digit: char)

  function PartText(p: Part): string {
    match p
    case Letter(c) => [c]
    case Reference(digit) => ['\\', digit]
  }

  function ReplacementText(parts: seq<Part>): string {
    if parts == [] then [] else PartText(parts[0]) + ReplacementText(parts[1..])
  }

  /** A backslash stands for itself only where no digit from 1 to 9 comes next. */
  predicate PartsFit(parts: seq<Part>) {
    parts == [] ||
    (&& PartFits(parts[0]) && PartsFit(parts[1..])
     && (parts[0] == Letter('\\') && |parts| > 1 && parts[1].Letter? ==> !('1' <= parts[1].c <= '9')))
  }

  predicate PartFits(p: Part) {
    p.Reference? ==> '1' <= p.digit <= '9'
  }

  /** What a part means: itself, or the text of the group counted from 1, if there is one. */
  function PartMeans(p: Part, groups: seq<Capture>, text: string): string
    requires AllWithin(groups, text) && PartFits(p)
  {
    match p
    case Letter(c) => [c]
    case Reference(digit) =>
      var g := digit as int - 49;
      if g < |groups| then text[groups[g].start..][..groups[g].length] else []
  }

  function PartsMean(parts: seq<Part>, groups: seq<Capture>, text: string): string
    requires AllWithin(groups, text) && PartsFit(parts)
  {
    if parts == [] then [] else PartMeans(parts[0], groups, text) + PartsMean(parts[1..], groups, text)
  }

  lemma FirstPart(parts: seq<Part>)
    requires parts != [] && PartsFit(parts)
    ensures var r := ReplacementText(parts);
      && r == PartText(parts[0]) + ReplacementText(parts[1..])
      && (ReferenceAt(r, 0) <==> parts[0].Reference?) && PartFits(parts[0])
  {
    var rest := ReplacementText(parts[1..]);
    if |parts| > 1 {
      assert rest[0] == if parts[1].Letter? then parts[1].c else '\\';
    }
  }

  lemma PieceBehind(front: string, rest: string, i: nat, groups: seq<Capture>, text: string)
    requires AllWithin(groups, text) && i < |rest|
    ensures PieceAt(front + rest, |front| + i, groups, text) == PieceAt(rest, i, groups, text)
    ensures NextPiece(front + rest, |front| + i) == |front| + NextPiece(rest, i)
  {
    hide Captured;
    assert i + 1 < |rest| ==> (front + rest)[|front| + i + 1] == rest[i + 1];
  }

  lemma {:induction false} ExpandBehind(front: string, rest: string, i: nat, groups: seq<Capture>, text: string)
    requires AllWithin(groups, text) && i <= |rest|
    ensures Expand(front + rest, |front| + i, groups, text) == Expand(rest, i, groups, text)
    decreases |rest| - i
  {
    hide PieceAt, NextPiece;
    if i < |rest| {
      PieceBehind(front, rest, i, groups, text);
      ExpandBehind(front, rest, NextPiece(rest, i), groups, text);
    }
  }

  /** A replacement stands for what its parts mean. */
  lemma {:induction false} ReplacementMeans(parts: seq<Part>, groups: seq<Capture>, text: string)
    requires AllWithin(groups, text) && PartsFit(parts)
    ensures Expand(ReplacementText(parts), 0, groups, text) == PartsMean(parts, groups, text)
    decreases |parts|
  {
    if parts != [] {
      hide Expand, PartText, PartMeans, PartFits;
      ExpandFirst(parts, groups, text);
      ReplacementMeans(parts[1..], groups, text);
    } else {
      assert Expand([], 0, groups, text) == [];
    }
  }

  /** The first part, and the rest as a replacement of its own. */
  lemma ExpandFirst(parts: seq<Part>, groups: seq<Capture>, text: string)
    requires AllWithin(groups, text) && parts != [] && PartsFit(parts)
    ensures Expand(ReplacementText(parts), 0, groups, text)
         == PartMeans(parts[0], groups, text) + Expand(ReplacementText(parts[1..]), 0, groups, text)
  {
    hide Captured, PartsFit, ReplacementText;
    var front, rest := PartText(parts[0]), ReplacementText(parts[1..]);
    FirstPart(parts);
    ExpandBehind(front, rest, 0, groups, text);
    PieceIsPart(parts[0], rest, groups, text);
  }

  lemma PieceIsPart(p: Part, rest: string, groups: seq<Capture>, text: string)
    requires AllWithin(groups, text) && PartFits(p) && (ReferenceAt(PartText(p) + rest, 0) <==> p.Reference?)
    ensures var r := PartText(p) + rest;
      PieceAt(r, 0, groups, text) == PartMeans(p, groups, text) && NextPiece(r, 0) == |PartText(p)|
  {
  }

  /** Every string is the text of such parts, so the meaning is that of every replacement. */
  lemma {:induction false} EveryReplacementHasParts(replacement: string) returns (parts: seq<Part>)
    ensures PartsFit(parts) && ReplacementText(parts) == replacement
    decreases |replacement|
  {
    if replacement == [] {
      parts := [];
    } else if ReferenceAt(replacement, 0) {
      var rest := EveryReplacementHasParts(replacement[2..]);
      parts := [Reference(replacement[1])] + rest;
    } else {
      var rest := EveryReplacementHasParts(replacement[1..]);
      parts := [Letter(replacement[0])] + rest;
      if rest != [] && rest[0].Letter? {
        assert replacement[1] == rest[0].c;
      }
    }
  }

  /** The first pass: how long the expanded replacement is. */
  method MeasureReplacement(text: string, replacement: string, groups: seq<Capture>) returns (repLen: nat)
    requires AllWithin(groups, text)
    ensures repLen == |Expand(replacement, 0, groups, text)|
  {
    repLen := 0;
    var i := 0;
    while i < |replacement|
      invariant i <= |replacement|
      invariant repLen + |Expand(replacement, i, groups, text)| == |Expand(replacement, 0, groups, text)|
    {
      if ReferenceAt(replacement, i) {
        var g := ReferenceIndex(replacement, i);
        if g < |groups| && groups[g].start >= 0 {
          repLen := repLen + groups[g].length;
        }
        i := i + 2;
      } else {
        repLen := repLen + 1;
        i := i + 1;
      }
    }
  }

  /** `memcpy` of `src` into `out` at `p`. */
  method Copy(out: array<char>, p: nat, src: string)
    requires p + |src| <= out.Length
    modifies out
    ensures out[..p + |src|] == old(out[..p]) + src
  {
    forall k | 0 <= k < |src| {
      out[p + k] := src[k];
    }
  }

  /** Write what stands at position `i` of the replacement, and step over it. */
  method WritePiece(out: array<char>, p: nat, i: nat, text: string, replacement: string, groups: seq<Capture>)
      returns (q: nat, next: nat)
    requires AllWithin(groups, text) && i < |replacement|
    requires p + |PieceAt(replacement, i, groups, text)| <= out.Length
    modifies out
    ensures next == NextPiece(replacement, i) && q == p + |PieceAt(replacement, i, groups, text)|
    ensures out[..q] == old(out[..p]) + PieceAt(replacement, i, groups, text)
  {
    var piece: string := [];
    if ReferenceAt(replacement, i) {
      var g := ReferenceIndex(replacement, i);
      if g < |groups| && groups[g].start >= 0 {
        piece := text[groups[g].start..groups[g].start + groups[g].length];
      }
      next := i + 2;
    } else {
      piece := [replacement[i]];
      next := i + 1;
    }
    Copy(out, p, piece);
    q := p + |piece|;
  }

  /** The second pass: write the expanded replacement behind what `out` already holds. */
  method WriteReplacement(out: array<char>, start: nat, text: string, replacement: string, groups: seq<Capture>)
      returns (p: nat)
    requires AllWithin(groups, text)
    requires start + |Expand(replacement, 0, groups, text)| <= out.Length
    modifies out
    ensures p == start + |Expand(replacement, 0, groups, text)|
    ensures out[..p] == old(out[..start]) + Expand(replacement, 0, groups, text)
  {
    p := start;
    var i := 0;
    while i < |replacement|
      invariant i <= |replacement| && p <= out.Length
      invariant p + |Expand(replacement, i, groups, text)| == start + |Expand(replacement, 0, groups, text)|
      invariant out[..p] + Expand(replacement, i, groups, text) == old(out[..start]) + Expand(replacement, 0, groups, text)
    {
      Regroup(out[..p], PieceAt(replacement, i, groups, text), Expand(replacement, NextPiece(replacement, i), groups, text));
      p, i := WritePiece(out, p, i, text, replacement, groups);
    }
    Regroup(out[..p], [], []);
  }

  lemma Regroup(a: string, b: string, c: string)
    ensures a + (b + c) == (a + b) + c
    ensures a + [] == a
  {
  }

  /** The text with the slice `[start..start + length)` replaced, and the terminating NUL. */
  function Substituted(text: string, start: nat, length: nat, expanded: string): string
    requires start + length <= |text|
  {
    text[..start] + expanded + text[start + length..] + "\0"
  }

  /** Measure, allocate and write the text with the slice `[start..start + length)` replaced. */
  method Splice(text: string, start: nat, length: nat, replacement: string, groups: seq<Capture>) returns (out: array<char>)
    requires start + length <= |text| && AllWithin(groups, text)
    ensures fresh(out)
    ensures out[..] == Substituted(text, start, length, Expand(replacement, 0, groups, text))
  {
    var suffixLen := |text| - start - length;
    var repLen := MeasureReplacement(text, replacement, groups);
    var outLen := start + repLen + suffixLen;
    out := new char[outLen + 1];
    assert out[..0] == [] && [] + text[..start] == text[..start];
    Copy(out, 0, text[..start]);
    var p := WriteReplacement(out, start, text, replacement, groups);
    Finish(out, p, text[start + length..]);
  }

  /** The unchanged suffix and the terminating NUL fill the buffer exactly. */
  method Finish(out: array<char>, p: nat, suffix: string)
    requires p + |suffix| + 1 == out.Length
    modifies out
    ensures out[..] == old(out[..p]) + suffix + "\0"
  {
    Copy(out, p, suffix);
    Copy(out, p + |suffix|, "\0");
    assert out[..out.Length] == out[..];
  }

  /**
   NULL on a pattern error, a copy of the text when nothing matches, and otherwise the text
   with the match that `BreMatchPattern` reports replaced.
   */
  method Substitute(text: string, pattern: string, replacement: string, m: BreMatch) returns (out: array?<char>)
    requires '\0' !in text && (PatternSyntax(pattern).Grouped? ==> NoQuantifiedGroup(pattern))
    requires m.Valid()
    modifies m, m.groups
    ensures out != null ==> fresh(out)
    ensures PatternSyntax(pattern).WellFormed? ==> out != null
    ensures var s := PatternSyntax(pattern); s.Malformed? ==> (out == null <==> !NoMatchAnywhere(pattern, Capped(s.re), text))
    ensures out != null ==>
              || (m.start == -1 && out[..] == text + "\0")
              || (&& StartAllowed(pattern, text, m.start) && 0 <= m.length && m.start + m.length <= |text|
                  && m.Valid() && AllWithin(m.groups[..m.numGroups], text)
                  && out[..] == Substituted(text, m.start, m.length, Expand(replacement, 0, m.groups[..m.numGroups], text)))
    ensures var s := PatternSyntax(pattern);
            s.WellFormed? && RunsFitCap(s.re, text) ==>
              || (NoMatchAnywhere(pattern, s.re, text) && out[..] == text + "\0")
              || (&& LeftmostLongest(pattern, s.re, text, m.start, m.length) && 0 <= m.length && m.start + m.length <= |text|
                  && out[..] == Substituted(text, m.start, m.length, Expand(replacement, 0, [], text)))
  {
    var mr := BreMatchPattern(text, pattern, m);
    if mr == BRE_ERROR {
      return null;
    }
    if mr == BRE_NOMATCH || m.start < 0 {
      out := new char[|text| + 1];
      Copy(out, 0, text);
      out[|text|] := '\0';
      assert out[..] == text + "\0";
      return;
    }
    assert PatternSyntax(pattern).WellFormed? ==> m.groups[..m.numGroups] == [];
    out := Splice(text, m.start, m.length, replacement, m.groups[..m.numGroups]);
  }
}
