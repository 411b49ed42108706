/** Patterns as they are written, and what they mean, apart from how src/lib/bre.c reads them. */
module BreWritten {
  // The parser of BreLanguage gives every written pattern its meaning, and the matcher decides that meaning.

  import opened BreCaptures
  import opened BreLanguage
  import opened BreMatcher

  // ---------------------------------------------------------------- written patterns

  /** An entry of a bracket expression: a character, or a range. */
  datatype Entry = One(c: char) | FromTo(lo: char, hi: char) {
    function Text(): (s: string)
      ensures s != []
    {
      match this
      case One(c) => [c]
      case FromTo(lo, hi) => [lo, '-', hi]
    }

    /** The first end of a range counts on its own, even where the range is empty. */
    predicate Has(x: char) {
      match this
      case One(c) => x == c
      case FromTo(lo, hi) => x == lo || lo <= x <= hi
    }
  }

  /** `Dead` is an unescaped `^`, `$` or `*` where a character is expected. */
  datatype Symbol = Character(c: char) | Dot | Escaped(c: char) | Dead(c: char) | Bracket(negated: bool, entries: seq<Entry>) {
    predicate Takes(x: char) {
      match this
      case Character(c) => x == c
      case Dot => true
      case Escaped(c) => x == c
      case Dead(_) => false
      case Bracket(negated, entries) => negated != exists k :: 0 <= k < |entries| && entries[k].Has(x)
    }
  }

  datatype Count = Once | Star | Plus | Times(t: IntervalText) {
    predicate Allows(n: nat) {
      match this
      case Once => n == 1
      case Star => true
      case Plus => n >= 1
      case Times(Exactly(low)) => AllDigits(low) && n == Decimal(low)
      case Times(AtLeast(low)) => AllDigits(low) && n >= Decimal(low)
      case Times(Between(low, high)) => AllDigits(low) && AllDigits(high) && Decimal(low) <= n <= Decimal(high)
    }

    predicate Endless() { Star? || Plus? || (Times? && t.AtLeast?) }
  }

  datatype Piece = Piece(symbol: Symbol, count: Count)

  /** How a pattern ends: just so, with a `$`, or with something that cannot be read. */
  datatype End = Open | Back | Bad(rest: string)

  /** A pattern: the `^` in front is optional. */
  datatype Pattern = Pattern(front: bool, pieces: seq<Piece>, end: End)

  function EntriesText(entries: seq<Entry>): string {
    if entries == [] then [] else entries[0].Text() + EntriesText(entries[1..])
  }

  function SymbolText(s: Symbol): string {
    match s
    case Character(c) => [c]
    case Dot => "."
    case Escaped(c) => ['\\', c]
    case Dead(c) => [c]
    case Bracket(negated, entries) => "[" + ((if negated then "^" else "") + EntriesText(entries)) + "]"
  }

  function CountText(c: Count): string {
    match c
    case Once => ""
    case Star => "*"
    case Plus => "\\+"
    case Times(t) => t.Written()
  }

  function EndText(end: End): string {
    match end
    case Open => ""
    case Back => "$"
    case Bad(rest) => rest
  }

  function Tail(pieces: seq<Piece>, end: End): string {
    if pieces == [] then EndText(end)
    else SymbolText(pieces[0].symbol) + (CountText(pieces[0].count) + Tail(pieces[1..], end))
  }

  function Text(p: Pattern): string {
    (if p.front then "^" else "") + Tail(p.pieces, p.end)
  }

  // ---------------------------------------------------------------- which texts are unambiguous

  /** A `-` stands for itself in front, at the end and right behind a range. */
  predicate EntriesFit(entries: seq<Entry>, afterOne: bool) {
    entries == [] ||
    (&& ']' !in entries[0].Text()
     && (afterOne && entries[0].Text()[0] == '-' ==> entries == [One('-')])
     && EntriesFit(entries[1..], entries[0].One?))
  }

  predicate SymbolFits(s: Symbol) {
    match s
    case Character(c) => c !in "\\[.*^$"
    case Dot => true
    case Escaped(c) => c !in "(){}"
    case Dead(c) => c in "^$*"
    case Bracket(negated, entries) =>
      EntriesFit(entries, false) && (!negated && entries != [] ==> entries[0].Text()[0] != '^')
  }

  predicate CountFits(c: Count) {
    c.Times? ==> c.t.Valid()
  }

  /** What would be read as a count behind a character. */
  predicate LooksLikeCount(s: Symbol) {
    s == Dead('*') || s == Escaped('+')
  }

  /** An escape or a bracket that nothing closes, and escapes of their own without an opening one. */
  predicate EndFits(end: End, afterOnce: bool) {
    match end
    case Open => true
    case Back => true
    case Bad(rest) =>
      || rest == "\\" || "\\)" <= rest || "\\}" <= rest || ("\\{" <= rest && !afterOnce)
      || ("[" <= rest && ']' !in rest)
  }

  predicate Fits(pieces: seq<Piece>, end: End, afterOnce: bool) {
    if pieces == [] then EndFits(end, afterOnce)
    else
    (&& SymbolFits(pieces[0].symbol) && CountFits(pieces[0].count)
     && (afterOnce ==> !LooksLikeCount(pieces[0].symbol))
     && (pieces[0] == Piece(Dead('$'), Once) ==> |pieces| > 1 || end != Open)
     && Fits(pieces[1..], end, pieces[0].count.Once?))
  }

  predicate Proper(p: Pattern) {
    && Fits(p.pieces, p.end, false)
    && (!p.front && p.pieces != [] ==> p.pieces[0].symbol != Dead('^'))
  }

  // ---------------------------------------------------------------- what they mean

  predicate TakesAll(s: Symbol, text: string, i: int, j: int) {
    0 <= i <= j <= |text| && forall k :: i <= k < j ==> s.Takes(text[k])
  }

  /** `text[i..m)` consists of as many characters as the count allows, all of them taken by the symbol. */
  predicate Repeats(p: Piece, text: string, i: int, m: int) {
    TakesAll(p.symbol, text, i, m) && p.count.Allows(m - i)
  }

  /** `text[i..j)` is what the pieces describe, one behind the other. */
  ghost predicate Means(pieces: seq<Piece>, end: End, text: string, i: int, j: int) {
    if pieces == [] then 0 <= i == j <= |text| && (end.Back? ==> j == |text|)
    else exists m :: Repeats(pieces[0], text, i, m) && Means(pieces[1..], end, text, m, j)
  }

  ghost predicate ShortRuns(s: Symbol, text: string) {
    forall i, j :: TakesAll(s, text, i, j) ==> j - i <= 10000
  }

  /** No piece without an upper bound meets a run of more than 10000 characters. */
  ghost predicate RunsAreShort(pieces: seq<Piece>, text: string) {
    forall k :: 0 <= k < |pieces| && pieces[k].count.Endless() ==> ShortRuns(pieces[k].symbol, text)
  }

  // ---------------------------------------------------------------- what the parser makes of the parts

  function AtomOf(s: Symbol): Atom {
    match s
    case Character(c) => Literal(c)
    case Dot => Any
    case Escaped(c) => Literal(c)
    case Dead(_) => Never
    case Bracket(negated, entries) => Class(negated, BodyRanges(EntriesText(entries)))
  }

  function ItemOf(p: Piece): Item
    requires CountFits(p.count)
  {
    match p.count
    case Once => Item(AtomOf(p.symbol), 1, Finite(1))
    case Star => Item(AtomOf(p.symbol), 0, Unbounded)
    case Plus => Item(AtomOf(p.symbol), 1, Unbounded)
    case Times(t) => Item(AtomOf(p.symbol), Decimal(t.low), t.Upper())
  }

  function RegexOf(pieces: seq<Piece>, end: End): Regex
    requires forall k :: 0 <= k < |pieces| ==> CountFits(pieces[k].count)
  {
    if pieces == [] then if end.Back? then EndOfText else Stop
    else Then(ItemOf(pieces[0]), RegexOf(pieces[1..], end))
  }

  ghost predicate HasEntry(entries: seq<Entry>, x: char) {
    exists k :: 0 <= k < |entries| && entries[k].Has(x)
  }

  lemma HasEntrySplit(entries: seq<Entry>, x: char)
    requires entries != []
    ensures HasEntry(entries, x) <==> entries[0].Has(x) || HasEntry(entries[1..], x)
  {
    if k :| 0 <= k < |entries| && entries[k].Has(x) {
      assert k > 0 ==> entries[1..][k - 1].Has(x);
    }
    if k :| 0 <= k < |entries[1..]| && entries[1..][k].Has(x) {
      assert entries[k + 1].Has(x);
    }
  }

  lemma OwnRange(c: char, x: char)
    ensures InRanges([Range(c, c)], x) <==> x == c
  {
    assert Range(c, c) in [Range(c, c)];
  }

  lemma TwoRanges(lo: char, hi: char, x: char)
    ensures InRanges([Range(lo, lo), Range(lo, hi)], x) <==> x == lo || lo <= x <= hi
  {
    var r := [Range(lo, lo), Range(lo, hi)];
    assert r[0] in r && r[1] in r;
  }

  /** The ranges read from a bracket body accept exactly what its entries have. */
  lemma {:induction false} BodyMeans(entries: seq<Entry>, afterOne: bool, x: char)
    requires EntriesFit(entries, afterOne)
    ensures InRanges(BodyRanges(EntriesText(entries)), x) <==> HasEntry(entries, x)
    decreases |entries|
  {
    if entries != [] {
      var body, rest := EntriesText(entries), EntriesText(entries[1..]);
      BodyMeans(entries[1..], entries[0].One?, x);
      HasEntrySplit(entries, x);
      match entries[0]
      case One(c) =>
        assert body == [c] + rest && body[1..] == rest;
        if rest != [] && rest[0] == '-' {
          assert entries[1].Text()[0] == '-';
          assert entries[1..] == [One('-')] && entries[1..][1..] == [];
          assert |rest| == 1;
        }
        InRangesConcat([Range(c, c)], BodyRanges(rest), x);
        OwnRange(c, x);
      case FromTo(lo, hi) =>
        assert body == [lo, '-', hi] + rest && body[3..] == rest;
        InRangesConcat([Range(lo, lo), Range(lo, hi)], BodyRanges(rest), x);
        TwoRanges(lo, hi, x);
    }
  }

  lemma AtomMeans(s: Symbol, x: char)
    requires SymbolFits(s)
    ensures Accepts(AtomOf(s), x) <==> s.Takes(x)
  {
    if s.Bracket? {
      BodyMeans(s.entries, false, x);
    }
  }

  lemma {:induction false} NoBracketInside(entries: seq<Entry>, afterOne: bool)
    requires EntriesFit(entries, afterOne)
    ensures ']' !in EntriesText(entries)
    decreases |entries|
  {
    if entries != [] {
      NoBracketInside(entries[1..], entries[0].One?);
    }
  }

  lemma {:induction false} CloseAt(pat: string, i: nat, close: nat)
    requires i <= close < |pat| && ']' !in pat[i..close] && pat[close] == ']'
    ensures CloseBracket(pat, i, |pat|) == close + 1
    decreases close - i
  {
    if i < close {
      assert pat[i] == pat[i..close][0] && pat[i + 1..close] == pat[i..close][1..];
      CloseAt(pat, i + 1, close);
    }
  }

  lemma BracketLayout(negated: bool, entries: seq<Entry>)
    ensures var w, body, start := SymbolText(Bracket(negated, entries)), EntriesText(entries), if negated then 2 else 1;
      |w| == start + |body| + 1 && w[0] == '[' && (negated ==> w[1] == '^') && w[start..start + |body|] == body && w[|w| - 1] == ']'
  {
  }

  /** The text of a bracket expression, wherever it stands. */
  lemma BracketReads(pat: string, pi: nat, negated: bool, entries: seq<Entry>)
    requires SymbolFits(Bracket(negated, entries)) && pi + |SymbolText(Bracket(negated, entries))| <= |pat|
    requires pat[pi..pi + |SymbolText(Bracket(negated, entries))|] == SymbolText(Bracket(negated, entries))
    ensures AtomAt(pat, pi, |pat|) ==
              BreLanguage.AtomText(Class(negated, BodyRanges(EntriesText(entries))), pi + |SymbolText(Bracket(negated, entries))|)
  {
    hide EntriesFit, BodyRanges, SymbolText, CloseBracket, EntriesText;
    var w, body, n := SymbolText(Bracket(negated, entries)), EntriesText(entries), if negated then 2 else 1;
    var start := pi + n;
    BracketLayout(negated, entries);
    NoBracketInside(entries, false);
    SlicesOfSlice(pat, pi, w, n, |body|);
    FirstOfEntries(entries);
    assert BodyStart(pat, pi, |pat|) == start;
    CloseAt(pat, start, start + |body|);
  }

  lemma FirstOfEntries(entries: seq<Entry>)
    ensures entries == [] <==> EntriesText(entries) == []
    ensures entries != [] ==> EntriesText(entries)[0] == entries[0].Text()[0]
  {
  }

  lemma SlicesOfSlice(pat: string, pi: nat, w: string, n: nat, length: nat)
    requires pi + |w| <= |pat| && pat[pi..pi + |w|] == w && n + length <= |w|
    ensures pat[pi + n..pi + n + length] == w[n..n + length]
    ensures forall k {:trigger w[k]} :: 0 <= k < |w| ==> pat[pi + k] == w[k]
  {
    var slice := pat[pi..pi + |w|];
    assert forall k {:trigger w[k]} :: 0 <= k < |w| ==> pat[pi + k] == slice[k];
  }

  lemma SymbolReads(pat: string, pi: nat, s: Symbol, rest: string)
    requires pi <= |pat| && SymbolFits(s) && pat[pi..] == SymbolText(s) + rest
    ensures pi < |pat| && !GroupAt(pat, pi, |pat|)
    ensures AtomAt(pat, pi, |pat|) == BreLanguage.AtomText(AtomOf(s), pi + |SymbolText(s)|)
  {
    hide EntriesText, EntriesFit, ClassEnd, ClassAt, BodyRanges;
    assert pat[pi] == pat[pi..][0] == SymbolText(s)[0];
    match s
    case Bracket(negated, entries) =>
      assert pat[pi..pi + |SymbolText(s)|] == pat[pi..][..|SymbolText(s)|] == SymbolText(s);
      BracketReads(pat, pi, negated, entries);
    case Escaped(c) => assert pat[pi + 1] == pat[pi..][1] == c;
    case _ =>
  }

  /** What does not start with a star, `\+` or `\{` is no count. */
  lemma NoCount(pat: string, at: nat)
    requires at <= |pat|
    requires at < |pat| ==> pat[at] != '*' && !EscapeAt(pat, at, |pat|, '+') && !EscapeAt(pat, at, |pat|, '{')
    ensures QuantifierAt(pat, at, |pat|) == NoQuantifier
  {
  }

  lemma EndIsNoCount(pat: string, at: nat, end: End)
    requires at <= |pat| && EndFits(end, true) && pat[at..] == EndText(end)
    ensures at < |pat| ==> pat[at] != '*' && !EscapeAt(pat, at, |pat|, '+') && !EscapeAt(pat, at, |pat|, '{')
  {
    if at < |pat| {
      assert pat[at] == pat[at..][0];
      assert at + 1 < |pat| ==> pat[at + 1] == pat[at..][1];
    }
  }

  lemma TailIsNoCount(pat: string, at: nat, pieces: seq<Piece>, end: End)
    requires at <= |pat| && Fits(pieces, end, true) && pat[at..] == Tail(pieces, end)
    ensures QuantifierAt(pat, at, |pat|) == NoQuantifier
  {
    hide QuantifierAt, EndFits, EntriesText, EntriesFit, CountText;
    if pieces == [] {
      EndIsNoCount(pat, at, end);
    } else {
      var s := pieces[0].symbol;
      assert forall k :: 0 <= k < |SymbolText(s)| ==> pat[at + k] == pat[at..][k] == SymbolText(s)[k];
      assert SymbolText(s)[0] == '\\' ==> s.Escaped?;
    }
    NoCount(pat, at);
  }

  lemma IntervalReads(pat: string, at: nat, t: IntervalText, rest: string)
    requires at <= |pat| && t.Valid() && pat[at..] == t.Written() + rest
    ensures QuantifierAt(pat, at, |pat|) == Quantifier(Decimal(t.low), t.Upper(), at + |t.Written()|)
  {
    var w := t.Written();
    WrittenLayout(t);
    assert pat[at..at + |w|] == w;
    assert pat[at] == w[0] && pat[at + 1] == w[1];
    IntervalReadsWritten(pat, at, |pat|, t);
    hide Interval, IntervalText.Written;
  }

  /** A count reads as its item says. */
  lemma CountReads(pat: string, at: nat, p: Piece, rest: string)
    requires at <= |pat| && CountFits(p.count) && !p.count.Once? && pat[at..] == CountText(p.count) + rest
    ensures QuantifierAt(pat, at, |pat|) == Quantifier(ItemOf(p).least, ItemOf(p).bound, at + |CountText(p.count)|)
  {
    match p.count
    case Times(t) => IntervalReads(pat, at, t, rest);
    case Star => assert pat[at] == pat[at..][0];
    case Plus => assert pat[at] == pat[at..][0] && pat[at + 1] == pat[at..][1];
  }

  // ---------------------------------------------------------------- whole patterns

  lemma {:induction false} CountsFit(pieces: seq<Piece>, end: End, afterOnce: bool)
    requires Fits(pieces, end, afterOnce)
    ensures forall k :: 0 <= k < |pieces| ==> CountFits(pieces[k].count)
    decreases |pieces|
  {
    if pieces != [] {
      CountsFit(pieces[1..], end, pieces[0].count.Once?);
      forall k | 0 <= k < |pieces| ensures CountFits(pieces[k].count) {
        assert k > 0 ==> pieces[k] == pieces[1..][k - 1];
      }
    }
  }

  lemma TailIsNotEmpty(pieces: seq<Piece>, end: End)
    requires pieces != [] || (end != Open && EndFits(end, true))
    ensures Tail(pieces, end) != []
  {
  }

  function SyntaxOf(pieces: seq<Piece>, end: End): Syntax
    requires forall k :: 0 <= k < |pieces| ==> CountFits(pieces[k].count)
  {
    if end.Bad? then Malformed(RegexOf(pieces, end)) else WellFormed(RegexOf(pieces, end))
  }

  lemma EndReads(pat: string, pi: nat, end: End, afterOnce: bool)
    requires pi <= |pat| && EndFits(end, afterOnce) && pat[pi..] == EndText(end)
    ensures Parse(pat, pi, |pat|) == SyntaxOf([], end)
  {
    assert pi < |pat| ==> pat[pi] == pat[pi..][0];
    assert pi + 1 < |pat| ==> pat[pi + 1] == pat[pi..][1];
  }

  /** The parser reads every piece for what it is. */
  lemma {:induction false} TailReads(pat: string, pi: nat, pieces: seq<Piece>, end: End, afterOnce: bool)
    requires pi <= |pat| && Fits(pieces, end, afterOnce) && pat[pi..] == Tail(pieces, end)
    requires forall k :: 0 <= k < |pieces| ==> CountFits(pieces[k].count)
    ensures Parse(pat, pi, |pat|) == SyntaxOf(pieces, end)
    decreases |pieces|
  {
    hide QuantifierAt, AtomAt, AtomOf, GroupAt, SymbolText, SymbolFits, CountFits, IntervalText.Written;
    if pieces == [] {
      EndReads(pat, pi, end, afterOnce);
    } else {
      var p, rest := pieces[0], Tail(pieces[1..], end);
      var after := pi + |SymbolText(p.symbol)|;
      var next := after + |CountText(p.count)|;
      SymbolReads(pat, pi, p.symbol, CountText(p.count) + rest);
      assert pat[after..] == pat[pi..][|SymbolText(p.symbol)|..] == CountText(p.count) + rest;
      assert pat[next..] == pat[after..][|CountText(p.count)|..] == rest;
      NotOnlyDollar(pieces, end, afterOnce);
      OnlyDollar(pat, pi);
      if p.count.Once? {
        TailIsNoCount(pat, after, pieces[1..], end);
      } else {
        CountReads(pat, after, p, rest);
      }
      TailReads(pat, next, pieces[1..], end, p.count.Once?);
    }
  }

  lemma CountIsNotEmpty(c: Count)
    requires !c.Once?
    ensures CountText(c) != []
  {
  }

  lemma NotOnlyDollar(pieces: seq<Piece>, end: End, afterOnce: bool)
    requires Fits(pieces, end, afterOnce) && pieces != []
    ensures Tail(pieces, end) != "$"
  {
    var p := pieces[0];
    if p.symbol == Dead('$') {
      if p.count.Once? {
        TailIsNotEmpty(pieces[1..], end);
      } else {
        CountIsNotEmpty(p.count);
      }
    } else {
      assert Tail(pieces, end)[0] == SymbolText(p.symbol)[0] != '$';
    }
  }

  lemma OnlyDollar(pat: string, pi: nat)
    requires pi <= |pat|
    ensures pi < |pat| && pat[pi] == '$' && pi + 1 == |pat| ==> pat[pi..] == "$"
  {
  }

  /** The pattern is read as the pieces it was written from. */
  lemma PatternReads(p: Pattern)
    requires Proper(p)
    ensures forall k :: 0 <= k < |p.pieces| ==> CountFits(p.pieces[k].count)
    ensures PatternSyntax(Text(p)) == SyntaxOf(p.pieces, p.end) && Anchored(Text(p)) == p.front
  {
    var pat := Text(p);
    CountsFit(p.pieces, p.end, false);
    if p.front {
      assert pat[1..] == Tail(p.pieces, p.end);
      TailReads(pat, 1, p.pieces, p.end, false);
    } else {
      assert pat == Tail(p.pieces, p.end) && pat[0..] == pat;
      if p.pieces != [] {
        assert pat[0] == SymbolText(p.pieces[0].symbol)[0];
      }
      TailReads(pat, 0, p.pieces, p.end, false);
    }
  }

  /** The language of the pieces is what they mean. */
  lemma {:induction false} RegexMeans(pieces: seq<Piece>, end: End, afterOnce: bool, text: string, i: int, j: int)
    requires Fits(pieces, end, afterOnce) && forall k :: 0 <= k < |pieces| ==> CountFits(pieces[k].count)
    ensures Derives(RegexOf(pieces, end), text, i, j) <==> Means(pieces, end, text, i, j)
    decreases |pieces|
  {
    if pieces != [] {
      var p := pieces[0];
      var item, rest := ItemOf(p), RegexOf(pieces[1..], end);
      forall m ensures Span(item.atom, text, i, m) && item.Admits(m - i) && Derives(rest, text, m, j)
                  <==> Repeats(p, text, i, m) && Means(pieces[1..], end, text, m, j)
      {
        SpanTakes(p.symbol, text, i, m);
        RegexMeans(pieces[1..], end, p.count.Once?, text, m, j);
      }
    }
  }

  /** A written pattern denotes what it means: the parser's language is the meaning of its pieces. */
  lemma WrittenMeans(p: Pattern, text: string, i: int, j: int)
    requires Proper(p)
    ensures (if p.end.Bad? then PatternSyntax(Text(p)).Malformed? else PatternSyntax(Text(p)).WellFormed?)
    ensures Anchored(Text(p)) == p.front
    ensures Derives(PatternSyntax(Text(p)).re, text, i, j) <==> Means(p.pieces, p.end, text, i, j)
  {
    PatternReads(p);
    RegexMeans(p.pieces, p.end, false, text, i, j);
  }

  lemma SpanTakes(s: Symbol, text: string, i: int, j: int)
    requires SymbolFits(s)
    ensures Span(AtomOf(s), text, i, j) <==> TakesAll(s, text, i, j)
  {
    forall k | 0 <= k < |text| ensures Accepts(AtomOf(s), text[k]) <==> s.Takes(text[k]) {
      AtomMeans(s, text[k]);
    }
  }

  lemma {:induction false} ShortRunsFit(pieces: seq<Piece>, end: End, afterOnce: bool, text: string)
    requires Fits(pieces, end, afterOnce) && forall k :: 0 <= k < |pieces| ==> CountFits(pieces[k].count)
    requires RunsAreShort(pieces, text)
    ensures RunsFitCap(RegexOf(pieces, end), text)
    decreases |pieces|
  {
    hide AtomOf, Accepts, SymbolFits;
    if pieces != [] {
      var p := pieces[0];
      forall i, j | Span(AtomOf(p.symbol), text, i, j) ensures TakesAll(p.symbol, text, i, j) {
        SpanTakes(p.symbol, text, i, j);
      }
      ShortRunsFit(pieces[1..], end, p.count.Once?, text);
    }
  }

  // ---------------------------------------------------------------- what the matcher reports

  /** A match may start at `s`. */
  predicate MayStart(p: Pattern, text: string, s: int) {
    0 <= s <= |text| && (p.front ==> s == 0)
  }

  /** `start` is the leftmost place at which the pattern means something, and `length` the longest length there. */
  ghost predicate IsBest(p: Pattern, text: string, start: int, length: int) {
    && MayStart(p, text, start) && Means(p.pieces, p.end, text, start, start + length)
    && (forall j :: Means(p.pieces, p.end, text, start, j) ==> j <= start + length)
    && forall s, j :: MayStart(p, text, s) && s < start ==> !Means(p.pieces, p.end, text, s, j)
  }

  ghost predicate MeansNothing(p: Pattern, text: string) {
    forall s, j :: MayStart(p, text, s) ==> !Means(p.pieces, p.end, text, s, j)
  }

  lemma BestOf(p: Pattern, text: string)
    requires Proper(p)
    ensures !PatternSyntax(Text(p)).Grouped?
    ensures var re := PatternSyntax(Text(p)).re;
      && (forall s, n :: LeftmostLongest(Text(p), re, text, s, n) ==> IsBest(p, text, s, n) && !MeansNothing(p, text))
      && (NoMatchAnywhere(Text(p), re, text) <==> MeansNothing(p, text))
  {
    PatternReads(p);
    var re := PatternSyntax(Text(p)).re;
    forall i, j ensures Derives(re, text, i, j) <==> Means(p.pieces, p.end, text, i, j) {
      WrittenMeans(p, text, i, j);
    }
    assert forall s :: MayStart(p, text, s) <==> StartAllowed(Text(p), text, s);
    forall s, n | LeftmostLongest(Text(p), re, text, s, n) ensures IsBest(p, text, s, n) && !MeansNothing(p, text) {
      assert MayStart(p, text, s) && Means(p.pieces, p.end, text, s, s + n);
      forall s', j | MayStart(p, text, s') && s' < s ensures !Means(p.pieces, p.end, text, s', j) {
        assert StartAllowed(Text(p), text, s') && !Derives(re, text, s', j);
      }
    }
    if NoMatchAnywhere(Text(p), re, text) {
      forall s, j | MayStart(p, text, s) ensures !Means(p.pieces, p.end, text, s, j) {
        assert StartAllowed(Text(p), text, s) && !Derives(re, text, s, j);
      }
    }
    if MeansNothing(p, text) {
      forall s, j | StartAllowed(Text(p), text, s) ensures !Derives(re, text, s, j) {
        assert MayStart(p, text, s) && !Means(p.pieces, p.end, text, s, j);
      }
    }
  }

  lemma RunsFit(p: Pattern, text: string)
    requires Proper(p) && RunsAreShort(p.pieces, text)
    ensures !PatternSyntax(Text(p)).Grouped? && RunsFitCap(PatternSyntax(Text(p)).re, text)
  {
    PatternReads(p);
    ShortRunsFit(p.pieces, p.end, false, text);
  }

  /**
   Matching a written pattern reports the leftmost start and the longest length of what it means; one
   that cannot be read to its end is an error exactly where what can be read of it means something.
   */
  method MatchWritten(text: string, p: Pattern, m: BreMatch) returns (r: BreResult)
    requires '\0' !in text && Proper(p) && m.Valid() && RunsAreShort(p.pieces, text)
    modifies m, m.groups
    ensures !p.end.Bad? ==> (r == BRE_OK || r == BRE_NOMATCH) && (r == BRE_OK ==> IsBest(p, text, m.start, m.length))
    ensures p.end.Bad? ==> r == BRE_ERROR || r == BRE_NOMATCH
    ensures r == BRE_NOMATCH <==> MeansNothing(p, text)
  {
    hide Fits, Text, RegexOf, LeftmostLongest, NoMatchAnywhere, IsBest, MeansNothing, RunsFitCap;
    PatternReads(p);
    RunsFit(p, text);
    BestOf(p, text);
    r := BreMatchPattern(text, Text(p), m);
  }
}
