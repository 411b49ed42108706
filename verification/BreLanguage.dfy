/** The pattern syntax that src/lib/bre.c reads, and the language of a group-free pattern. */
module BreLanguage {
  // A pattern is a linear sequence of single-character atoms with repetition bounds, possibly ending in
  // a `$` anchor (a leading `^` is handled by the caller).  The language is a relation between a pattern
  // and a slice `text[i..j)` of the text; nothing in it mentions greed or backtracking.

  /** The largest repetition bound that may be written in `\{n,m\}`. */
  const RE_DUP_MAX := 255

  /** How many occurrences the matcher tries when a repetition has no upper bound. */
  const REPEAT_CAP := 10000

  // ---------------------------------------------------------------- atoms

  datatype Range = Range(lo: char, hi: char)

  /** `Never` is an unescaped `*`, `^` or `$` where an atom is expected: it matches nothing. */
  datatype Atom = Literal(c: char) | Any | Class(negated: bool, ranges: seq<Range>) | Never

  predicate InRanges(ranges: seq<Range>, c: char) {
    exists r :: r in ranges && r.lo <= c <= r.hi
  }

  predicate Accepts(a: Atom, c: char) {
    match a
    case Literal(l) => c == l
    case Any => true
    case Class(negated, ranges) => negated != InRanges(ranges, c)
    case Never => false
  }

  /** Every character of `text[i..j)` is accepted by `a`. */
  ghost predicate Span(a: Atom, text: string, i: int, j: int) {
    && 0 <= i <= j <= |text|
    && forall k :: i <= k < j ==> Accepts(a, text[k])
  }

  // ---------------------------------------------------------------- patterns

  datatype Bound = Finite(most: nat) | Unbounded

  datatype Item = Item(atom: Atom, least: nat, bound: Bound) {
    predicate Admits(n: int) {
      least <= n && (bound.Finite? ==> n <= bound.most)
    }
  }

  datatype Regex = Stop | EndOfText | Then(item: Item, rest: Regex)

  /** `text[i..j)` is in the language of `re`. */
  ghost predicate Derives(re: Regex, text: string, i: int, j: int) {
    match re
    case Stop => 0 <= i == j <= |text|
    case EndOfText => 0 <= i == j == |text|
    case Then(item, rest) =>
      exists m :: Span(item.atom, text, i, m) && item.Admits(m - i) && Derives(rest, text, m, j)
  }

  /** `text[i..j)` is the longest slice starting at `i` that `re` derives. */
  ghost predicate Longest(re: Regex, text: string, i: int, j: int) {
    Derives(re, text, i, j) && forall k :: Derives(re, text, i, k) ==> k <= j
  }

  /** Repeating `item` from `i` to any point beyond `m` leaves nothing for `rest` to match. */
  ghost predicate TriedBeyond(item: Item, rest: Regex, text: string, i: int, m: int) {
    forall k :: m < k && Span(item.atom, text, i, k) && item.Admits(k - i) ==> DerivesNothingAt(rest, text, k)
  }

  ghost predicate DerivesNothingAt(re: Regex, text: string, i: int) {
    forall j :: !Derives(re, text, i, j)
  }

  /**
   Two crossing derivations can be spliced.  If `re` derives the outer slice
   `text[p..j)` and the inner slice `text[q..e)`, then it also derives `text[q..j)`.
   This is why backing off one occurrence at a time never gives up a longer match.
   */
  lemma {:induction false} CrossingPaths(re: Regex, text: string, p: int, j: int, q: int, e: int)
    requires Derives(re, text, p, j) && Derives(re, text, q, e)
    requires p <= q && e <= j
    ensures Derives(re, text, q, j)
    decreases re
  {
    if re.Then? {
      var item, rest := re.item, re.rest;
      var m1 :| Span(item.atom, text, p, m1) && item.Admits(m1 - p) && Derives(rest, text, m1, j);
      var m2 :| Span(item.atom, text, q, m2) && item.Admits(m2 - q) && Derives(rest, text, m2, e);
      if m1 <= m2 {
        CrossingPaths(rest, text, m1, j, m2, e);
      } else {
        assert Span(item.atom, text, q, m1) && item.Admits(m1 - q);
      }
    }
  }

  /**
   Greedy choice is safe.  Let `m` be the last point up to which the first item of `re`
   can be repeated such that the rest still matches.  The longest match of the rest at
   `m` then ends the longest match of `re`.
   */
  lemma GreedyIsLongest(item: Item, rest: Regex, text: string, i: int, m: int, j: int)
    requires Span(item.atom, text, i, m) && item.Admits(m - i)
    requires Longest(rest, text, m, j)
    requires TriedBeyond(item, rest, text, i, m)
    ensures Longest(Then(item, rest), text, i, j)
  {
    forall k | Derives(Then(item, rest), text, i, k)
      ensures k <= j
    {
      var m' :| Span(item.atom, text, i, m') && item.Admits(m' - i) && Derives(rest, text, m', k);
      assert m' <= m;
      if j < k {
        CrossingPaths(rest, text, m', k, m, j);
      }
    }
  }

  lemma StopDerives(text: string, i: nat)
    requires i <= |text|
    ensures !DerivesNothingAt(Stop, text, i)
  {
    assert Derives(Stop, text, i, i);
  }

  /** An admitted repetition with a match of the rest behind it is a match. */
  lemma DerivesSome(item: Item, rest: Regex, text: string, i: int, m: int)
    requires Span(item.atom, text, i, m) && item.Admits(m - i) && !DerivesNothingAt(rest, text, m)
    ensures !DerivesNothingAt(Then(item, rest), text, i)
  {
    var j :| Derives(rest, text, m, j);
    assert Derives(Then(item, rest), text, i, j);
  }

  /** At the end of the greedy loop there is nothing beyond, but for what the bound excludes. */
  lemma AllTaken(item: Item, rest: Regex, text: string, i: int, m: int)
    requires item.bound.Finite?
    requires forall k :: m < k && Span(item.atom, text, i, k) ==> m - i == item.bound.most
    ensures TriedBeyond(item, rest, text, i, m)
  {
  }

  lemma OneMoreTried(item: Item, rest: Regex, text: string, i: int, m: int)
    requires TriedBeyond(item, rest, text, i, m) && DerivesNothingAt(rest, text, m)
    ensures TriedBeyond(item, rest, text, i, m - 1)
  {
  }

  /** Once every admitted repetition has been tried in vain, nothing starts at `i`. */
  lemma NothingLeft(item: Item, rest: Regex, text: string, i: int, m: int)
    requires TriedBeyond(item, rest, text, i, m) && (m < i || m - i < item.least)
    ensures DerivesNothingAt(Then(item, rest), text, i)
  {
  }

  // ---------------------------------------------------------------- the repetition cap

  function CappedItem(item: Item): Item {
    if item.bound.Unbounded? then item.(bound := Finite(REPEAT_CAP)) else item
  }

  /** The same pattern with every missing upper bound replaced by the matcher's cap. */
  function Capped(re: Regex): Regex {
    match re
    case Then(item, rest) => Then(CappedItem(item), Capped(rest))
    case _ => re
  }

  /** No unbounded item of `re` accepts a run of more than `REPEAT_CAP` characters of `text`. */
  ghost predicate RunsFitCap(re: Regex, text: string) {
    match re
    case Then(item, rest) =>
      && (item.bound.Unbounded? ==> forall i, j :: Span(item.atom, text, i, j) ==> j - i <= REPEAT_CAP)
      && RunsFitCap(rest, text)
    case _ => true
  }

  lemma {:induction false} ShortTextFitsCap(re: Regex, text: string)
    requires |text| <= REPEAT_CAP
    ensures RunsFitCap(re, text)
    decreases re
  {
    if re.Then? {
      ShortTextFitsCap(re.rest, text);
    }
  }

  /** Where runs fit the cap, the cap does not change the language. */
  lemma {:induction false} CapIsInvisible(re: Regex, text: string, i: int, j: int)
    requires RunsFitCap(re, text)
    ensures Derives(re, text, i, j) <==> Derives(Capped(re), text, i, j)
    decreases re
  {
    hide Accepts;
    if re.Then? {
      var item, rest := re.item, re.rest;
      var capped := Capped(re);
      if Derives(re, text, i, j) {
        var m :| Span(item.atom, text, i, m) && item.Admits(m - i) && Derives(rest, text, m, j);
        CapIsInvisible(rest, text, m, j);
        assert Span(capped.item.atom, text, i, m) && capped.item.Admits(m - i) && Derives(capped.rest, text, m, j);
      }
      if Derives(capped, text, i, j) {
        var m :| Span(capped.item.atom, text, i, m) && capped.item.Admits(m - i) && Derives(capped.rest, text, m, j);
        CapIsInvisible(rest, text, m, j);
        assert Span(item.atom, text, i, m) && item.Admits(m - i) && Derives(rest, text, m, j);
      }
    }
  }

  /**
   The cap is visible on longer runs: for a single unbounded atom the capped language is
   the declared one exactly when every run fits the cap.
   */
  lemma CapIsExactForOneStar(a: Atom, text: string)
    ensures var re := Then(Item(a, 0, Unbounded), Stop);
      (forall i, j :: Derives(re, text, i, j) <==> Derives(Capped(re), text, i, j)) <==> RunsFitCap(re, text)
  {
    var re := Then(Item(a, 0, Unbounded), Stop);
    if RunsFitCap(re, text) {
      forall i, j ensures Derives(re, text, i, j) <==> Derives(Capped(re), text, i, j) {
        CapIsInvisible(re, text, i, j);
      }
    } else {
      assert RunsFitCap(Stop, text);
      var i, j :| Span(a, text, i, j) && j - i > REPEAT_CAP;
      assert Derives(Stop, text, j, j);
      assert Derives(re, text, i, j);
      assert !Derives(Capped(re), text, i, j);
    }
  }

  /** Ten thousand and one `a`s: `a*` derives the whole text, the capped matcher cannot. */
  lemma CapCutsLongRun()
    ensures var re, text := Then(Item(Literal('a'), 0, Unbounded), Stop), seq(10001, _ => 'a');
      Longest(re, text, 0, 10001) && Longest(Capped(re), text, 0, 10000)
  {
    var re, text := Then(Item(Literal('a'), 0, Unbounded), Stop), seq(10001, _ => 'a');
    assert Span(Literal('a'), text, 0, |text|) && Derives(Stop, text, |text|, |text|);
    assert Span(Literal('a'), text, 0, REPEAT_CAP) && Derives(Stop, text, REPEAT_CAP, REPEAT_CAP);
    assert Capped(re) == Then(Item(Literal('a'), 0, Finite(REPEAT_CAP)), Stop);
  }

  // ---------------------------------------------------------------- bracket expressions

  /** Index just past the first `]` at or after `i`, or -1. */
  function CloseBracket(pat: string, i: nat, pend: nat): (after: int)
    requires pend <= |pat|
    ensures after == -1 || (i < after <= pend && pat[after - 1] == ']')
    ensures after != -1 ==> ']' !in pat[i..after - 1]
    ensures after == -1 && i <= pend ==> ']' !in pat[i..pend]
    decreases pend - i
  {
    if i >= pend then -1
    else if pat[i] == ']' then i + 1
    else CloseBracket(pat, i + 1, pend)
  }

  function BodyStart(pat: string, pi: nat, pend: nat): (i: nat)
    requires pi < pend <= |pat|
    ensures pi < i <= pi + 2
  {
    if pi + 1 < pend && pat[pi + 1] == '^' then pi + 2 else pi + 1
  }

  /** Index just past the bracket expression that opens at `pi`, or -1. */
  function ClassEnd(pat: string, pi: nat, pend: nat): (after: int)
    requires pi < pend <= |pat|
    ensures after == -1 || pi + 1 < after <= pend
  {
    CloseBracket(pat, BodyStart(pat, pi, pend), pend)
  }

  /**
   The ranges a bracket body declares: `a-z` is a range whose first end also counts on its
   own, any other character stands for itself.  A `-` is literal when it comes first, last or
   right after a range.
   */
  function BodyRanges(body: string): seq<Range> {
    if body == [] then []
    else if |body| >= 3 && body[1] == '-' then
      [Range(body[0], body[0]), Range(body[0], body[2])] + BodyRanges(body[3..])
    else
      [Range(body[0], body[0])] + BodyRanges(body[1..])
  }

  function ClassAt(pat: string, pi: nat, pend: nat): Atom
    requires pi < pend <= |pat| && ClassEnd(pat, pi, pend) != -1
  {
    var start := BodyStart(pat, pi, pend);
    Class(start == pi + 2, BodyRanges(pat[start..ClassEnd(pat, pi, pend) - 1]))
  }

  // ---------------------------------------------------------------- quantifiers

  datatype Quantifier = NoQuantifier | BadQuantifier | Quantifier(least: nat, bound: Bound, next: nat)

  predicate IsDigit(c: char) { '0' <= c <= '9' }

  predicate AllDigits(s: string) { forall i :: 0 <= i < |s| ==> IsDigit(s[i]) }

  function Decimal(s: string): nat
    requires AllDigits(s)
  {
    if s == [] then 0 else 10 * Decimal(s[..|s| - 1]) + (s[|s| - 1] as int - '0' as int)
  }

  /** End of the run of digits that starts at `i`. */
  function DigitsEnd(pat: string, i: nat, pend: nat): (j: nat)
    requires i <= pend <= |pat|
    ensures i <= j <= pend && AllDigits(pat[i..j])
    ensures j < pend ==> !IsDigit(pat[j])
    decreases pend - i
  {
    if i < pend && IsDigit(pat[i]) then
      var j := DigitsEnd(pat, i + 1, pend);
      assert pat[i..j] == [pat[i]] + pat[i + 1..j];
      j
    else i
  }

  /** The two characters `\c` stand at `i`, before `pend`. */
  predicate EscapeAt(pat: string, i: nat, pend: nat, c: char)
    requires pend <= |pat|
  {
    i + 1 < pend && pat[i] == '\\' && pat[i + 1] == c
  }

  /** The part of an interval that follows the comma at `j - 1`. */
  function IntervalUpper(pat: string, j: nat, pend: nat, least: nat): (q: Quantifier)
    requires j <= pend <= |pat|
    ensures !q.NoQuantifier? && (q.Quantifier? ==> j + 2 <= q.next <= pend)
  {
    if EscapeAt(pat, j, pend, '}') then Quantifier(least, Unbounded, j + 2)
    else
      var k := DigitsEnd(pat, j, pend);
      var most := Decimal(pat[j..k]);
      if k == j || most > RE_DUP_MAX || most < least || !EscapeAt(pat, k, pend, '}') then BadQuantifier
      else Quantifier(least, Finite(most), k + 2)
  }

  function Interval(pat: string, pi: nat, pend: nat): (q: Quantifier)
    requires pend <= |pat|
    ensures q.Quantifier? ==> pi + 5 <= q.next <= pend
  {
    if !EscapeAt(pat, pi, pend, '{') then NoQuantifier
    else
      var i := pi + 2;
      var j := DigitsEnd(pat, i, pend);
      var least := Decimal(pat[i..j]);
      if j == i || least > RE_DUP_MAX || j == pend then BadQuantifier
      else IntervalRest(pat, j, pend, least)
  }

  /** The part of an interval that follows its first number. */
  function IntervalRest(pat: string, j: nat, pend: nat, least: nat): (q: Quantifier)
    requires j < pend <= |pat|
    ensures !q.NoQuantifier? && (q.Quantifier? ==> j + 2 <= q.next <= pend)
  {
    if EscapeAt(pat, j, pend, '}') then Quantifier(least, Finite(least), j + 2)
    else if pat[j] != ',' then BadQuantifier
    else IntervalUpper(pat, j + 1, pend, least)
  }

  function QuantifierAt(pat: string, at: nat, pend: nat): (q: Quantifier)
    requires pend <= |pat|
    ensures q.Quantifier? ==> at < q.next <= pend
  {
    if at < pend && pat[at] == '*' then Quantifier(0, Unbounded, at + 1)
    else if EscapeAt(pat, at, pend, '+') then Quantifier(1, Unbounded, at + 2)
    else Interval(pat, at, pend)
  }

  /** The written form of an interval: `\{low\}`, `\{low,\}` or `\{low,high\}`. */
  datatype IntervalText = Exactly(low: string) | AtLeast(low: string) | Between(low: string, high: string) {
    predicate Valid() {
      && low != [] && AllDigits(low) && Decimal(low) <= RE_DUP_MAX
      && (Between? ==> high != [] && AllDigits(high) && Decimal(low) <= Decimal(high) <= RE_DUP_MAX)
    }

    function Written(): string {
      match this
      case Exactly(low) => "\\{" + low + "\\}"
      case AtLeast(low) => "\\{" + low + ",\\}"
      case Between(low, high) => "\\{" + low + "," + high + "\\}"
    }

    function Upper(): Bound
      requires Valid()
    {
      match this
      case Exactly(low) => Finite(Decimal(low))
      case AtLeast(_) => Unbounded
      case Between(_, high) => Finite(Decimal(high))
    }
  }

  lemma {:induction false} DigitsEndAt(pat: string, i: nat, j: nat, pend: nat)
    requires i <= j < pend <= |pat| && AllDigits(pat[i..j]) && !IsDigit(pat[j])
    ensures DigitsEnd(pat, i, pend) == j
    decreases j - i
  {
    if i < j {
      assert pat[i] == pat[i..j][0];
      assert pat[i + 1..j] == pat[i..j][1..];
      DigitsEndAt(pat, i + 1, j, pend);
    }
  }

  lemma ReadsExactly(pat: string, pi: nat, j: nat, pend: nat)
    requires pi + 2 < j && j + 2 <= pend <= |pat|
    requires EscapeAt(pat, pi, pend, '{') && AllDigits(pat[pi + 2..j]) && Decimal(pat[pi + 2..j]) <= RE_DUP_MAX
    requires EscapeAt(pat, j, pend, '}')
    ensures Interval(pat, pi, pend) == Quantifier(Decimal(pat[pi + 2..j]), Finite(Decimal(pat[pi + 2..j])), j + 2)
  {
    DigitsEndAt(pat, pi + 2, j, pend);
  }

  lemma ReadsAtLeast(pat: string, pi: nat, j: nat, pend: nat)
    requires pi + 2 < j && j + 3 <= pend <= |pat|
    requires EscapeAt(pat, pi, pend, '{') && AllDigits(pat[pi + 2..j]) && Decimal(pat[pi + 2..j]) <= RE_DUP_MAX
    requires pat[j] == ',' && EscapeAt(pat, j + 1, pend, '}')
    ensures Interval(pat, pi, pend) == Quantifier(Decimal(pat[pi + 2..j]), Unbounded, j + 3)
  {
    DigitsEndAt(pat, pi + 2, j, pend);
  }

  lemma ReadsBetween(pat: string, pi: nat, j: nat, k: nat, pend: nat)
    requires pi + 2 < j && j + 1 < k && k + 2 <= pend <= |pat|
    requires EscapeAt(pat, pi, pend, '{') && AllDigits(pat[pi + 2..j])
    requires pat[j] == ',' && AllDigits(pat[j + 1..k]) && EscapeAt(pat, k, pend, '}')
    requires Decimal(pat[pi + 2..j]) <= Decimal(pat[j + 1..k]) <= RE_DUP_MAX
    ensures Interval(pat, pi, pend) == Quantifier(Decimal(pat[pi + 2..j]), Finite(Decimal(pat[j + 1..k])), k + 2)
  {
    DigitsEndAt(pat, pi + 2, j, pend);
    DigitsEndAt(pat, j + 1, k, pend);
    assert pat[j + 1] == pat[j + 1..k][0];
  }

  /** Where the parts of the written form `w` of `t` stand. */
  ghost predicate Layout(t: IntervalText, w: string) {
    var j := 2 + |t.low|;
    && |w| >= j + 2 && w[0] == '\\' && w[1] == '{' && w[2..j] == t.low
    && match t
       case Exactly(_) => |w| == j + 2 && w[j] == '\\' && w[j + 1] == '}'
       case AtLeast(_) => |w| == j + 3 && w[j] == ',' && w[j + 1] == '\\' && w[j + 2] == '}'
       case Between(_, high) =>
         var k := j + 1 + |high|;
         |w| == k + 2 && w[j] == ',' && w[j + 1..k] == high && w[k] == '\\' && w[k + 1] == '}'
  }

  lemma WrittenLayout(t: IntervalText)
    ensures Layout(t, t.Written())
  {
  }

  lemma ReadsLayout(pat: string, pi: nat, pend: nat, t: IntervalText, w: string)
    requires t.Valid() && Layout(t, w)
    requires pi + |w| <= pend <= |pat| && pat[pi..pi + |w|] == w
    ensures Interval(pat, pi, pend) == Quantifier(Decimal(t.low), t.Upper(), pi + |w|)
  {
    var j := pi + 2 + |t.low|;
    assert forall i :: pi <= i < pi + |w| ==> pat[i] == w[i - pi];
    assert pat[pi + 2..j] == w[2..2 + |t.low|];
    match t
    case Exactly(_) => ReadsExactly(pat, pi, j, pend);
    case AtLeast(_) => ReadsAtLeast(pat, pi, j, pend);
    case Between(_, high) =>
      var k := j + 1 + |high|;
      assert pat[j + 1..k] == w[3 + |t.low|..3 + |t.low| + |high|];
      ReadsBetween(pat, pi, j, k, pend);
  }

  lemma RefusesBetween(pat: string, pi: nat, j: nat, k: nat, pend: nat)
    requires pi + 2 < j && j + 1 < k && k + 2 <= pend <= |pat|
    requires EscapeAt(pat, pi, pend, '{') && AllDigits(pat[pi + 2..j])
    requires pat[j] == ',' && AllDigits(pat[j + 1..k]) && EscapeAt(pat, k, pend, '}')
    ensures Interval(pat, pi, pend) == BadQuantifier <==>
              Decimal(pat[pi + 2..j]) > Decimal(pat[j + 1..k]) || Decimal(pat[j + 1..k]) > 255
  {
    hide Decimal;
    DigitsEndAt(pat, pi + 2, j, pend);
    DigitsEndAt(pat, j + 1, k, pend);
    assert pat[j + 1] == pat[j + 1..k][0];
  }

  /** Bounds in the wrong order, or above 255, are refused, and no others. */
  lemma WrongBoundsAreRefused(pat: string, pi: nat, pend: nat, low: string, high: string)
    requires low != [] && high != [] && AllDigits(low) && AllDigits(high)
    requires pi + |Between(low, high).Written()| <= pend <= |pat|
    requires pat[pi..pi + |Between(low, high).Written()|] == Between(low, high).Written()
    ensures Interval(pat, pi, pend) == BadQuantifier <==> Decimal(low) > Decimal(high) || Decimal(high) > 255
  {
    hide AllDigits, Interval, Decimal, Layout;
    WrittenLayout(Between(low, high));
    RefusesLayout(pat, pi, pend, low, high, Between(low, high).Written());
  }

  lemma RefusesLayout(pat: string, pi: nat, pend: nat, low: string, high: string, w: string)
    requires low != [] && high != [] && AllDigits(low) && AllDigits(high) && Layout(Between(low, high), w)
    requires pi + |w| <= pend <= |pat| && pat[pi..pi + |w|] == w
    ensures Interval(pat, pi, pend) == BadQuantifier <==> Decimal(low) > Decimal(high) || Decimal(high) > 255
  {
    hide AllDigits, Interval, Decimal;
    var j, k := pi + 2 + |low|, pi + 3 + |low| + |high|;
    assert forall i :: pi <= i < pi + |w| ==> pat[i] == w[i - pi];
    assert pat[pi + 2..j] == w[2..2 + |low|] && pat[j + 1..k] == w[3 + |low|..3 + |low| + |high|];
    RefusesBetween(pat, pi, j, k, pend);
  }

  /** Every well-formed interval is read back as the bounds it was written with. */
  lemma IntervalReadsWritten(pat: string, pi: nat, pend: nat, t: IntervalText)
    requires t.Valid() && pi + |t.Written()| <= pend <= |pat|
    requires pat[pi..pi + |t.Written()|] == t.Written()
    ensures Interval(pat, pi, pend) == Quantifier(Decimal(t.low), t.Upper(), pi + |t.Written()|)
  {
    WrittenLayout(t);
    ReadsLayout(pat, pi, pend, t, t.Written());
  }

  lemma UpperWasWritten(pat: string, j: nat, pend: nat, low: string) returns (t: IntervalText)
    requires j <= pend <= |pat| && low != [] && AllDigits(low) && Decimal(low) <= RE_DUP_MAX
    requires IntervalUpper(pat, j, pend, Decimal(low)).Quantifier?
    ensures var q := IntervalUpper(pat, j, pend, Decimal(low));
      && t.Valid() && t.low == low && !t.Exactly? && q.least == Decimal(low) && q.bound == t.Upper()
      && pat[j..q.next] == (if t.Between? then t.high else []) + "\\}"
  {
    if EscapeAt(pat, j, pend, '}') {
      t := AtLeast(low);
      assert pat[j..j + 2] == "\\}";
    } else {
      var k := DigitsEnd(pat, j, pend);
      t := Between(low, pat[j..k]);
      assert pat[k..k + 2] == "\\}";
      assert pat[j..k + 2] == pat[j..k] + pat[k..k + 2];
    }
  }

  /** Whatever the reader accepts is a well-formed interval with those bounds. */
  lemma IntervalWasWritten(pat: string, pi: nat, pend: nat) returns (t: IntervalText)
    requires pend <= |pat| && Interval(pat, pi, pend).Quantifier?
    ensures t.Valid() && pat[pi..Interval(pat, pi, pend).next] == t.Written()
    ensures var q := Interval(pat, pi, pend); q.least == Decimal(t.low) && q.bound == t.Upper()
  {
    hide Decimal;
    var q := Interval(pat, pi, pend);
    var j := DigitsEnd(pat, pi + 2, pend);
    var low := pat[pi + 2..j];
    assert pat[pi..j] == "\\{" + low;
    if EscapeAt(pat, j, pend, '}') {
      t := Exactly(low);
      JoinSlices(pat, pi, j, q.next, "\\{" + low, "\\}");
    } else {
      t := UpperWasWritten(pat, j + 1, pend, low);
      var tail := pat[j + 1..q.next];
      assert pat[j..q.next] == "," + tail;
      JoinSlices(pat, pi, j, q.next, "\\{" + low, "," + tail);
      WrittenWithComma(t, tail);
    }
  }

  lemma JoinSlices(pat: string, i: nat, j: nat, k: nat, a: string, b: string)
    requires i <= j <= k <= |pat| && pat[i..j] == a && pat[j..k] == b
    ensures pat[i..k] == a + b
  {
  }

  lemma WrittenWithComma(t: IntervalText, tail: string)
    requires !t.Exactly? && tail == (if t.Between? then t.high else []) + "\\}"
    ensures t.Written() == "\\{" + t.low + ("," + tail)
  {
  }

  // ---------------------------------------------------------------- parsing

  predicate GroupAt(pat: string, pi: nat, pend: nat)
    requires pend <= |pat|
  {
    EscapeAt(pat, pi, pend, '(')
  }

  /** The atom that starts at `pi` and the index just past it, if there is one. */
  datatype AtomText = BadAtom | AtomText(atom: Atom, after: nat)

  function AtomAt(pat: string, pi: nat, pend: nat): (a: AtomText)
    requires pi < pend <= |pat|
    ensures a.AtomText? ==> pi < a.after <= pend
  {
    if pat[pi] == '[' then
      if ClassEnd(pat, pi, pend) == -1 then BadAtom
      else AtomText(ClassAt(pat, pi, pend), ClassEnd(pat, pi, pend))
    else if pat[pi] == '.' then AtomText(Any, pi + 1)
    else if pat[pi] == '\\' then
      if pi + 1 >= pend || pat[pi + 1] in "(){}" then BadAtom
      else AtomText(Literal(pat[pi + 1]), pi + 2)
    else AtomText(if pat[pi] in "^$*" then Never else Literal(pat[pi]), pi + 1)
  }

  /**
   `Grouped`: the first thing in the way of a group-free reading is a `\(`.  `Malformed`: it is an atom or
   an interval that cannot be read, and `re` is what stands in front of it.
   */
  datatype Syntax = Malformed(re: Regex) | Grouped | WellFormed(re: Regex)

  function Parse(pat: string, pi: nat, pend: nat): Syntax
    requires pend <= |pat|
    decreases pend - pi
  {
    if pi >= pend then WellFormed(Stop)
    else if pat[pi] == '$' && pi + 1 == pend then WellFormed(EndOfText)
    else if GroupAt(pat, pi, pend) then Grouped
    else
      var a := AtomAt(pat, pi, pend);
      if a.BadAtom? then Malformed(Stop)
      else
        var q := QuantifierAt(pat, a.after, pend);
        match q
        case BadQuantifier => Malformed(Stop)
        case NoQuantifier => Prepend(Item(a.atom, 1, Finite(1)), Parse(pat, a.after, pend))
        case Quantifier(least, bound, next) => Prepend(Item(a.atom, least, bound), Parse(pat, next, pend))
  }

  function Prepend(item: Item, s: Syntax): Syntax {
    match s
    case WellFormed(re) => WellFormed(Then(item, re))
    case Malformed(re) => Malformed(Then(item, re))
    case Grouped => Grouped
  }

  // ---------------------------------------------------------------- groups

  /** Index of the first `\)` at or after `i`, or -1. */
  function GroupEnd(pat: string, i: nat, pend: nat): (end: int)
    requires pend <= |pat|
    ensures end == -1 || (i <= end && EscapeAt(pat, end, pend, ')'))
    ensures end == -1 ==> forall k :: i <= k < pend ==> !EscapeAt(pat, k, pend, ')')
    ensures end != -1 ==> forall k :: i <= k < end ==> !EscapeAt(pat, k, pend, ')')
    decreases pend - i
  {
    if i >= pend then -1
    else if EscapeAt(pat, i, pend, ')') then i
    else GroupEnd(pat, i + 1, pend)
  }

  /** Reading the pattern from `pi` on, inside groups as well, meets no group with a quantifier behind it. */
  predicate GroupsUnquantified(pat: string, pi: nat, pend: nat)
    requires pend <= |pat|
    decreases pend - pi
  {
    if pi >= pend || (pat[pi] == '$' && pi + 1 == pend) then true
    else if GroupAt(pat, pi, pend) then
      var end := GroupEnd(pat, pi + 2, pend);
      end == -1 ||
      match QuantifierAt(pat, end + 2, pend)
      case BadQuantifier => true
      case NoQuantifier => GroupsUnquantified(pat, pi + 2, end) && GroupsUnquantified(pat, end + 2, pend)
      case Quantifier(_, _, _) => false
    else
      var a := AtomAt(pat, pi, pend);
      a.BadAtom? ||
      match QuantifierAt(pat, a.after, pend)
      case BadQuantifier => true
      case NoQuantifier => GroupsUnquantified(pat, a.after, pend)
      case Quantifier(_, _, next) => GroupsUnquantified(pat, next, pend)
  }

  /** A pattern without a group has no quantified group, whatever its brackets and escapes contain. */
  lemma {:induction false} GroupFreeIsUnquantified(pat: string, pi: nat, pend: nat)
    requires pend <= |pat| && !Parse(pat, pi, pend).Grouped?
    ensures GroupsUnquantified(pat, pi, pend)
    decreases pend - pi
  {
    if pi < pend && !(pat[pi] == '$' && pi + 1 == pend) && AtomAt(pat, pi, pend).AtomText? {
      var after := AtomAt(pat, pi, pend).after;
      match QuantifierAt(pat, after, pend)
      case BadQuantifier =>
      case NoQuantifier => GroupFreeIsUnquantified(pat, after, pend);
      case Quantifier(_, _, next) => GroupFreeIsUnquantified(pat, next, pend);
    }
  }
}
