/** The backtracking matcher of src/lib/bre.c, proved against the language of BreLanguage. */
module BreMatcher {
  // `MatchHere` and `MatchRepeated` are the mutually recursive pair of the source.  Their contracts say
  // what they decide for a group-free pattern; for a pattern with unquantified groups they say that
  // matching terminates and that every position stays inside the text.

  import opened BreCaptures
  import opened BreLanguage

  datatype BreResult = BRE_OK | BRE_NOMATCH | BRE_ERROR

  /** The character at `i`; the text ends with a NUL. */
  function Peek(text: string, i: nat): char
    requires i <= |text|
  {
    if i < |text| then text[i] else '\0'
  }

  // ---------------------------------------------------------------- bracket expressions

  method FindClassEndSimple(pat: string, pi: nat, pend: nat) returns (after: int)
    requires pi < pend <= |pat|
    ensures after == ClassEnd(pat, pi, pend)
  {
    var i := pi + 1;
    if i < pend && pat[i] == '^' {
      i := i + 1;
    }
    while i < pend
      invariant i <= pend
      invariant CloseBracket(pat, i, pend) == ClassEnd(pat, pi, pend)
    {
      if pat[i] == ']' {
        return i + 1;
      }
      i := i + 1;
    }
    return -1;
  }

  /** Does the rest of a bracket body, from `k` on, still accept `c`?  `prev` is a character a range may start from. */
  ghost predicate RestAccepts(body: string, k: nat, hasPrev: bool, prev: char, c: char)
    requires k <= |body|
  {
    if hasPrev && k + 1 < |body| && body[k] == '-' then
      prev <= c <= body[k + 1] || InRanges(BodyRanges(body[k + 2..]), c)
    else
      InRanges(BodyRanges(body[k..]), c)
  }

  lemma InRangesConcat(a: seq<Range>, b: seq<Range>, c: char)
    ensures InRanges(a + b, c) <==> InRanges(a, c) || InRanges(b, c)
  {
    assert forall r :: r in a + b <==> r in a || r in b;
  }

  /** Taking one literal character off the front of a bracket body. */
  lemma RestStep(body: string, k: nat, c: char)
    requires k < |body|
    ensures InRanges(BodyRanges(body[k..]), c) <==> body[k] == c || RestAccepts(body, k + 1, true, body[k], c)
  {
    var b := body[k..];
    var self := Range(b[0], b[0]);
    assert InRanges([self], c) <==> b[0] == c by {
      assert self in [self];
    }
    if |b| >= 3 && b[1] == '-' {
      var span := Range(b[0], b[2]);
      assert InRanges([self, span], c) <==> b[0] == c || b[0] <= c <= b[2] by {
        assert self in [self, span] && span in [self, span];
      }
      assert b[3..] == body[k + 3..];
      InRangesConcat([self, span], BodyRanges(b[3..]), c);
    } else {
      assert b[1..] == body[k + 1..];
      InRangesConcat([self], BodyRanges(b[1..]), c);
    }
  }

  /** The characters between the brackets, or to the end of the pattern when the class is not closed. */
  ghost function ClassBody(pat: string, pi: nat, pend: nat): string
    requires pi < pend <= |pat|
  {
    pat[BodyStart(pat, pi, pend)..if ClassEnd(pat, pi, pend) == -1 then pend else ClassEnd(pat, pi, pend) - 1]
  }

  lemma ClassBodyLayout(pat: string, pi: nat, pend: nat)
    requires pi < pend <= |pat|
    ensures var start, body := BodyStart(pat, pi, pend), ClassBody(pat, pi, pend);
      && start + |body| <= pend
      && (forall k :: start <= k < start + |body| ==> pat[k] == body[k - start] && pat[k] != ']')
      && (start + |body| < pend ==> pat[start + |body|] == ']')
      && (ClassEnd(pat, pi, pend) == if start + |body| < pend then start + |body| + 1 else -1)
  {
    var start, body := BodyStart(pat, pi, pend), ClassBody(pat, pi, pend);
    forall k | start <= k < start + |body| ensures pat[k] == body[k - start] && pat[k] != ']' {
      assert body[k - start] in body;
    }
  }

  /** The loop over the characters `body` of a class, which stand in the pattern from `start` on. */
  method ScanClass(c: char, pat: string, start: nat, pend: nat, ghost body: string) returns (matched: bool, i: nat)
    requires start + |body| <= pend <= |pat|
    requires forall k :: start <= k < start + |body| ==> pat[k] == body[k - start] && pat[k] != ']'
    requires start + |body| < pend ==> pat[start + |body|] == ']'
    ensures i == start + |body|
    ensures matched <==> InRanges(BodyRanges(body), c)
  {
    i := start;
    matched := false;
    var prev, hasPrev := '\0', false;
    assert body[0..] == body;
    while i < pend && pat[i] != ']'
      invariant start <= i <= start + |body|
      invariant matched || RestAccepts(body, i - start, hasPrev, prev, c) <==> InRanges(BodyRanges(body), c)
    {
      if pat[i] == '-' && hasPrev && i + 1 < pend && pat[i + 1] != ']' {
        var first, last := prev, pat[i + 1];
        if first <= c <= last {
          matched := true;
        }
        i := i + 1;
        hasPrev := false;
        prev := '\0';
      } else {
        RestStep(body, i - start, c);
        if pat[i] == c {
          matched := true;
        }
        prev := pat[i];
        hasPrev := true;
      }
      i := i + 1;
    }
  }

  /** Decides the declared set of the class and stops where `FindClassEndSimple` stops. */
  method InCharClass(c: char, pat: string, pi: nat, pend: nat) returns (found: bool, after: int)
    requires pi < pend <= |pat|
    ensures ClassEnd(pat, pi, pend) == -1 ==> !found
    ensures ClassEnd(pat, pi, pend) != -1 ==>
              after == ClassEnd(pat, pi, pend) && found == Accepts(ClassAt(pat, pi, pend), c)
  {
    var invert := false;
    var i := pi + 1;
    if i < pend && pat[i] == '^' {
      invert := true;
      i := i + 1;
    }
    ClassBodyLayout(pat, pi, pend);
    var matched;
    matched, i := ScanClass(c, pat, i, pend, ClassBody(pat, pi, pend));
    after := -1;
    if i >= pend || pat[i] != ']' {
      return false, after;
    }
    after := i + 1;
    found := if invert then !matched else matched;
  }

  // ---------------------------------------------------------------- quantifiers

  datatype BreRepetition = BreRepetition(min: nat, max: int, nextPi: nat) {
    function Upper(): Bound {
      if max < 0 then Unbounded else Finite(max)
    }
  }

  /** `r` and `rep` report the quantifier `q`; `rep` keeps its value `was` when there is none. */
  ghost predicate Reports(q: Quantifier, r: BreResult, rep: BreRepetition, was: BreRepetition) {
    match q
    case NoQuantifier => r == BRE_NOMATCH && rep == was
    case BadQuantifier => r == BRE_ERROR
    case Quantifier(least, bound, next) =>
      r == BRE_OK && rep.min == least && rep.Upper() == bound && rep.nextPi == next
  }

  /** `atoi`: the value of the digits at `i`, read to the first non-digit of the whole pattern. */
  method Atoi(pat: string, i: nat) returns (value: nat)
    requires i <= |pat|
    ensures value == Decimal(pat[i..DigitsEnd(pat, i, |pat|)])
  {
    var j := i;
    value := 0;
    assert pat[i..i] == [];
    while j < |pat| && IsDigit(pat[j])
      invariant i <= j <= |pat| && AllDigits(pat[i..j]) && value == Decimal(pat[i..j])
      invariant DigitsEnd(pat, j, |pat|) == DigitsEnd(pat, i, |pat|)
    {
      value := 10 * value + (pat[j] as int - '0' as int);
      assert pat[i..j + 1] == pat[i..j] + [pat[j]];
      j := j + 1;
    }
  }

  method SkipDigits(pat: string, i: nat, pend: nat) returns (j: nat)
    requires i <= pend <= |pat|
    ensures j == DigitsEnd(pat, i, pend)
    ensures j < pend ==> DigitsEnd(pat, i, |pat|) == j
  {
    j := i;
    while j < pend && IsDigit(pat[j])
      invariant i <= j <= pend && forall k :: i <= k < j ==> IsDigit(pat[k])
      invariant DigitsEnd(pat, j, pend) == DigitsEnd(pat, i, pend)
    {
      j := j + 1;
    }
    if j < pend {
      DigitsEndAt(pat, i, j, |pat|);
    }
  }

  /** The part of `ParseBreRepetition` that reads on from just past the comma. */
  method ParseUpperBound(pat: string, start: nat, pend: nat, was: BreRepetition) returns (r: BreResult, rep: BreRepetition)
    requires start <= pend <= |pat|
    ensures Reports(IntervalUpper(pat, start, pend, was.min), r, rep, was)
  {
    rep := was;
    var j := start;
    if j >= pend {
      return BRE_ERROR, rep;
    }
    if pat[j] == '\\' && j + 1 < pend && pat[j + 1] == '}' {
      rep := rep.(max := -1, nextPi := j + 2);
      return BRE_OK, rep;
    }
    if !IsDigit(pat[j]) {
      return BRE_ERROR, rep;
    }
    j := SkipDigits(pat, j, pend);
    var max := Atoi(pat, start);
    rep := rep.(max := max);
    if rep.max > RE_DUP_MAX || rep.min > rep.max {
      return BRE_ERROR, rep;
    }
    if j + 1 >= pend || pat[j] != '\\' || pat[j + 1] != '}' {
      return BRE_ERROR, rep;
    }
    rep := rep.(nextPi := j + 2);
    return BRE_OK, rep;
  }

  method ParseBreRepetition(pat: string, pi: nat, pend: nat, was: BreRepetition) returns (r: BreResult, rep: BreRepetition)
    requires pend <= |pat|
    ensures Reports(Interval(pat, pi, pend), r, rep, was)
  {
    rep := was;
    if pi + 5 > pend {
      if pi < pend && pat[pi] == '\\' && pi + 1 < pend && pat[pi + 1] == '{' {
        return BRE_ERROR, rep;
      }
      return BRE_NOMATCH, rep;
    }
    if pat[pi] != '\\' || pat[pi + 1] != '{' {
      return BRE_NOMATCH, rep;
    }
    var start := pi + 2;
    if !IsDigit(pat[start]) {
      return BRE_ERROR, rep;
    }
    var j := SkipDigits(pat, start, pend);
    var min := Atoi(pat, start);
    rep := rep.(min := min);
    if j >= pend {
      return BRE_ERROR, rep;
    }
    if rep.min > RE_DUP_MAX {
      return BRE_ERROR, rep;
    }
    r, rep := ParseAfterLower(pat, j, pend, rep);
  }

  /** The part that reads on from just past the first number. */
  method ParseAfterLower(pat: string, j: nat, pend: nat, was: BreRepetition) returns (r: BreResult, rep: BreRepetition)
    requires j < pend <= |pat|
    ensures Reports(IntervalRest(pat, j, pend, was.min), r, rep, was)
  {
    rep := was;
    if pat[j] == '\\' && j + 1 < pend && pat[j + 1] == '}' {
      rep := rep.(max := rep.min, nextPi := j + 2);
      return BRE_OK, rep;
    }
    if pat[j] != ',' {
      return BRE_ERROR, rep;
    }
    r, rep := ParseUpperBound(pat, j + 1, pend, rep);
  }

  method ParseQuantifier(pat: string, at: nat, pend: nat, was: BreRepetition) returns (r: BreResult, rep: BreRepetition)
    requires pend <= |pat|
    ensures Reports(QuantifierAt(pat, at, pend), r, rep, was)
  {
    if at < pend && pat[at] == '*' {
      return BRE_OK, BreRepetition(0, -1, at + 1);
    }
    if at + 1 < pend && pat[at] == '\\' && pat[at + 1] == '+' {
      return BRE_OK, BreRepetition(1, -1, at + 2);
    }
    r, rep := ParseBreRepetition(pat, at, pend, was);
  }

  // ---------------------------------------------------------------- one occurrence of an atom

  datatype MatchContext = MatchContext(text: string, ti: nat, pat: string, pi: nat, pend: nat) {
    ghost predicate Valid() {
      ti <= |text| && '\0' !in text && pi <= pend <= |pat|
    }

    ghost function Syntax(): Syntax
      requires Valid()
    {
      Parse(pat, pi, pend)
    }
  }

  /** Which of the `once_*` functions is passed to `MatchRepeated`. */
  datatype AtomOnceFn = OnceLiteral | OnceDot | OnceEscape | OnceClass {
    /** The dispatcher picks this function for the atom at `pi`. */
    ghost predicate Handles(pat: string, pi: nat, pend: nat)
      requires pi < pend <= |pat|
    {
      match this
      case OnceClass => pat[pi] == '['
      case OnceDot => pat[pi] == '.'
      case OnceEscape => pat[pi] == '\\'
      case OnceLiteral => pat[pi] != '[' && pat[pi] != '.' && pat[pi] != '\\'
    }
  }

  method AtomOnce(fn: AtomOnceFn, ctx: MatchContext, atomStart: nat, tpos: nat) returns (r: BreResult, adv: nat)
    requires ctx.Valid() && atomStart < ctx.pend && tpos <= |ctx.text|
    requires fn.Handles(ctx.pat, atomStart, ctx.pend) && AtomAt(ctx.pat, atomStart, ctx.pend).AtomText?
    ensures r == BRE_OK <==> tpos < |ctx.text| && Accepts(AtomAt(ctx.pat, atomStart, ctx.pend).atom, ctx.text[tpos])
    ensures r != BRE_ERROR
    ensures r == BRE_OK ==> adv == 1
  {
    adv := 0;
    if Peek(ctx.text, tpos) == '\0' {
      return BRE_NOMATCH, adv;
    }
    match fn {
    case OnceLiteral =>
      var ch := ctx.pat[atomStart];
      if ch == '\\' || ch == '[' || ch == '.' || ch == '^' || ch == '$' || ch == '*' {
        return BRE_NOMATCH, adv;
      }
      if Peek(ctx.text, tpos) != ch {
        return BRE_NOMATCH, adv;
      }
    case OnceDot =>
    case OnceEscape =>
      var esc := ctx.pat[atomStart + 1];
      if Peek(ctx.text, tpos) != esc {
        return BRE_NOMATCH, adv;
      }
    case OnceClass =>
      var found, _ := InCharClass(Peek(ctx.text, tpos), ctx.pat, atomStart, ctx.pend);
      if !found {
        return BRE_NOMATCH, adv;
      }
    }
    return BRE_OK, 1;
  }

  // ---------------------------------------------------------------- what a match attempt decides

  /** What an attempt to match at `ti` reports, by the syntax of the pattern from there on. */
  ghost predicate Decides(s: Syntax, text: string, ti: nat, r: BreResult, total: int) {
    && (r == BRE_OK ==> 0 <= total && ti + total <= |text|)
    && match s
       case Malformed(re) => r != BRE_OK && (r == BRE_ERROR <==> !DerivesNothingAt(Capped(re), text, ti))
       case Grouped => true
       case WellFormed(re) =>
         && r != BRE_ERROR
         && (r == BRE_OK ==> Longest(Capped(re), text, ti, ti + total))
         && (r == BRE_NOMATCH ==> DerivesNothingAt(Capped(re), text, ti))
  }

  // ---------------------------------------------------------------- the matcher

  /** The captures are only touched when the pattern has a group. */
  twostate predicate CapturesKept(s: Syntax, m: BreMatch, n: int)
    reads m, m.groups
  {
    && m.Valid()
    && (old(m.Valid() && m.CapturesWithin(n)) ==> m.CapturesWithin(n))
    && (!s.Grouped? ==> m.numGroups == old(m.numGroups) && m.groups[..] == old(m.groups[..]))
  }

  method MatchHere(ctx: MatchContext, m: BreMatch) returns (r: BreResult, total: int)
    requires ctx.Valid() && GroupsUnquantified(ctx.pat, ctx.pi, ctx.pend)
    requires m.Valid() && m.CapturesWithin(|ctx.text|)
    modifies m`numGroups, m.groups
    ensures Decides(ctx.Syntax(), ctx.text, ctx.ti, r, total)
    ensures CapturesKept(ctx.Syntax(), m, |ctx.text|)
    decreases ctx.pend - ctx.pi, 3
  {
    total := 0;
    StopDerives(ctx.text, ctx.ti);
    if ctx.pi >= ctx.pend {
      return BRE_OK, 0;
    }
    if ctx.pat[ctx.pi] == '$' && ctx.pi + 1 == ctx.pend {
      if Peek(ctx.text, ctx.ti) == '\0' {
        return BRE_OK, 0;
      }
      return BRE_NOMATCH, total;
    }
    if ctx.pat[ctx.pi] == '\\' && ctx.pi + 1 < ctx.pend && ctx.pat[ctx.pi + 1] == '(' {
      r, total := MatchGroup(ctx, m);
      return;
    }
    var fn, atomEnd := OnceLiteral, ctx.pi + 1;
    if ctx.pat[ctx.pi] == '[' {
      var after := FindClassEndSimple(ctx.pat, ctx.pi, ctx.pend);
      if after < 0 {
        return BRE_ERROR, total;
      }
      fn, atomEnd := OnceClass, after;
    } else if ctx.pat[ctx.pi] == '.' {
      fn := OnceDot;
    } else if ctx.pat[ctx.pi] == '\\' {
      if ctx.pi + 1 >= ctx.pend {
        return BRE_ERROR, total;
      }
      var esc := ctx.pat[ctx.pi + 1];
      if esc == ')' || esc == '{' || esc == '}' {
        return BRE_ERROR, total;
      }
      fn, atomEnd := OnceEscape, ctx.pi + 2;
    }
    assert AtomAt(ctx.pat, ctx.pi, ctx.pend).AtomText? && AtomAt(ctx.pat, ctx.pi, ctx.pend).after == atomEnd;
    var q, rep := ParseQuantifier(ctx.pat, atomEnd, ctx.pend, BreRepetition(1, 1, atomEnd));
    if q == BRE_ERROR {
      return BRE_ERROR, total;
    }
    ghost var atom := AtomAt(ctx.pat, ctx.pi, ctx.pend).atom;
    r, total := MatchRepeated(ctx, fn, rep, m, atom, Parse(ctx.pat, rep.nextPi, ctx.pend));
  }

  /** `fn` decides, one character at a time, the atom `atom` that starts at `ctx.pi`. */
  ghost predicate Implements(fn: AtomOnceFn, ctx: MatchContext, atom: Atom) {
    && ctx.Valid() && ctx.pi < ctx.pend && fn.Handles(ctx.pat, ctx.pi, ctx.pend)
    && AtomAt(ctx.pat, ctx.pi, ctx.pend).AtomText? && AtomAt(ctx.pat, ctx.pi, ctx.pend).atom == atom
  }

  /** The greedy loop: take the atom as often as it goes, up to `most` times. */
  method TakeAll(ctx: MatchContext, fn: AtomOnceFn, most: nat, advs: array<nat>, ghost atom: Atom)
      returns (error: bool, have: nat, tpos: nat)
    requires Implements(fn, ctx, atom)
    modifies advs
    ensures !error && have <= most && tpos == ctx.ti + have
    ensures forall k :: 0 <= k < have && k < advs.Length ==> advs[k] == 1
    ensures Span(atom, ctx.text, ctx.ti, tpos)
    ensures forall k :: tpos < k && Span(atom, ctx.text, ctx.ti, k) ==> have == most
  {
    error, have, tpos := false, 0, ctx.ti;
    while have < most
      invariant 0 <= have <= most && tpos == ctx.ti + have
      invariant Span(atom, ctx.text, ctx.ti, tpos)
      invariant forall k :: 0 <= k < have && k < advs.Length ==> advs[k] == 1
    {
      var once, adv := AtomOnce(fn, ctx, ctx.pi, tpos);
      if once != BRE_OK {
        error := once == BRE_ERROR;
        return;
      }
      if have < advs.Length {
        advs[have] := adv;
      }
      tpos := tpos + adv;
      have := have + 1;
    }
  }

  /** Match the rest of the pattern, from `nextPi`, at `tpos`. */
  method MatchRest(ctx: MatchContext, tpos: nat, nextPi: nat, m: BreMatch, ghost rest: Syntax) returns (r: BreResult, total: int)
    requires ctx.Valid() && tpos <= |ctx.text|
    requires ctx.pi < nextPi <= ctx.pend && rest == Parse(ctx.pat, nextPi, ctx.pend)
    requires GroupsUnquantified(ctx.pat, nextPi, ctx.pend)
    requires m.Valid() && m.CapturesWithin(|ctx.text|)
    modifies m`numGroups, m.groups
    ensures Decides(rest, ctx.text, tpos, r, total)
    ensures CapturesKept(rest, m, |ctx.text|)
    decreases ctx.pend - ctx.pi, 0
  {
    r, total := MatchHere(ctx.(ti := tpos, pi := nextPi), m);
  }

  method MatchRepeated(ctx: MatchContext, fn: AtomOnceFn, rep: BreRepetition, m: BreMatch, ghost atom: Atom, ghost rest: Syntax)
      returns (r: BreResult, total: int)
    requires Implements(fn, ctx, atom)
    requires ctx.pi < rep.nextPi <= ctx.pend && rest == Parse(ctx.pat, rep.nextPi, ctx.pend)
    requires GroupsUnquantified(ctx.pat, rep.nextPi, ctx.pend)
    requires m.Valid() && m.CapturesWithin(|ctx.text|)
    modifies m`numGroups, m.groups
    ensures Decides(Prepend(Item(atom, rep.min, rep.Upper()), rest), ctx.text, ctx.ti, r, total)
    ensures CapturesKept(rest, m, |ctx.text|)
    decreases ctx.pend - ctx.pi, 1
  {
    hide Parse, GroupsUnquantified, AtomAt, Derives, DerivesNothingAt, TriedBeyond, Longest;
    ghost var capped := CappedItem(Item(atom, rep.min, rep.Upper()));
    var maxPossible := if rep.max < 0 then REPEAT_CAP else rep.max;
    var advs := new nat[256];
    total := 0;
    var error, have, tpos := TakeAll(ctx, fn, maxPossible, advs, atom);
    if error {
      return BRE_ERROR, total;
    }
    if !rest.Grouped? {
      AllTaken(capped, Capped(rest.re), ctx.text, ctx.ti, tpos);
    }
    while have >= rep.min
      invariant 0 <= have <= maxPossible && tpos == ctx.ti + have
      invariant Span(atom, ctx.text, ctx.ti, tpos)
      invariant forall k :: 0 <= k < have && k < advs.Length ==> advs[k] == 1
      invariant !rest.Grouped? ==> TriedBeyond(capped, Capped(rest.re), ctx.text, ctx.ti, tpos)
      invariant CapturesKept(rest, m, |ctx.text|)
      decreases have
    {
      var rr, restTotal := MatchRest(ctx, tpos, rep.nextPi, m, rest);
      if rr == BRE_ERROR {
        if rest.Malformed? {
          DerivesSome(capped, Capped(rest.re), ctx.text, ctx.ti, tpos);
        }
        return BRE_ERROR, total;
      }
      if rr == BRE_OK {
        if rest.WellFormed? {
          GreedyIsLongest(capped, Capped(rest.re), ctx.text, ctx.ti, tpos, tpos + restTotal);
        }
        return BRE_OK, (tpos - ctx.ti) + restTotal;
      }
      if !rest.Grouped? {
        OneMoreTried(capped, Capped(rest.re), ctx.text, ctx.ti, tpos);
      }
      if have == 0 {
        break;
      }
      var lastAdv := if have <= advs.Length then advs[have - 1] else 1;
      tpos := tpos - lastAdv;
      have := have - 1;
    }
    if !rest.Grouped? {
      NothingLeft(capped, Capped(rest.re), ctx.text, ctx.ti, if have < rep.min then tpos else tpos - 1);
    }
    return BRE_NOMATCH, total;
  }

  // ---------------------------------------------------------------- groups

  method FindGroupEnd(pat: string, pi: nat, pend: nat) returns (end: int)
    requires pi + 1 < pend <= |pat|
    ensures end == GroupEnd(pat, pi + 2, pend)
  {
    var i: nat := pi + 2;
    while i < pend - 1
      invariant GroupEnd(pat, pi + 2, pend) == GroupEnd(pat, i, pend)
    {
      if pat[i] == '\\' && pat[i + 1] == ')' {
        return i;
      }
      i := i + 1;
    }
    return -1;
  }

  method MatchGroup(ctx: MatchContext, m: BreMatch) returns (r: BreResult, total: int)
    requires ctx.Valid() && GroupAt(ctx.pat, ctx.pi, ctx.pend) && GroupsUnquantified(ctx.pat, ctx.pi, ctx.pend)
    requires m.Valid() && m.CapturesWithin(|ctx.text|)
    modifies m`numGroups, m.groups
    ensures r == BRE_OK ==> 0 <= total && ctx.ti + total <= |ctx.text|
    ensures m.Valid() && m.CapturesWithin(|ctx.text|)
    decreases ctx.pend - ctx.pi, 2
  {
    total := 0;
    var gend := FindGroupEnd(ctx.pat, ctx.pi, ctx.pend);
    if gend < 0 {
      return BRE_ERROR, total;
    }
    var atomEnd := gend + 2;
    var q, rep := ParseQuantifier(ctx.pat, atomEnd, ctx.pend, BreRepetition(1, 1, atomEnd));
    if q == BRE_ERROR {
      return BRE_ERROR, total;
    }
    assert q == BRE_NOMATCH;
    r, total := MatchGroupWithoutQuantifier(ctx, m, ctx.pi + 2, gend, atomEnd);
  }

  method OnceGroupInner(ctx: MatchContext, innerStart: nat, innerEnd: nat, tpos: nat, m: BreMatch) returns (r: BreResult, adv: int)
    requires ctx.Valid() && ctx.pi < innerStart <= innerEnd < ctx.pend && tpos <= |ctx.text|
    requires GroupsUnquantified(ctx.pat, innerStart, innerEnd)
    requires m.Valid() && m.CapturesWithin(|ctx.text|)
    modifies m`numGroups, m.groups
    ensures r == BRE_OK ==> 0 <= adv && tpos + adv <= |ctx.text|
    ensures m.Valid() && m.CapturesWithin(|ctx.text|)
    decreases ctx.pend - ctx.pi, 0
  {
    var inner := ctx.(ti := tpos, pi := innerStart, pend := innerEnd);
    r, adv := MatchHere(inner, m);
  }

  method MatchGroupWithoutQuantifier(ctx: MatchContext, m: BreMatch, innerStart: nat, innerEnd: nat, atomEnd: nat)
      returns (r: BreResult, total: int)
    requires ctx.Valid() && ctx.pi < innerStart <= innerEnd < atomEnd <= ctx.pend
    requires GroupsUnquantified(ctx.pat, innerStart, innerEnd) && GroupsUnquantified(ctx.pat, atomEnd, ctx.pend)
    requires m.Valid() && m.CapturesWithin(|ctx.text|)
    modifies m`numGroups, m.groups
    ensures r == BRE_OK ==> 0 <= total && ctx.ti + total <= |ctx.text|
    ensures m.Valid() && m.CapturesWithin(|ctx.text|)
    decreases ctx.pend - ctx.pi, 1
  {
    total := 0;
    if innerEnd - innerStart == 2 && ctx.pat[innerStart] == '.' && ctx.pat[innerStart + 1] == '*' {
      var tcur := ctx.ti;
      while Peek(ctx.text, tcur) != '\0'
        invariant ctx.ti <= tcur <= |ctx.text|
        decreases |ctx.text| - tcur
      {
        tcur := tcur + 1;
      }
      var ttry := tcur;
      while ttry >= ctx.ti
        invariant ctx.ti - 1 <= ttry <= |ctx.text|
        invariant m.Valid() && m.CapturesWithin(|ctx.text|)
      {
        var rr, restTotal := MatchHere(ctx.(ti := ttry, pi := atomEnd), m);
        if rr == BRE_ERROR {
          return BRE_ERROR, total;
        }
        if rr == BRE_OK {
          if m.numGroups < BRE_MAX_GROUPS {
            m.Record(ctx.ti, ttry - ctx.ti);
            return BRE_OK, (ttry - ctx.ti) + restTotal;
          }
        }
        ttry := ttry - 1;
      }
      return BRE_NOMATCH, total;
    }
    var tpos := ctx.ti;
    while Peek(ctx.text, tpos) != '\0'
      invariant ctx.ti <= tpos <= |ctx.text|
      invariant m.Valid() && m.CapturesWithin(|ctx.text|)
      decreases |ctx.text| - tpos
    {
      var ir, adv := OnceGroupInner(ctx, innerStart, innerEnd, tpos, m);
      if ir == BRE_ERROR {
        return BRE_ERROR, total;
      }
      if ir == BRE_OK {
        var rr, restTotal := MatchHere(ctx.(ti := tpos + adv, pi := atomEnd), m);
        if rr == BRE_ERROR {
          return BRE_ERROR, total;
        }
        if rr == BRE_OK {
          m.Record(tpos, adv);
          return BRE_OK, (tpos - ctx.ti) + adv + restTotal;
        }
      }
      tpos := tpos + 1;
    }
    return BRE_NOMATCH, total;
  }

  // ---------------------------------------------------------------- the public entry point

  ghost predicate Anchored(pattern: string) {
    |pattern| > 0 && pattern[0] == '^'
  }

  /** The syntax of a whole pattern, after the optional `^`. */
  ghost function PatternSyntax(pattern: string): Syntax {
    Parse(pattern, if Anchored(pattern) then 1 else 0, |pattern|)
  }

  /** A match may start at `s`. */
  ghost predicate StartAllowed(pattern: string, text: string, s: int) {
    0 <= s <= |text| && (Anchored(pattern) ==> s == 0)
  }

  /** `start` is the leftmost start at which `re` matches, and `length` the longest length there. */
  ghost predicate LeftmostLongest(pattern: string, re: Regex, text: string, start: int, length: int) {
    && StartAllowed(pattern, text, start)
    && Longest(re, text, start, start + length)
    && forall s :: StartAllowed(pattern, text, s) && s < start ==> DerivesNothingAt(re, text, s)
  }

  ghost predicate NoMatchAnywhere(pattern: string, re: Regex, text: string) {
    forall s :: StartAllowed(pattern, text, s) ==> DerivesNothingAt(re, text, s)
  }

  /** No group that the matcher can meet in the pattern has a quantifier behind it. */
  ghost predicate NoQuantifiedGroup(pattern: string) {
    GroupsUnquantified(pattern, if Anchored(pattern) then 1 else 0, |pattern|)
  }

  method BreMatchPattern(text: string, pattern: string, m: BreMatch) returns (r: BreResult)
    requires '\0' !in text && (PatternSyntax(pattern).Grouped? ==> NoQuantifiedGroup(pattern))
    requires m.Valid()
    modifies m, m.groups
    ensures m.Valid() && m.CapturesWithin(|text|)
    ensures r == BRE_OK ==> StartAllowed(pattern, text, m.start) && 0 <= m.length && m.start + m.length <= |text|
    ensures r == BRE_OK ==> m.CapturesSorted()
    ensures r != BRE_OK ==> m.start == -1 && m.length == 0
    ensures match PatternSyntax(pattern)
            case Malformed(re) =>
              && r != BRE_OK && (r == BRE_NOMATCH <==> NoMatchAnywhere(pattern, Capped(re), text))
              && (RunsFitCap(re, text) ==> (r == BRE_NOMATCH <==> NoMatchAnywhere(pattern, re, text)))
            case Grouped => true
            case WellFormed(re) =>
              && r != BRE_ERROR && m.numGroups == 0
              && (r == BRE_OK ==> LeftmostLongest(pattern, Capped(re), text, m.start, m.length))
              && (r == BRE_NOMATCH ==> NoMatchAnywhere(pattern, Capped(re), text))
              && (RunsFitCap(re, text) ==>
                    && (r == BRE_OK ==> LeftmostLongest(pattern, re, text, m.start, m.length))
                    && (r == BRE_NOMATCH ==> NoMatchAnywhere(pattern, re, text)))
  {
    m.start := -1;
    m.length := 0;
    m.ResetGroups();
    var anchoredStart := |pattern| > 0 && pattern[0] == '^';
    var startPi := if anchoredStart then 1 else 0;
    var base := MatchContext(text, 0, pattern, startPi, |pattern|);
    ghost var syntax := PatternSyntax(pattern);
    if !syntax.Grouped? {
      GroupFreeIsUnquantified(pattern, startPi, |pattern|);
    }
    if !syntax.Grouped? && RunsFitCap(syntax.re, text) {
      UncappedOutcome(pattern, syntax.re, text);
    }
    if anchoredStart {
      var consumed;
      r, consumed := MatchHere(base, m);
      if r == BRE_OK {
        m.start := 0;
        m.length := consumed;
        m.SortGroupsByStart();
      }
      return;
    }
    r := TryEachStart(base, m);
  }

  /** The unanchored case: one start after the other. */
  method TryEachStart(base: MatchContext, m: BreMatch) returns (r: BreResult)
    requires base.Valid() && base.pi == 0 && base.pend == |base.pat| && !Anchored(base.pat)
    requires '\0' !in base.text && GroupsUnquantified(base.pat, 0, base.pend)
    requires m.Valid() && m.CapturesWithin(|base.text|) && m.start == -1 && m.length == 0 && m.numGroups == 0
    modifies m, m.groups
    ensures m.Valid() && m.CapturesWithin(|base.text|)
    ensures r == BRE_OK ==> 0 <= m.start && 0 <= m.length && m.start + m.length <= |base.text| && m.CapturesSorted()
    ensures r != BRE_OK ==> m.start == -1 && m.length == 0
    ensures match PatternSyntax(base.pat)
            case Malformed(re) => r != BRE_OK && (r == BRE_NOMATCH <==> NoMatchAnywhere(base.pat, Capped(re), base.text))
            case Grouped => true
            case WellFormed(re) =>
              && r != BRE_ERROR && m.numGroups == 0
              && (r == BRE_OK ==> LeftmostLongest(base.pat, Capped(re), base.text, m.start, m.length))
              && (r == BRE_NOMATCH ==> NoMatchAnywhere(base.pat, Capped(re), base.text))
  {
    ghost var syntax := PatternSyntax(base.pat);
    var tlen := |base.text|;
    for s := 0 to tlen + 1
      invariant m.Valid() && m.CapturesWithin(|base.text|) && m.start == -1 && m.length == 0
      invariant syntax.WellFormed? ==> m.numGroups == 0
      invariant !syntax.Grouped? ==> forall k :: 0 <= k < s ==> DerivesNothingAt(Capped(syntax.re), base.text, k)
    {
      m.ResetGroups();
      var consumed;
      r, consumed := MatchHere(base.(ti := s), m);
      if r == BRE_ERROR {
        return BRE_ERROR;
      }
      if r == BRE_OK {
        m.start := s;
        m.length := consumed;
        m.SortGroupsByStart();
        return BRE_OK;
      }
    }
    return BRE_NOMATCH;
  }

  /** Where runs fit the cap, leftmost-longest in the capped language is leftmost-longest in the declared one. */
  lemma UncappedOutcome(pattern: string, re: Regex, text: string)
    requires RunsFitCap(re, text)
    ensures forall s, n :: LeftmostLongest(pattern, Capped(re), text, s, n) ==> LeftmostLongest(pattern, re, text, s, n)
    ensures NoMatchAnywhere(pattern, Capped(re), text) <==> NoMatchAnywhere(pattern, re, text)
  {
    forall i, j ensures Derives(re, text, i, j) <==> Derives(Capped(re), text, i, j) {
      CapIsInvisible(re, text, i, j);
    }
    assert forall s :: DerivesNothingAt(Capped(re), text, s) <==> DerivesNothingAt(re, text, s);
    assert forall i, j :: Longest(Capped(re), text, i, j) ==> Longest(re, text, i, j);
  }
}
