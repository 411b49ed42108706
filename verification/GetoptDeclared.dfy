/** Option strings and vectors as their writers mean them, and what src/lib/getopt.c makes of them. */
module GetoptDeclared {
  // What is reported for a declared letter or a long option, and how far it reaches, follow from its kind in
  // the list of declarations alone.

  import opened GetoptSpec
  import opened GetoptReports
  import opened GetoptScanner

  // ---------------------------------------------------------------- option strings

  /** A letter alone, with an argument, with an argument that may be missing, or `W` with a long option behind it. */
  datatype Kind = Bare | Takes | MayTake | Names

  datatype Declaration = Declaration(letter: char, kind: Kind) {
    function Text(): (s: string)
      ensures s != [] && s[0] == letter
    {
      match kind
      case Bare => [letter]
      case Takes => [letter, ':']
      case MayTake => [letter, ':', ':']
      case Names => [letter, ';']
    }
  }

  function Written(ds: seq<Declaration>): string {
    if ds == [] then [] else ds[0].Text() + Written(ds[1..])
  }

  /** Letters are declared once; only `W` can name long options. */
  predicate Proper(ds: seq<Declaration>) {
    && (forall k :: 0 <= k < |ds| ==> ds[k].letter != ':' && ds[k].letter != ';' && (ds[k].kind == Names ==> ds[k].letter == 'W'))
    && forall k, l :: 0 <= k < l < |ds| ==> ds[k].letter != ds[l].letter
  }

  /** `quiet` tells an option string that starts with a colon. */
  predicate Declares(cfg: Config, quiet: bool, ds: seq<Declaration>) {
    Proper(ds) && cfg.opts == (if quiet then ":" else "") + Written(ds)
  }

  lemma {:induction false} SkipFront(s: string, t: string, c: char)
    requires c !in s
    ensures IndexOf(s + t, c) == if IndexOf(t, c) == -1 then -1 else |s| + IndexOf(t, c)
    decreases |s|
  {
    if s == [] {
      assert s + t == t;
    } else {
      assert (s + t)[1..] == s[1..] + t && s[0] in s;
      SkipFront(s[1..], t, c);
    }
  }

  lemma {:induction false} NotWritten(ds: seq<Declaration>, c: char)
    requires Proper(ds) && c != ':' && c != ';' && forall k :: 0 <= k < |ds| ==> ds[k].letter != c
    ensures IndexOf(Written(ds), c) == -1
    decreases |ds|
  {
    if ds != [] {
      ProperRest(ds);
      NotWritten(ds[1..], c);
      SkipFront(ds[0].Text(), Written(ds[1..]), c);
    }
  }

  lemma PeekBehind(s: string, t: string, i: nat)
    ensures Peek(s + t, |s| + i) == Peek(t, i)
  {
  }

  lemma ProperRest(ds: seq<Declaration>)
    requires Proper(ds) && ds != []
    ensures Proper(ds[1..])
  {
    var rest := ds[1..];
    forall k, l | 0 <= k < l < |rest| ensures rest[k].letter != rest[l].letter {
      assert ds[k + 1].letter != ds[l + 1].letter;
    }
  }

  /** What stands behind a letter in the option string tells its kind. */
  lemma {:induction false} WrittenAt(ds: seq<Declaration>, k: nat) returns (i: nat)
    requires Proper(ds) && k < |ds|
    ensures IndexOf(Written(ds), ds[k].letter) == i
    ensures Peek(Written(ds), i + 1) == ':' <==> ds[k].kind == Takes || ds[k].kind == MayTake
    ensures Peek(Written(ds), i + 1) == ';' <==> ds[k].kind == Names
    ensures Peek(Written(ds), i + 1) == ':' ==> (Peek(Written(ds), i + 2) == ':' <==> ds[k].kind == MayTake)
    decreases |ds|
  {
    hide IndexOf, Peek;
    var d, rest := ds[0], Written(ds[1..]);
    FirstIsNoColon(ds[1..]);
    if k == 0 {
      i := 0;
      FrontOf(d, rest);
    } else {
      ProperRest(ds);
      i := WrittenAt(ds[1..], k - 1);
      SkipFront(d.Text(), rest, ds[k].letter);
      PeekBehind(d.Text(), rest, i + 1);
      PeekBehind(d.Text(), rest, i + 2);
      i := |d.Text()| + i;
    }
  }

  lemma FirstIsNoColon(ds: seq<Declaration>)
    requires forall k :: 0 <= k < |ds| ==> ds[k].letter != ':' && ds[k].letter != ';'
    ensures Peek(Written(ds), 0) != ':' && Peek(Written(ds), 0) != ';'
  {
  }

  lemma FrontOf(d: Declaration, rest: string)
    requires Peek(rest, 0) != ':' && Peek(rest, 0) != ';'
    ensures var s := d.Text() + rest;
      && IndexOf(s, d.letter) == 0
      && (Peek(s, 1) == ':' <==> d.kind == Takes || d.kind == MayTake) && (Peek(s, 1) == ';' <==> d.kind == Names)
      && (Peek(s, 1) == ':' ==> (Peek(s, 2) == ':' <==> d.kind == MayTake))
  {
  }

  /** The option string is read as the list it was written from. */
  lemma ReadsDeclared(cfg: Config, quiet: bool, ds: seq<Declaration>, k: nat)
    requires Declares(cfg, quiet, ds) && k < |ds|
    ensures Declared(cfg, ds[k].letter) ==
      match ds[k].kind
      case Bare => Plain
      case Takes => Required
      case MayTake => Optional
      case Names => if cfg.longs.Some? then LongFollows else Plain
  {
    hide IndexOf, Written;
    var i := WrittenAt(ds, k);
    var front := if quiet then ":" else "";
    SkipFront(front, Written(ds), ds[k].letter);
    PeekBehind(front, Written(ds), i + 1);
    PeekBehind(front, Written(ds), i + 2);
  }

  lemma ReadsUndeclared(cfg: Config, quiet: bool, ds: seq<Declaration>, c: char)
    requires Declares(cfg, quiet, ds) && forall k :: 0 <= k < |ds| ==> ds[k].letter != c
    ensures Declared(cfg, c) == Unknown
  {
    if c != ':' && c != ';' {
      NotWritten(ds, c);
      SkipFront(if quiet then ":" else "", Written(ds), c);
    }
  }

  lemma ReadsQuiet(cfg: Config, quiet: bool, ds: seq<Declaration>)
    requires Declares(cfg, quiet, ds)
    ensures Peek(cfg.opts, 0) == ':' <==> quiet
  {
    FirstIsNoColon(ds);
    assert cfg.opts == if quiet then ":" + Written(ds) else Written(ds);
  }

  // ---------------------------------------------------------------- clusters of letters

  /** The letter is declared without an argument, or not declared: the cluster goes on behind it. */
  predicate GoesOn(ds: seq<Declaration>, c: char) {
    forall k :: 0 <= k < |ds| && ds[k].letter == c ==> ds[k].kind == Bare
  }

  predicate IsDeclared(ds: seq<Declaration>, c: char) {
    exists k :: 0 <= k < |ds| && ds[k].letter == c
  }

  /** What such a letter reports: itself, or that it is unknown. */
  function Alone(ds: seq<Declaration>, c: char): Report {
    if IsDeclared(ds, c) then Report(Short(c), None, None) else Report(Question, None, Some(c as int))
  }

  function Each(ds: seq<Declaration>, letters: string): seq<Report> {
    seq(|letters|, k requires 0 <= k < |letters| => Alone(ds, letters[k]))
  }

  /** The element is a dash and these letters, and is not taken for a long option. */
  predicate IsCluster(cfg: Config, args: Args, i: nat, letters: string) {
    && i < |args| && letters != [] && args[i] == "-" + letters
    && (cfg.longs.Some? ==> letters[0] != '-' && !cfg.longOnly)
  }

  lemma OneAlone(cfg: Config, quiet: bool, ds: seq<Declaration>, args: Args, i: nat, letters: string)
    requires Declares(cfg, quiet, ds) && i < |args| && letters != [] && GoesOn(ds, letters[0])
    ensures ClusterReports(cfg, args, i, letters) == [Alone(ds, letters[0])] + ClusterReports(cfg, args, i, letters[1..])
    ensures ClusterEnd(cfg, args, i, letters) == ClusterEnd(cfg, args, i, letters[1..])
  {
    if k :| 0 <= k < |ds| && ds[k].letter == letters[0] {
      ReadsDeclared(cfg, quiet, ds, k);
    } else {
      ReadsUndeclared(cfg, quiet, ds, letters[0]);
    }
  }

  /** Letters without arguments report one by one, in front of whatever is behind them. */
  lemma {:induction false} EachInTurn(cfg: Config, quiet: bool, ds: seq<Declaration>, args: Args, i: nat, front: string, rest: string)
    requires Declares(cfg, quiet, ds) && i < |args| && forall c :: c in front ==> GoesOn(ds, c)
    ensures ClusterReports(cfg, args, i, front + rest) == Each(ds, front) + ClusterReports(cfg, args, i, rest)
    ensures ClusterEnd(cfg, args, i, front + rest) == ClusterEnd(cfg, args, i, rest)
    decreases |front|
  {
    hide ClusterReports, ClusterEnd, Alone, Each, Declares, GoesOn;
    if front == [] {
      assert front + rest == rest;
      NoLetters(ds);
      assert [] + ClusterReports(cfg, args, i, rest) == ClusterReports(cfg, args, i, rest);
    } else {
      var letters := front + rest;
      assert letters[1..] == front[1..] + rest;
      OneAlone(cfg, quiet, ds, args, i, letters);
      EachInTurn(cfg, quiet, ds, args, i, front[1..], rest);
      FirstLetter(ds, front);
      Regroup(Alone(ds, front[0]), Each(ds, front[1..]), ClusterReports(cfg, args, i, rest));
    }
  }

  lemma NoLetters(ds: seq<Declaration>)
    ensures Each(ds, []) == []
  {
  }

  lemma FirstLetter(ds: seq<Declaration>, letters: string)
    requires letters != []
    ensures Each(ds, letters) == [Alone(ds, letters[0])] + Each(ds, letters[1..])
  {
  }

  lemma Regroup(a: Report, b: seq<Report>, c: seq<Report>)
    ensures [a] + (b + c) == [a] + b + c
  {
  }

  /** A cluster of such letters only. */
  lemma BareLettersMean(cfg: Config, quiet: bool, ds: seq<Declaration>, args: Args, i: nat, letters: string)
    requires Declares(cfg, quiet, ds) && IsCluster(cfg, args, i, letters) && forall c :: c in letters ==> GoesOn(ds, c)
    ensures !IsOperand(args[i]) && OptionReports(cfg, args, i) == Each(ds, letters) && OptionEnd(cfg, args, i) == i + 1
  {
    assert args[i][1..] == letters && letters + [] == letters;
    EachInTurn(cfg, quiet, ds, args, i, letters, []);
  }

  /** A letter declared with an argument, and the text behind it: what it reports, and where it ends. */
  ghost predicate ArgumentIs(quiet: bool, args: Args, i: nat, d: Declaration, text: string, r: Report, end: nat)
    requires i < |args|
  {
    if text != [] then r == Report(Short(d.letter), Some(text), None) && end == i + 1
    else if d.kind == MayTake then r == Report(Short(d.letter), None, None) && end == i + 1
    else if i + 1 < |args| then r == Report(Short(d.letter), Some(args[i + 1]), None) && end == i + 2
    else r == Report(if quiet then Colon else Question, None, Some(d.letter as int)) && end == i + 1
  }

  lemma LastLetter(cfg: Config, quiet: bool, ds: seq<Declaration>, args: Args, i: nat, k: nat, text: string) returns (r: Report)
    requires Declares(cfg, quiet, ds) && k < |ds| && (ds[k].kind == Takes || ds[k].kind == MayTake) && i < |args|
    ensures var letters := [ds[k].letter] + text;
      && ClusterReports(cfg, args, i, letters) == [r]
      && ArgumentIs(quiet, args, i, ds[k], text, r, ClusterEnd(cfg, args, i, letters))
  {
    hide Declares;
    var letters := [ds[k].letter] + text;
    assert letters[1..] == text;
    ReadsDeclared(cfg, quiet, ds, k);
    ReadsQuiet(cfg, quiet, ds);
    r := LetterReport(cfg, args, i, letters);
    assert ClusterReports(cfg, args, i, letters) == [r] + ClusterReports(cfg, args, i, []);
  }

  /**
   A cluster whose last letter has an argument: the text behind it if there is any, and else, where it
   must have one, the next element.
   */
  lemma ArgumentMeans(cfg: Config, quiet: bool, ds: seq<Declaration>, args: Args, i: nat, front: string, k: nat, text: string)
      returns (r: Report)
    requires Declares(cfg, quiet, ds) && k < |ds| && (ds[k].kind == Takes || ds[k].kind == MayTake)
    requires IsCluster(cfg, args, i, front + ([ds[k].letter] + text)) && forall c :: c in front ==> GoesOn(ds, c)
    ensures !IsOperand(args[i]) && OptionReports(cfg, args, i) == Each(ds, front) + [r]
    ensures ArgumentIs(quiet, args, i, ds[k], text, r, OptionEnd(cfg, args, i))
  {
    hide Declares, GoesOn, ClusterReports, ClusterEnd, ArgumentIs;
    var rest := [ds[k].letter] + text;
    assert args[i][1..] == front + rest;
    EachInTurn(cfg, quiet, ds, args, i, front, rest);
    r := LastLetter(cfg, quiet, ds, args, i, k, text);
  }

  // ---------------------------------------------------------------- long options

  /** A long option as it is written: a name, and a value behind an equals sign or none. */
  function LongText(name: string, value: Option<string>): string {
    match value
    case None => name
    case Some(v) => name + "=" + v
  }

  lemma {:induction false} NameEnds(name: string, rest: string)
    requires '=' !in name && (rest == [] || rest[0] == '=')
    ensures NameLength(name + rest) == |name|
    decreases |name|
  {
    if name == [] {
      assert name + rest == rest;
    } else {
      assert (name + rest)[1..] == name[1..] + rest && name[0] in name;
      NameEnds(name[1..], rest);
    }
  }

  lemma TextIsRead(name: string, value: Option<string>)
    requires '=' !in name
    ensures var body, n := LongText(name, value), |name|;
      NameLength(body) == n && body[..n] == name && (n < |body| <==> value.Some?) && (value.Some? ==> body[n + 1..] == value.value)
  {
    match value
    case None =>
      assert name + [] == name;
      NameEnds(name, []);
    case Some(v) =>
      assert name + "=" + v == name + ("=" + v);
      NameEnds(name, "=" + v);
  }

  /** What option `k` is reported as. */
  function CodeOf(longs: seq<LongOption>, k: nat): Code
    requires k < |longs|
  {
    if longs[k].flag then Flag(k, longs[k].val) else Long(k, longs[k].val)
  }

  /** The report for a name that finds option `k`, and how many elements it takes behind its own; `next` is the element there. */
  ghost predicate LongMeans(longs: seq<LongOption>, quiet: bool, k: nat, value: Option<string>, next: Option<string>, r: Report, used: nat)
    requires k < |longs|
  {
    match longs[k].hasArg
    case NoArgument =>
      used == 0 && r == if value.Some? then Report(Question, None, Some(longs[k].val)) else Report(CodeOf(longs, k), None, None)
    case OptionalArgument => used == 0 && r == Report(CodeOf(longs, k), value, None)
    case RequiredArgument =>
      if value.Some? then used == 0 && r == Report(CodeOf(longs, k), value, None)
      else if next.Some? then used == 1 && r == Report(CodeOf(longs, k), next, None)
      else used == 0 && r == Report(if quiet then Colon else Question, None, Some(longs[k].val))
  }

  function ElementAt(args: Args, i: nat): Option<string> {
    if i < |args| then Some(args[i]) else None
  }

  lemma BodyMeans(cfg: Config, args: Args, i: nat, name: string, value: Option<string>, m: LongMatch)
    requires cfg.longs.Some? && i < |args| && '=' !in name && Finds(cfg.longs.value, name, m)
    ensures var r, end := LongReport(cfg, args, i + 1, LongText(name, value)), LongEnd(cfg, args, i, LongText(name, value));
      match m
      case Match(k) => k < |cfg.longs.value| && i < end
        && LongMeans(cfg.longs.value, Peek(cfg.opts, 0) == ':', k, value, ElementAt(args, i + 1), r, end - i - 1)
      case _ => r == Report(Question, None, Some(0)) && end == i + 1
  {
    var body := LongText(name, value);
    TextIsRead(name, value);
    assert value.None? ==> body[..|name|] == body;
    FindsIsUnique(cfg.longs.value, name, m, FindLong(cfg.longs.value, name));
  }

  /**
   `--name` and `--name=value`: an unknown or ambiguous name is refused; otherwise the report and the end
   follow from whether the option has an argument.
   */
  lemma LongOptionMeans(cfg: Config, args: Args, i: nat, name: string, value: Option<string>, m: LongMatch)
    requires cfg.longs.Some? && i < |args| && args[i] == "--" + LongText(name, value)
    requires '=' !in name && Finds(cfg.longs.value, name, m)
    ensures !IsOperand(args[i]) && i < OptionEnd(cfg, args, i) && |OptionReports(cfg, args, i)| == 1
    ensures var r, end := OptionReports(cfg, args, i)[0], OptionEnd(cfg, args, i);
      match m
      case Match(k) => k < |cfg.longs.value|
        && LongMeans(cfg.longs.value, Peek(cfg.opts, 0) == ':', k, value, ElementAt(args, i + 1), r, end - i - 1)
      case _ => r == Report(Question, None, Some(0)) && end == i + 1
  {
    assert args[i][2..] == LongText(name, value);
    BodyMeans(cfg, args, i, name, value, m);
  }

  /** With `W;` declared, `-Wname` means what `--name` means. */
  lemma LettersNameLongOption(cfg: Config, quiet: bool, ds: seq<Declaration>, args: Args, i: nat, body: string)
    requires Declares(cfg, quiet, ds) && cfg.longs.Some? && Declaration('W', Names) in ds && body != []
    requires IsCluster(cfg, args, i, "W" + body)
    ensures var now := args[i := "--" + body];
      && !IsOperand(args[i]) && !IsOperand(now[i])
      && OptionReports(cfg, args, i) == OptionReports(cfg, now, i) && OptionEnd(cfg, args, i) == OptionEnd(cfg, now, i)
  {
    hide Declares, NameLength;
    var now := args[i := "--" + body];
    var k :| 0 <= k < |ds| && ds[k] == Declaration('W', Names);
    ReadsDeclared(cfg, quiet, ds, k);
    var letters := "W" + body;
    assert args[i][1..] == letters && letters[1..] == body && now[i][2..] == body;
    LongReportSuffix(cfg, args, now, i + 1, body);
    assert ClusterReports(cfg, args, i, letters) == [LetterReport(cfg, args, i, letters)] + ClusterReports(cfg, args, i, []);
  }

  // ---------------------------------------------------------------- whole vectors

  /**
   What a vector is made of: an operand; a cluster of letters without arguments; a cluster whose last
   letter, the `k`-th declared, has its argument in the same element, in the next one, or not at all; a
   long option, the `k`-th, with its value behind an equals sign, in the next element, or not at all.
   */
  datatype Word =
    | Operand(arg: string)
    | Letters(front: string)
    | WithText(front: string, k: nat, text: string)
    | WithNext(front: string, k: nat, next: string)
    | WithNothing(front: string, k: nat)
    | LongName(name: string, value: Option<string>, k: nat)
    | LongNext(name: string, next: string, k: nat)

  /** A cluster of letters in front of the `k`-th declared one. */
  predicate ClusterFits(cfg: Config, ds: seq<Declaration>, front: string, k: nat) {
    && (forall c :: c in front ==> GoesOn(ds, c)) && k < |ds|
    && (cfg.longs.Some? ==> !cfg.longOnly) && (front + [ds[k].letter])[0] != '-'
  }

  ghost predicate LongFits(cfg: Config, name: string, k: nat) {
    && cfg.longs.Some? && k < |cfg.longs.value| && name != [] && '=' !in name && Finds(cfg.longs.value, name, Match(k))
  }

  ghost predicate WordFits(cfg: Config, ds: seq<Declaration>, w: Word) {
    match w
    case Operand(arg) => arg == "" || arg == "-" || arg[0] != '-'
    case Letters(front) =>
      front != [] && front[0] != '-' && (forall c :: c in front ==> GoesOn(ds, c)) && (cfg.longs.Some? ==> !cfg.longOnly)
    case WithText(front, k, text) => ClusterFits(cfg, ds, front, k) && text != [] && (ds[k].kind == Takes || ds[k].kind == MayTake)
    case WithNext(front, k, _) => ClusterFits(cfg, ds, front, k) && ds[k].kind == Takes
    case WithNothing(front, k) => ClusterFits(cfg, ds, front, k) && ds[k].kind == MayTake
    case LongName(name, value, k) =>
      && LongFits(cfg, name, k)
      && cfg.longs.value[k].hasArg != if value.Some? then NoArgument else RequiredArgument
    case LongNext(name, _, k) => LongFits(cfg, name, k) && cfg.longs.value[k].hasArg == RequiredArgument
  }

  /** The elements of the vector that write the word. */
  function Elements(ds: seq<Declaration>, w: Word): Args {
    match w
    case Operand(arg) => [arg]
    case Letters(front) => ["-" + front]
    case WithText(front, k, text) => if k < |ds| then ["-" + (front + ([ds[k].letter] + text))] else []
    case WithNext(front, k, next) => if k < |ds| then ["-" + (front + ([ds[k].letter] + [])), next] else []
    case WithNothing(front, k) => if k < |ds| then ["-" + (front + ([ds[k].letter] + []))] else []
    case LongName(name, value, _) => ["--" + LongText(name, value)]
    case LongNext(name, next, _) => ["--" + LongText(name, None), next]
  }

  /** What an option word is reported as. */
  function WordReports(longs: seq<LongOption>, ds: seq<Declaration>, w: Word): seq<Report> {
    match w
    case Operand(_) => []
    case Letters(front) => Each(ds, front)
    case WithText(front, k, text) => if k < |ds| then Each(ds, front) + [Report(Short(ds[k].letter), Some(text), None)] else []
    case WithNext(front, k, next) => if k < |ds| then Each(ds, front) + [Report(Short(ds[k].letter), Some(next), None)] else []
    case WithNothing(front, k) => if k < |ds| then Each(ds, front) + [Report(Short(ds[k].letter), None, None)] else []
    case LongName(_, value, k) => if k < |longs| then [Report(CodeOf(longs, k), value, None)] else []
    case LongNext(_, next, k) => if k < |longs| then [Report(CodeOf(longs, k), Some(next), None)] else []
  }

  function Longs(cfg: Config): seq<LongOption> {
    if cfg.longs.Some? then cfg.longs.value else []
  }

  lemma ClusterWord(cfg: Config, quiet: bool, ds: seq<Declaration>, args: Args, i: nat, front: string, k: nat, text: string)
      returns (r: Report)
    requires Declares(cfg, quiet, ds) && ClusterFits(cfg, ds, front, k) && (ds[k].kind == Takes || ds[k].kind == MayTake)
    requires i < |args| && args[i] == "-" + (front + ([ds[k].letter] + text))
    ensures !IsOperand(args[i]) && args[i] != "--" && OptionReports(cfg, args, i) == Each(ds, front) + [r]
    ensures ArgumentIs(quiet, args, i, ds[k], text, r, OptionEnd(cfg, args, i))
  {
    hide Declares, GoesOn, ArgumentIs;
    var letters := front + ([ds[k].letter] + text);
    assert letters[0] == (front + [ds[k].letter])[0] == args[i][1];
    r := ArgumentMeans(cfg, quiet, ds, args, i, front, k, text);
  }

  lemma LongWord(cfg: Config, quiet: bool, ds: seq<Declaration>, args: Args, i: nat, name: string, value: Option<string>, k: nat)
    requires Declares(cfg, quiet, ds) && LongFits(cfg, name, k) && i < |args| && args[i] == "--" + LongText(name, value)
    ensures !IsOperand(args[i]) && args[i] != "--" && |OptionReports(cfg, args, i)| == 1 && i < OptionEnd(cfg, args, i)
    ensures LongMeans(cfg.longs.value, quiet, k, value, ElementAt(args, i + 1), OptionReports(cfg, args, i)[0],
                      OptionEnd(cfg, args, i) - i - 1)
  {
    hide Declares, LongMeans, Finds;
    assert args[i][2..] == LongText(name, value) != [];
    ReadsQuiet(cfg, quiet, ds);
    LongOptionMeans(cfg, args, i, name, value, Match(k));
  }

  /** A word in its place is read as what it is. */
  lemma WordMeans(cfg: Config, quiet: bool, ds: seq<Declaration>, args: Args, i: nat, w: Word)
    requires Declares(cfg, quiet, ds) && WordFits(cfg, ds, w) && i + |Elements(ds, w)| <= |args|
    requires args[i..i + |Elements(ds, w)|] == Elements(ds, w)
    ensures i < |args| && args[i] != "--" && (IsOperand(args[i]) <==> w.Operand?) && |Elements(ds, w)| > 0
    ensures w.Operand? ==> args[i] == w.arg && |Elements(ds, w)| == 1 && WordReports(Longs(cfg), ds, w) == []
    ensures !w.Operand? ==>
      OptionReports(cfg, args, i) == WordReports(Longs(cfg), ds, w) && OptionEnd(cfg, args, i) == i + |Elements(ds, w)|
  {
    hide Declares, OptionReports, OptionEnd, GoesOn, Finds, LongText;
    var slice := args[i..i + |Elements(ds, w)|];
    assert args[i] == slice[0];
    assert |slice| > 1 ==> args[i + 1] == slice[1];
    match w
    case Operand(_) =>
    case Letters(front) =>
      assert args[i][1] == front[0];
      BareLettersMean(cfg, quiet, ds, args, i, front);
    case WithText(front, k, text) => var _ := ClusterWord(cfg, quiet, ds, args, i, front, k, text);
    case WithNext(front, k, _) => var _ := ClusterWord(cfg, quiet, ds, args, i, front, k, []);
    case WithNothing(front, k) => var _ := ClusterWord(cfg, quiet, ds, args, i, front, k, []);
    case LongName(name, value, k) => LongWord(cfg, quiet, ds, args, i, name, value, k);
    case LongNext(name, _, k) => LongWord(cfg, quiet, ds, args, i, name, None, k);
  }

  /** The elements of all words, of the options alone, and of the operands alone. */
  function Flat(ds: seq<Declaration>, words: seq<Word>): Args {
    if words == [] then [] else Elements(ds, words[0]) + Flat(ds, words[1..])
  }

  function OptionsOf(ds: seq<Declaration>, words: seq<Word>): Args {
    if words == [] then [] else (if words[0].Operand? then [] else Elements(ds, words[0])) + OptionsOf(ds, words[1..])
  }

  function OperandsOf(ds: seq<Declaration>, words: seq<Word>): Args {
    if words == [] then [] else (if words[0].Operand? then [words[0].arg] else []) + OperandsOf(ds, words[1..])
  }

  /** What a run reports of the words: with RETURN_IN_ORDER operands too, with REQUIRE_ORDER nothing from the first operand on. */
  function RunReports(longs: seq<LongOption>, ds: seq<Declaration>, mode: Ordering, words: seq<Word>): seq<Report> {
    if words == [] || (words[0].Operand? && mode == REQUIRE_ORDER) then []
    else
      (if words[0].Operand? && mode == RETURN_IN_ORDER then [Report(InOrder, Some(words[0].arg), None)]
       else WordReports(longs, ds, words[0])) + RunReports(longs, ds, mode, words[1..])
  }

  /** How many elements such a run goes past. */
  function RunLength(ds: seq<Declaration>, mode: Ordering, words: seq<Word>, tail: Args): nat {
    if words == [] then if tail == [] then 0 else 1
    else if words[0].Operand? && mode == REQUIRE_ORDER then 0
    else |Elements(ds, words[0])| + RunLength(ds, mode, words[1..], tail)
  }

  /** A vector from element `i` on: words, and a `--` with anything behind it, or nothing. */
  ghost predicate MadeOf(cfg: Config, ds: seq<Declaration>, args: Args, i: nat, words: seq<Word>, tail: Args) {
    && (forall k :: 0 <= k < |words| ==> WordFits(cfg, ds, words[k])) && (tail == [] || tail[0] == "--")
    && i <= |args| && args[i..] == Flat(ds, words) + tail
  }

  lemma FirstWord(cfg: Config, quiet: bool, ds: seq<Declaration>, args: Args, i: nat, words: seq<Word>, tail: Args)
    requires Declares(cfg, quiet, ds) && MadeOf(cfg, ds, args, i, words, tail) && words != []
    ensures var w := words[0]; var n := |Elements(ds, w)|;
      && i < i + n <= |args| && args[i..i + n] == Elements(ds, w) && MadeOf(cfg, ds, args, i + n, words[1..], tail)
      && i < |args| && args[i] != "--" && (IsOperand(args[i]) <==> w.Operand?)
      && (w.Operand? ==> args[i] == w.arg && n == 1 && WordReports(Longs(cfg), ds, w) == [])
      && (!w.Operand? ==> OptionReports(cfg, args, i) == WordReports(Longs(cfg), ds, w) && OptionEnd(cfg, args, i) == i + n)
  {
    hide Declares, WordFits, Elements, OptionReports, OptionEnd, WordReports;
    var w, rest := words[0], Flat(ds, words[1..]) + tail;
    var n := |Elements(ds, w)|;
    assert args[i..] == Elements(ds, w) + rest;
    assert args[i..i + n] == args[i..][..n] == Elements(ds, w) && args[i + n..] == args[i..][n..] == rest;
    WordMeans(cfg, quiet, ds, args, i, w);
  }

  lemma EndOfWords(cfg: Config, ds: seq<Declaration>, args: Args, i: nat, tail: Args)
    requires MadeOf(cfg, ds, args, i, [], tail)
    ensures i <= |args| && (i == |args| <==> tail == [])
    ensures i < |args| ==> args[i] == "--" && args[i + 1..] == tail[1..]
  {
    assert args[i..] == tail;
    assert i < |args| ==> args[i] == tail[0];
  }

  /** A run reports what the words mean, whatever the ordering. */
  lemma {:induction false} WordsReport(cfg: Config, quiet: bool, ds: seq<Declaration>, mode: Ordering, args: Args, i: nat,
                                       words: seq<Word>, tail: Args)
    requires Declares(cfg, quiet, ds) && MadeOf(cfg, ds, args, i, words, tail)
    ensures Reports(cfg, mode, args, i) == RunReports(Longs(cfg), ds, mode, words)
    decreases |words|
  {
    hide Declares, MadeOf, OptionReports, OptionEnd, WordReports, Elements, IsOperand;
    if words == [] {
      EndOfWords(cfg, ds, args, i, tail);
    } else {
      FirstWord(cfg, quiet, ds, args, i, words, tail);
      WordsReport(cfg, quiet, ds, mode, args, i + |Elements(ds, words[0])|, words[1..], tail);
    }
  }

  /** A run that permutes puts the option words in front of the operands. */
  lemma {:induction false} WordsPartition(cfg: Config, quiet: bool, ds: seq<Declaration>, args: Args, i: nat,
                                          words: seq<Word>, tail: Args)
    requires Declares(cfg, quiet, ds) && MadeOf(cfg, ds, args, i, words, tail)
    ensures var p := Partition(cfg, args, i);
      if tail == [] then p == Parts(OptionsOf(ds, words), OperandsOf(ds, words))
      else p == Parts(OptionsOf(ds, words) + ["--"], OperandsOf(ds, words) + tail[1..])
    decreases |words|
  {
    hide Declares, MadeOf, Elements, OptionsOf, OperandsOf, Partition;
    if words == [] {
      PartitionEnd(cfg, ds, args, i, tail);
      NoParts(ds);
    } else {
      var operand := PartitionStep(cfg, quiet, ds, args, i, words, tail);
      WordsPartition(cfg, quiet, ds, args, i + |Elements(ds, words[0])|, words[1..], tail);
      FirstParts(ds, words);
      Associates(Elements(ds, words[0]), OptionsOf(ds, words[1..]), ["--"]);
      if tail != [] {
        Associates(operand, OperandsOf(ds, words[1..]), tail[1..]);
      }
    }
  }

  lemma PartitionEnd(cfg: Config, ds: seq<Declaration>, args: Args, i: nat, tail: Args)
    requires MadeOf(cfg, ds, args, i, [], tail)
    ensures i <= |args| && Partition(cfg, args, i) == if tail == [] then Parts([], []) else Parts([] + ["--"], [] + tail[1..])
  {
    EndOfWords(cfg, ds, args, i, tail);
  }

  lemma PartitionStep(cfg: Config, quiet: bool, ds: seq<Declaration>, args: Args, i: nat, words: seq<Word>, tail: Args)
      returns (operand: Args)
    requires Declares(cfg, quiet, ds) && MadeOf(cfg, ds, args, i, words, tail) && words != []
    ensures var w := words[0]; var n := |Elements(ds, w)|;
      && i < i + n <= |args| && MadeOf(cfg, ds, args, i + n, words[1..], tail)
      && var p := Partition(cfg, args, i + n);
         if w.Operand? then operand == [w.arg] && Partition(cfg, args, i) == Parts(p.options, operand + p.operands)
         else Partition(cfg, args, i) == Parts(Elements(ds, w) + p.options, p.operands)
  {
    hide Declares, MadeOf, Elements, OptionReports, OptionEnd, WordReports, IsOperand;
    FirstWord(cfg, quiet, ds, args, i, words, tail);
    operand := [args[i]];
  }

  lemma FirstParts(ds: seq<Declaration>, words: seq<Word>)
    requires words != []
    ensures var w, options, operands := words[0], OptionsOf(ds, words[1..]), OperandsOf(ds, words[1..]);
      && OptionsOf(ds, words) == (if w.Operand? then options else Elements(ds, w) + options)
      && OperandsOf(ds, words) == if w.Operand? then [w.arg] + operands else operands
  {
    hide Elements;
    var options, operands := OptionsOf(ds, words[1..]), OperandsOf(ds, words[1..]);
    assert [] + options == options && [] + operands == operands;
  }

  lemma NoParts(ds: seq<Declaration>)
    ensures OptionsOf(ds, []) == [] && OperandsOf(ds, []) == []
  {
  }

  lemma Associates(a: Args, b: Args, c: Args)
    ensures a + b + c == a + (b + c)
  {
  }

  /** A run that does not permute stops behind the words it has read. */
  lemma {:induction false} WordsBoundary(cfg: Config, quiet: bool, ds: seq<Declaration>, mode: Ordering, args: Args, i: nat,
                                         words: seq<Word>, tail: Args)
    requires Declares(cfg, quiet, ds) && MadeOf(cfg, ds, args, i, words, tail)
    ensures Boundary(cfg, mode, args, i) == i + RunLength(ds, mode, words, tail)
    decreases |words|
  {
    hide Declares, MadeOf, OptionReports, OptionEnd, WordReports, IsOperand;
    if words == [] {
      EndOfWords(cfg, ds, args, i, tail);
    } else {
      FirstWord(cfg, quiet, ds, args, i, words, tail);
      WordsBoundary(cfg, quiet, ds, mode, args, i + |Elements(ds, words[0])|, words[1..], tail);
    }
  }

  /** An option string: a sign that selects the ordering or none, a colon or none, and declarations. */
  function OptionString(sign: string, quiet: bool, ds: seq<Declaration>): string {
    sign + ((if quiet then ":" else "") + Written(ds))
  }

  predicate SignFits(sign: string, quiet: bool, ds: seq<Declaration>) {
    || sign == "+" || sign == "-"
    || (sign == "" && (!quiet && ds != [] ==> ds[0].letter != '+' && ds[0].letter != '-'))
  }

  function OrderingOf(sign: string, posixlyCorrect: bool): Ordering {
    if sign == "-" then RETURN_IN_ORDER else if sign == "+" || posixlyCorrect then REQUIRE_ORDER else PERMUTE
  }

  lemma FirstDeclared(ds: seq<Declaration>)
    ensures (Written(ds) == [] <==> ds == []) && (ds != [] ==> Written(ds)[0] == ds[0].letter)
  {
  }

  lemma OptionStringReads(sign: string, quiet: bool, ds: seq<Declaration>, longs: Option<seq<LongOption>>, longOnly: bool,
                          posixlyCorrect: bool)
    requires Proper(ds) && SignFits(sign, quiet, ds)
    ensures var s := OptionString(sign, quiet, ds); var cfg := Configured(s, longs, longOnly);
      && Declares(cfg, quiet, ds) && cfg.longs == longs && cfg.longOnly == longOnly
      && Mode(s, posixlyCorrect) == OrderingOf(sign, posixlyCorrect)
  {
    hide Proper, Written;
    FirstDeclared(ds);
    var s, rest := OptionString(sign, quiet, ds), (if quiet then ":" else "") + Written(ds);
    assert s[|sign|..] == rest;
    assert sign == "" ==> s == rest;
    assert !quiet ==> rest == Written(ds);
  }

  /** The vector in its new order: the program name, the option words, and the operands. */
  function InOrderOf(program: string, ds: seq<Declaration>, words: seq<Word>, tail: Args): Args {
    [program] + ((OptionsOf(ds, words) + if tail == [] then [] else ["--"])
                 + (OperandsOf(ds, words) + if tail == [] then [] else tail[1..]))
  }

  function OptionCount(ds: seq<Declaration>, words: seq<Word>, tail: Args): nat {
    |OptionsOf(ds, words)| + if tail == [] then 0 else 1
  }

  lemma PartitionedWords(cfg: Config, quiet: bool, ds: seq<Declaration>, args: Args, now: Args, optind: nat,
                         words: seq<Word>, tail: Args)
    requires Declares(cfg, quiet, ds) && |args| > 0 && MadeOf(cfg, ds, args, 1, words, tail)
    requires Partitioned(cfg, args, 1, now, optind)
    ensures now == InOrderOf(args[0], ds, words, tail) && optind == 1 + OptionCount(ds, words, tail)
  {
    hide Declares, MadeOf, Partition, OptionsOf, OperandsOf;
    WordsPartition(cfg, quiet, ds, args, 1, words, tail);
    assert args[..1] == [args[0]];
    assert OptionsOf(ds, words) + [] == OptionsOf(ds, words) && OperandsOf(ds, words) + [] == OperandsOf(ds, words);
  }

  /**
   A run over a vector written from words reports what the words mean.  When it permutes, the vector is
   then the program name, the option words, and the operands.
   */
  method ScanWritten(argv: array<string>, sign: string, quiet: bool, ds: seq<Declaration>, longs: Option<seq<LongOption>>,
                     longOnly: bool, posixlyCorrect: bool, ghost words: seq<Word>, ghost tail: Args)
      returns (optind: nat, reports: seq<Report>)
    requires Proper(ds) && SignFits(sign, quiet, ds) && argv.Length > 0
    requires MadeOf(Configured(OptionString(sign, quiet, ds), longs, longOnly), ds, argv[..], 1, words, tail)
    modifies argv
    ensures var mode := OrderingOf(sign, posixlyCorrect);
      && reports == RunReports(if longs.Some? then longs.value else [], ds, mode, words)
      && if mode == PERMUTE then
           argv[..] == InOrderOf(old(argv[0]), ds, words, tail) && optind == 1 + OptionCount(ds, words, tail)
         else argv[..] == old(argv[..]) && optind == 1 + RunLength(ds, mode, words, tail)
  {
    hide Declares, MadeOf, OptionString, Partitioned, Reports, Boundary, InOrderOf, OptionCount;
    ghost var args, cfg := argv[..], Configured(OptionString(sign, quiet, ds), longs, longOnly);
    ghost var mode := OrderingOf(sign, posixlyCorrect);
    OptionStringReads(sign, quiet, ds, longs, longOnly, posixlyCorrect);
    WordsReport(cfg, quiet, ds, mode, args, 1, words, tail);
    WordsBoundary(cfg, quiet, ds, mode, args, 1, words, tail);
    optind, reports := ScanAll(argv, OptionString(sign, quiet, ds), longs, longOnly, posixlyCorrect);
    if mode == PERMUTE {
      PartitionedWords(cfg, quiet, ds, args, argv[..], optind, words, tail);
    }
  }
}
