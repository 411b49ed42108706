/** What the calls of a run of the scanner of src/lib/getopt.c return, one report after the other. */
module GetoptReports {
  import opened GetoptSpec

  datatype Ordering = REQUIRE_ORDER | PERMUTE | RETURN_IN_ORDER

  /**
   What a call returns: -1, an option letter, a long option's value, 1, `?` or `:`. `Long` and `Flag`
   also name the option found; for `Flag` the value goes to where the option points, and 0 is returned.
   */
  datatype Code = End | Short(c: char) | Long(index: nat, val: int) | Flag(index: nat, val: int) | InOrder | Question | Colon

  /** The code of a call, the argument it leaves in `optarg`, and what it puts into `optopt`, if anything. */
  datatype Report = Report(code: Code, optarg: Option<string>, optopt: Option<int>)

  predicate Complains(code: Code) { code == Question || code == Colon }

  function MissingArgument(cfg: Config, optopt: int): Report {
    Report(if Peek(cfg.opts, 0) == ':' then Colon else Question, None, Some(optopt))
  }

  function Found(longs: seq<LongOption>, k: nat, optarg: Option<string>): Report
    requires k < |longs|
  {
    Report(if longs[k].flag then Flag(k, longs[k].val) else Long(k, longs[k].val), optarg, None)
  }

  /** The long option `body`, with `next` the element behind it. */
  ghost function LongReport(cfg: Config, args: Args, next: nat, body: string): (r: Report)
    requires cfg.longs.Some?
    ensures r.code != End && (r.optopt.Some? <==> Complains(r.code))
  {
    var longs, end := cfg.longs.value, NameLength(body);
    match FindLong(longs, body[..end])
    case NoMatch => Report(Question, None, Some(0))
    case Ambiguous => Report(Question, None, Some(0))
    case Match(k) =>
      if end < |body| then
        if longs[k].hasArg == NoArgument then Report(Question, None, Some(longs[k].val))
        else Found(longs, k, Some(body[end + 1..]))
      else if longs[k].hasArg != RequiredArgument then Found(longs, k, None)
      else if next < |args| then Found(longs, k, Some(args[next]))
      else MissingArgument(cfg, longs[k].val)
  }

  /** The first of the letters `letters`, in element `i`. */
  ghost function LetterReport(cfg: Config, args: Args, i: nat, letters: string): (r: Report)
    requires letters != [] && i < |args|
    ensures r.code != End && (r.optopt.Some? <==> Complains(r.code))
  {
    var c, rest := letters[0], letters[1..];
    match Declared(cfg, c)
    case Unknown => Report(Question, None, Some(c as int))
    case Plain => Report(Short(c), None, None)
    case Optional => Report(Short(c), if rest != [] then Some(rest) else None, None)
    case Required =>
      if rest != [] then Report(Short(c), Some(rest), None)
      else if i + 1 < |args| then Report(Short(c), Some(args[i + 1]), None)
      else MissingArgument(cfg, c as int)
    case LongFollows =>
      if rest != [] then LongReport(cfg, args, i + 1, rest)
      else if i + 1 < |args| then LongReport(cfg, args, i + 2, args[i + 1])
      else MissingArgument(cfg, c as int)
  }

  /** The letters behind the first one that are still letters of the cluster. */
  function RestOfCluster(cfg: Config, letters: string): (rest: string)
    requires letters != []
    ensures |rest| < |letters|
  {
    if Declared(cfg, letters[0]).Unknown? || Declared(cfg, letters[0]).Plain? then letters[1..] else []
  }

  ghost function ClusterReports(cfg: Config, args: Args, i: nat, letters: string): seq<Report>
    requires i < |args|
    decreases |letters|
  {
    if letters == [] then []
    else [LetterReport(cfg, args, i, letters)] + ClusterReports(cfg, args, i, RestOfCluster(cfg, letters))
  }

  ghost function OptionReports(cfg: Config, args: Args, i: nat): seq<Report>
    requires i < |args| && !IsOperand(args[i])
  {
    var arg := args[i];
    if cfg.longs.Some? && arg[1] == '-' then [LongReport(cfg, args, i + 1, arg[2..])]
    else if SingleDashLong(cfg, arg) then [LongReport(cfg, args, i + 1, arg[1..])]
    else ClusterReports(cfg, args, i, arg[1..])
  }

  /** Everything that the calls report from element `i` on, in each of the three orderings. */
  ghost function Reports(cfg: Config, ordering: Ordering, args: Args, i: nat): seq<Report>
    decreases |args| - i
  {
    if i >= |args| || args[i] == "--" then []
    else if IsOperand(args[i]) then
      match ordering
      case REQUIRE_ORDER => []
      case PERMUTE => Reports(cfg, ordering, args, i + 1)
      case RETURN_IN_ORDER => [Report(InOrder, Some(args[i]), None)] + Reports(cfg, ordering, args, i + 1)
    else
      OptionEndBounds(cfg, args, i);
      OptionReports(cfg, args, i) + Reports(cfg, ordering, args, OptionEnd(cfg, args, i))
  }

  /** Where `optind` stands at the end of a run that does not permute. */
  ghost function Boundary(cfg: Config, ordering: Ordering, args: Args, i: nat): nat
    decreases |args| - i
  {
    if i >= |args| then i
    else if args[i] == "--" then i + 1
    else if IsOperand(args[i]) then
      if ordering == REQUIRE_ORDER then i else Boundary(cfg, ordering, args, i + 1)
    else
      OptionEndBounds(cfg, args, i);
      Boundary(cfg, ordering, args, OptionEnd(cfg, args, i))
  }

  // ---------------------------------------------------------------- only what lies ahead matters

  lemma LongReportSuffix(cfg: Config, args: Args, now: Args, next: nat, body: string)
    requires cfg.longs.Some? && |args| == |now| && (next < |args| ==> args[next] == now[next])
    ensures LongReport(cfg, args, next, body) == LongReport(cfg, now, next, body)
  {
  }

  lemma LetterReportSuffix(cfg: Config, args: Args, now: Args, i: nat, letters: string)
    requires letters != [] && i < |args| == |now| && args[i..] == now[i..]
    ensures LetterReport(cfg, args, i, letters) == LetterReport(cfg, now, i, letters)
  {
    forall k | i <= k < |args| ensures args[k] == now[k] {
      assert args[k] == args[i..][k - i] && now[k] == now[i..][k - i];
    }
    if Declared(cfg, letters[0]).LongFollows? {
      LongReportSuffix(cfg, args, now, i + 1, letters[1..]);
      if i + 1 < |args| {
        LongReportSuffix(cfg, args, now, i + 2, args[i + 1]);
      }
    }
  }

  lemma {:induction false} ClusterReportsSuffix(cfg: Config, args: Args, now: Args, i: nat, letters: string)
    requires i < |args| == |now| && args[i..] == now[i..]
    ensures ClusterReports(cfg, args, i, letters) == ClusterReports(cfg, now, i, letters)
    decreases |letters|
  {
    if letters != [] {
      LetterReportSuffix(cfg, args, now, i, letters);
      ClusterReportsSuffix(cfg, args, now, i, RestOfCluster(cfg, letters));
    }
  }

  lemma OptionReportsSuffix(cfg: Config, args: Args, now: Args, i: nat)
    requires i < |args| == |now| && args[i..] == now[i..] && !IsOperand(args[i])
    ensures now[i] == args[i] && OptionReports(cfg, args, i) == OptionReports(cfg, now, i)
  {
    assert now[i] == now[i..][0] == args[i..][0] == args[i];
    if i + 1 < |args| {
      assert now[i + 1] == now[i..][1] == args[i..][1] == args[i + 1];
    }
    var arg := args[i];
    if cfg.longs.Some? {
      LongReportSuffix(cfg, args, now, i + 1, arg[2..]);
      LongReportSuffix(cfg, args, now, i + 1, arg[1..]);
    }
    ClusterReportsSuffix(cfg, args, now, i, arg[1..]);
  }
}
