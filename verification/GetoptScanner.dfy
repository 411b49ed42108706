/**
 The scanner of src/lib/getopt.c: one call returns one option, and the state between calls
 is such that in the end the argument vector is the stable partition of what it was.
 */
module GetoptScanner {
  import opened GetoptSpec
  import opened GetoptExchange
  import opened GetoptReports

  // ---------------------------------------------------------------- the state between calls

  /**
   `argv[first..last)` holds the operands skipped so far, and the rest of `argv[start..optind)`
   the options taken so far; `rest` is what the elements from `optind` on will contribute.
   */
  ghost predicate Split(all: Parts, rest: Parts, start: nat, argv: Args, first: nat, last: nat, optind: nat) {
    && start <= first <= last <= optind <= |argv|
    && all.options == (argv[start..first] + argv[last..optind]) + rest.options
    && all.operands == argv[first..last] + rest.operands
  }

  /** The invariant of a permuting run: nothing before `start` or from `optind` on has moved. */
  ghost predicate Permuting(cfg: Config, orig: Args, start: nat, argv: Args, first: nat, last: nat, optind: nat) {
    && start <= optind <= |argv| && |argv| == |orig|
    && argv[..start] == orig[..start] && argv[optind..] == orig[optind..]
    && Split(Partition(cfg, orig, start), Partition(cfg, orig, optind), start, argv, first, last, optind)
  }

  /** The vector is the stable partition of the original, with `optind` at the boundary. */
  ghost predicate Partitioned(cfg: Config, orig: Args, start: nat, argv: Args, optind: nat) {
    && start <= |orig|
    && var all := Partition(cfg, orig, start);
       argv == orig[..start] + (all.options + all.operands) && optind == start + |all.options|
  }

  lemma SplitBounds(all: Parts, rest: Parts, start: nat, argv: Args, first: nat, last: nat, optind: nat)
    requires Split(all, rest, start, argv, first, last, optind)
    ensures start <= first <= last <= optind <= |argv|
  {
  }

  lemma PermutingBounds(cfg: Config, orig: Args, start: nat, argv: Args, first: nat, optind: nat)
    requires Permuting(cfg, orig, start, argv, first, optind, optind)
    ensures start <= first <= optind <= |argv| == |orig|
  {
  }

  lemma StartsPermuting(cfg: Config, orig: Args, start: nat)
    requires start <= |orig|
    ensures Permuting(cfg, orig, start, orig, start, start, start)
  {
    var all := Partition(cfg, orig, start);
    assert orig[start..start] == [] && ([] + []) + all.options == all.options && [] + all.operands == all.operands;
  }

  lemma SplitAfterExchange(all: Parts, rest: Parts, start: nat, argv: Args, now: Args, first: nat, last: nat, optind: nat)
    requires Split(all, rest, start, argv, first, last, optind) && Rotated(argv, now, first, last, optind)
    ensures Split(all, rest, start, now, first + (optind - last), optind, optind)
  {
    RotatedIsConcat(argv, now, first, last, optind);
    var boundary := first + (optind - last);
    assert now[start..boundary] == argv[start..first] + argv[last..optind];
    assert now[boundary..optind] == argv[first..last];
    assert now[optind..optind] == [] && now[start..boundary] + [] == now[start..boundary];
  }

  lemma ExchangeFrame(argv: Args, now: Args, start: nat, first: nat, last: nat, optind: nat)
    requires start <= first <= last <= optind <= |argv| && Rotated(argv, now, first, last, optind)
    ensures now[..start] == argv[..start] && now[optind..] == argv[optind..]
  {
  }

  lemma OperandsMoved(all: Parts, rest: Parts, start: nat, argv: Args, now: Args, first: nat, last: nat, optind: nat)
    requires Split(all, rest, start, argv, first, last, optind) && Rotated(argv, now, first, last, optind)
    ensures Split(all, rest, start, now, first + (optind - last), optind, optind)
    ensures now[..start] == argv[..start] && now[optind..] == argv[optind..]
  {
    ExchangeFrame(argv, now, start, first, last, optind);
    SplitAfterExchange(all, rest, start, argv, now, first, last, optind);
  }

  lemma SplitWithoutOperands(all: Parts, rest: Parts, start: nat, argv: Args, first: nat, optind: nat)
    requires Split(all, rest, start, argv, first, first, optind)
    ensures Split(all, rest, start, argv, optind, optind, optind)
  {
    assert argv[start..first] + argv[first..optind] == argv[start..optind];
    assert argv[optind..optind] == argv[first..first] == [] && argv[start..optind] + [] == argv[start..optind];
  }

  lemma OneMoreOperand(all: Parts, rest: Parts, next: Parts, start: nat, argv: Args, first: nat, optind: nat)
    requires Split(all, rest, start, argv, first, optind, optind) && optind < |argv|
    requires rest == Parts(next.options, [argv[optind]] + next.operands)
    ensures Split(all, next, start, argv, first, optind + 1, optind + 1)
  {
    assert argv[first..optind + 1] == argv[first..optind] + [argv[optind]];
    assert argv[optind + 1..optind + 1] == argv[optind..optind];
  }

  lemma SkipOperand(cfg: Config, orig: Args, start: nat, argv: Args, first: nat, optind: nat)
    requires Permuting(cfg, orig, start, argv, first, optind, optind) && optind < |argv| && IsOperand(argv[optind])
    ensures Permuting(cfg, orig, start, argv, first, optind + 1, optind + 1)
    ensures IsOperand(orig[optind])
  {
    hide Split;
    assert argv[optind] == argv[optind..][0] == orig[optind];
    assert argv[optind + 1..] == argv[optind..][1..];
    OneMoreOperand(Partition(cfg, orig, start), Partition(cfg, orig, optind), Partition(cfg, orig, optind + 1), start, argv, first, optind);
  }

  lemma OperandIsSilent(cfg: Config, orig: Args, i: nat)
    requires i < |orig| && IsOperand(orig[i])
    ensures Reports(cfg, PERMUTE, orig, i) == Reports(cfg, PERMUTE, orig, i + 1)
  {
  }

  lemma {:induction false} SkipOperandRun(cfg: Config, orig: Args, start: nat, argv: Args, first: nat, optind: nat, end: nat)
    requires Permuting(cfg, orig, start, argv, first, optind, optind) && optind <= end <= |argv|
    requires forall k :: optind <= k < end ==> IsOperand(argv[k])
    ensures Permuting(cfg, orig, start, argv, first, end, end)
    ensures Reports(cfg, PERMUTE, orig, optind) == Reports(cfg, PERMUTE, orig, end)
    decreases end - optind
  {
    if optind < end {
      SkipOperand(cfg, orig, start, argv, first, optind);
      OperandIsSilent(cfg, orig, optind);
      SkipOperandRun(cfg, orig, start, argv, first, optind + 1, end);
    }
  }

  /** The elements up to `end` are options: they join the block behind `last`. */
  lemma SplitAfterOptions(all: Parts, rest: Parts, start: nat, argv: Args, first: nat, last: nat, optind: nat, end: nat)
    requires optind <= end <= |argv|
    requires Split(all, Parts(argv[optind..end] + rest.options, rest.operands), start, argv, first, last, optind)
    ensures Split(all, rest, start, argv, first, last, end)
  {
    assert argv[last..end] == argv[last..optind] + argv[optind..end];
    assert (argv[start..first] + argv[last..optind]) + (argv[optind..end] + rest.options)
        == (argv[start..first] + argv[last..end]) + rest.options;
  }

  lemma TakeOption(cfg: Config, orig: Args, start: nat, argv: Args, first: nat, last: nat, optind: nat)
    requires Permuting(cfg, orig, start, argv, first, last, optind) && optind < |orig|
    requires !IsOperand(orig[optind]) && orig[optind] != "--"
    ensures optind < OptionEnd(cfg, orig, optind) <= |orig|
    ensures Permuting(cfg, orig, start, argv, first, last, OptionEnd(cfg, orig, optind))
  {
    OptionEndBounds(cfg, orig, optind);
    var end := OptionEnd(cfg, orig, optind);
    assert argv[end..] == argv[optind..][end - optind..];
    assert argv[optind..end] == argv[optind..][..end - optind] == orig[optind..end];
    SplitAfterOptions(Partition(cfg, orig, start), Partition(cfg, orig, end), start, argv, first, last, optind, end);
  }

  /** Once only operands are left, the vector is partitioned. */
  lemma SplitIsPartitioned(cfg: Config, orig: Args, start: nat, argv: Args, first: nat, optind: nat)
    requires start <= |orig| && optind <= |argv|
    requires Split(Partition(cfg, orig, start), Parts([], argv[optind..]), start, argv, first, optind, optind)
    requires argv[..start] == orig[..start]
    ensures Partitioned(cfg, orig, start, argv, first)
  {
    assert argv[optind..optind] == [] && (argv[start..first] + []) + [] == argv[start..first];
    assert argv == argv[..start] + (argv[start..first] + (argv[first..optind] + argv[optind..]));
  }

  lemma AllScanned(cfg: Config, orig: Args, start: nat, argv: Args, first: nat)
    requires Permuting(cfg, orig, start, argv, first, |argv|, |argv|)
    ensures Partitioned(cfg, orig, start, argv, first)
  {
    SplitIsPartitioned(cfg, orig, start, argv, first, |argv|);
  }

  lemma TakeDoubleDash(cfg: Config, orig: Args, start: nat, argv: Args, first: nat, optind: nat)
    requires Permuting(cfg, orig, start, argv, first, optind, optind) && optind < |orig| && orig[optind] == "--"
    ensures Split(Partition(cfg, orig, start), Parts([], orig[optind + 1..]), start, argv, first, optind, optind + 1)
    ensures argv[optind + 1..] == orig[optind + 1..]
  {
    var rest := Partition(cfg, orig, optind);
    assert rest == Parts([orig[optind]], orig[optind + 1..]);
    assert argv[optind..optind + 1] == argv[optind..][..1] == [orig[optind]];
    assert argv[optind + 1..] == argv[optind..][1..] == orig[optind..][1..];
    assert argv[optind..optind + 1] + [] == rest.options;
    SplitAfterOptions(Partition(cfg, orig, start), Parts([], orig[optind + 1..]), start, argv, first, optind, optind, optind + 1);
  }

  /** After a `--` at `optind`, with the skipped operands moved behind it. */
  lemma AfterDoubleDash(cfg: Config, orig: Args, start: nat, argv: Args, now: Args, first: nat, optind: nat)
    requires Permuting(cfg, orig, start, argv, first, optind, optind) && optind < |orig| && orig[optind] == "--"
    requires Rotated(argv, now, first, optind, optind + 1)
    ensures Partitioned(cfg, orig, start, now, first + 1)
  {
    TakeDoubleDash(cfg, orig, start, argv, first, optind);
    OperandsMoved(Partition(cfg, orig, start), Parts([], orig[optind + 1..]), start, argv, now, first, optind, optind + 1);
    SplitIsPartitioned(cfg, orig, start, now, first + 1, optind + 1);
  }

  lemma NothingSkippedRotates(argv: Args, optind: nat)
    requires optind < |argv|
    ensures Rotated(argv, argv, optind, optind, optind + 1)
  {
  }

  // ---------------------------------------------------------------- the scanner

  function Mode(optstring: string, posixlyCorrect: bool): Ordering {
    if Peek(optstring, 0) == '-' then RETURN_IN_ORDER
    else if Peek(optstring, 0) == '+' || posixlyCorrect then REQUIRE_ORDER
    else PERMUTE
  }

  /** The element behind the one that is being read. */
  ghost function NextElementAt(cfg: Config, orig: Args, i: nat, letters: string): nat {
    if letters != [] && i < |orig| then ClusterEnd(cfg, orig, i, letters) else i
  }

  /** What is still to be reported when `letters` of element `i` have not been read. */
  ghost function RemainingAt(cfg: Config, ordering: Ordering, orig: Args, i: nat, letters: string): seq<Report> {
    if letters != [] && i < |orig| then
      ClusterReports(cfg, orig, i, letters) + Reports(cfg, ordering, orig, ClusterEnd(cfg, orig, i, letters))
    else Reports(cfg, ordering, orig, i)
  }

  lemma StartedElement(cfg: Config, ordering: Ordering, orig: Args, i: nat, letters: string, r: Report)
    requires i < |orig| && !IsOperand(orig[i]) && orig[i] != "--"
    requires OptionReports(cfg, orig, i) == [r] + ClusterReports(cfg, orig, i, letters)
    requires letters != [] ==> ClusterEnd(cfg, orig, i, letters) == OptionEnd(cfg, orig, i)
    ensures var at := if letters == [] then OptionEnd(cfg, orig, i) else i;
      RemainingAt(cfg, ordering, orig, i, []) == [r] + RemainingAt(cfg, ordering, orig, at, letters)
  {
    var first, rest := ClusterReports(cfg, orig, i, letters), Reports(cfg, ordering, orig, OptionEnd(cfg, orig, i));
    assert Reports(cfg, ordering, orig, i) == OptionReports(cfg, orig, i) + rest;
    InFront(r, first, rest);
  }

  lemma InFront(r: Report, first: seq<Report>, rest: seq<Report>)
    ensures [r] + first + rest == [r] + (first + rest) && (first == [] ==> first + rest == rest)
  {
  }

  lemma ReadOneLetter(cfg: Config, ordering: Ordering, orig: Args, i: nat, letters: string, left: string, end: nat, r: Report)
    requires i < |orig| && letters != [] && left == RestOfCluster(cfg, letters) && r == LetterReport(cfg, orig, i, letters)
    requires ClusterEnd(cfg, orig, i, letters) == end && (left != [] ==> ClusterEnd(cfg, orig, i, left) == end)
    ensures var at := if left == [] then end else i;
      RemainingAt(cfg, ordering, orig, i, letters) == [r] + RemainingAt(cfg, ordering, orig, at, left)
  {
    InFront(r, ClusterReports(cfg, orig, i, left), Reports(cfg, ordering, orig, end));
  }

  class GetoptState {
    var optind: nat
    var optopt: int
    var optarg: Option<string>
    var initialized: bool
    /** What is left of the cluster being read; empty for NULL and at its end. */
    var nextchar: string
    var ordering: Ordering
    var firstNonopt: nat
    var lastNonopt: nat

    /** An option in element `optind` has been read up to `nextchar`. */
    ghost predicate InCluster(cfg: Config, orig: Args)
      reads this
    {
      && optind < |orig| && !IsOperand(orig[optind]) && orig[optind] != "--"
      && |nextchar| < |orig[optind]|
      && OptionEnd(cfg, orig, optind) == ClusterEnd(cfg, orig, optind, nextchar)
    }

    ghost predicate Arranged(cfg: Config, orig: Args, start: nat, argv: Args)
      reads this
    {
      if ordering == PERMUTE then Permuting(cfg, orig, start, argv, firstNonopt, lastNonopt, optind)
      else argv == orig && start <= firstNonopt == lastNonopt <= optind <= |orig|
    }

    /** The state between two calls of one run that started at `start` on the vector `orig`. */
    ghost predicate Between(cfg: Config, orig: Args, start: nat, argv: Args)
      reads this
    {
      initialized && Arranged(cfg, orig, start, argv) && (nextchar != [] ==> InCluster(cfg, orig))
    }

    /** How much of the vector, and of the current element, is still to be read. */
    ghost function Left(orig: Args): nat
      reads this
    {
      if optind >= |orig| then 0 else if !initialized || nextchar == [] then |orig[optind]| else |nextchar|
    }

    /** What the calls still to come will report. */
    ghost function Remaining(cfg: Config, orig: Args): seq<Report>
      reads this`nextchar, this`optind, this`ordering
    {
      RemainingAt(cfg, ordering, orig, optind, nextchar)
    }

    /** Where `optind` will end up in a run that does not permute. */
    ghost function Target(cfg: Config, orig: Args): nat
      reads this`nextchar, this`optind, this`ordering
    {
      Boundary(cfg, ordering, orig, NextElementAt(cfg, orig, optind, nextchar))
    }

    /** The call with the result `code` reports `r`; `optopt` was `before` when it began. */
    ghost predicate Reported(r: Report, code: Code, before: int)
      reads this`optarg, this`optopt
    {
      && r.code == code && r.optarg == optarg && code != End && (r.optopt.Some? <==> Complains(code))
      && optopt == if r.optopt.Some? then r.optopt.value else before
    }

    constructor ()
      ensures !initialized && optind == 1
    {
      optind, optopt, optarg, initialized, nextchar := 1, '?' as int, None, false, [];
      ordering, firstNonopt, lastNonopt := PERMUTE, 0, 0;
    }

    method Initialize(optstring: string, posixlyCorrect: bool)
      modifies this
      ensures optind == (if old(optind) == 0 then 1 else old(optind)) && firstNonopt == lastNonopt == optind
      ensures nextchar == [] && initialized && optarg == old(optarg) && optopt == old(optopt)
      ensures ordering == Mode(optstring, posixlyCorrect)
    {
      if optind == 0 {
        optind := 1;
      }
      firstNonopt, lastNonopt := optind, optind;
      nextchar := [];
      initialized := true;
      if Peek(optstring, 0) == '-' {
        ordering := RETURN_IN_ORDER;
      } else if Peek(optstring, 0) == '+' {
        ordering := REQUIRE_ORDER;
      } else if posixlyCorrect {
        ordering := REQUIRE_ORDER;
      } else {
        ordering := PERMUTE;
      }
    }

    method Exchange(argv: array<string>)
      requires firstNonopt <= lastNonopt <= optind <= argv.Length
      modifies this`firstNonopt, this`lastNonopt, argv
      ensures Rotated(old(argv[..]), argv[..], old(firstNonopt), old(lastNonopt), optind)
      ensures firstNonopt == old(firstNonopt) + (optind - old(lastNonopt)) && lastNonopt == optind
    {
      Rotate(argv, firstNonopt, lastNonopt, optind);
      firstNonopt := firstNonopt + (optind - lastNonopt);
      lastNonopt := optind;
    }

    // -------------------------------------------------------------- long options

    method FindLongOption(longs: seq<LongOption>, name: string) returns (m: LongMatch)
      ensures Finds(longs, name, m)
    {
      for idx := 0 to |longs|
        invariant forall k :: 0 <= k < idx ==> !IsExact(longs, name, k)
      {
        if longs[idx].name == name {
          return Match(idx);
        }
      }
      var matches, candidate := 0, 0;
      ghost var other := 0;
      for idx := 0 to |longs|
        invariant matches == 0 ==> forall k :: 0 <= k < idx ==> !IsPrefix(longs, name, k)
        invariant matches > 0 ==> candidate < idx && IsPrefix(longs, name, candidate)
        invariant matches == 1 ==> forall k :: 0 <= k < idx && k != candidate ==> !IsPrefix(longs, name, k)
        invariant matches > 1 ==> other != candidate && IsPrefix(longs, name, other)
      {
        if name <= longs[idx].name {
          if matches == 0 {
            candidate := idx;
          } else {
            other := idx;
          }
          matches := matches + 1;
        }
      }
      if matches > 1 {
        return Ambiguous;
      }
      return if matches == 1 then Match(candidate) else NoMatch;
    }

    /**
     Read the long option `nextchar` in element `optind`.  `taken` is false in the one case
     where a single-dash word turns out to be a cluster of short options.
     */
    method ProcessLongOption(argv: array<string>, cfg: Config, longOnly: bool) returns (taken: bool, code: Code)
      requires cfg.longs.Some? && optind < argv.Length && optarg == None
      requires longOnly ==> !IsOperand(argv[optind]) && nextchar != []
      modifies this
      ensures ordering == old(ordering) && firstNonopt == old(firstNonopt) && lastNonopt == old(lastNonopt)
      ensures initialized == old(initialized)
      ensures !taken <==> longOnly && old(argv[optind])[1] != '-' && old(nextchar)[0] in cfg.opts
                          && FindLong(cfg.longs.value, old(nextchar)[..NameLength(old(nextchar))]).NoMatch?
      ensures !taken ==> optind == old(optind) && nextchar == old(nextchar) && optarg == None && optopt == old(optopt)
      ensures taken ==> nextchar == [] && optind == LongEnd(cfg, argv[..], old(optind), old(nextchar)) && code != End
      ensures taken ==> Reported(LongReport(cfg, argv[..], old(optind) + 1, old(nextchar)), code, old(optopt))
    {
      var longs := cfg.longs.value;
      var nameEnd := NameLength(nextchar);
      var name := nextchar[..nameEnd];
      var m := FindLongOption(longs, name);
      FindsIsUnique(longs, name, m, FindLong(longs, name));
      ghost var body := nextchar;
      assert nameEnd == |body| ==> name == body;
      if m == Ambiguous {
        nextchar := [];
        optind := optind + 1;
        optopt := 0;
        return true, Question;
      }
      if m == NoMatch {
        if !longOnly || argv[optind][1] == '-' || nextchar[0] !in cfg.opts {
          nextchar := [];
          optind := optind + 1;
          optopt := 0;
          return true, Question;
        }
        return false, End;
      }
      var found := longs[m.index];
      optind := optind + 1;
      var rest := nextchar[nameEnd..];
      nextchar := [];
      if rest != [] {
        if found.hasArg != NoArgument {
          optarg := Some(rest[1..]);
        } else {
          optopt := found.val;
          return true, Question;
        }
      } else if found.hasArg == RequiredArgument {
        if optind < argv.Length {
          optarg := Some(argv[optind]);
          optind := optind + 1;
        } else {
          optopt := found.val;
          return true, if Peek(cfg.opts, 0) == ':' then Colon else Question;
        }
      } else if found.hasArg == OptionalArgument {
        optarg := None;
      }
      return true, if found.flag then Flag(m.index, found.val) else Long(m.index, found.val);
    }
 
    // -------------------------------------------------------------- the phases of a call

    /** Move the operands skipped before behind the options read since. */
    method Rearrange(argv: array<string>, ghost all: Parts, ghost rest: Parts, ghost start: nat)
      requires Split(all, rest, start, argv[..], firstNonopt, lastNonopt, optind)
      modifies this`firstNonopt, this`lastNonopt, argv
      ensures Split(all, rest, start, argv[..], firstNonopt, optind, optind)
      ensures argv[..][..start] == old(argv[..])[..start] && argv[..][optind..] == old(argv[..])[optind..]
    {
      if lastNonopt == optind {
        return;
      }
      if firstNonopt != lastNonopt {
        MoveOperands(argv, all, rest, start);
      } else {
        SplitWithoutOperands(all, rest, start, argv[..], firstNonopt, optind);
        firstNonopt := optind;
      }
    }

    method MoveOperands(argv: array<string>, ghost all: Parts, ghost rest: Parts, ghost start: nat)
      requires Split(all, rest, start, argv[..], firstNonopt, lastNonopt, optind)
      modifies this`firstNonopt, this`lastNonopt, argv
      ensures Split(all, rest, start, argv[..], firstNonopt, optind, optind)
      ensures argv[..][..start] == old(argv[..])[..start] && argv[..][optind..] == old(argv[..])[optind..]
    {
      hide Split, Rotated;
      ghost var was, first, last := argv[..], firstNonopt, lastNonopt;
      SplitBounds(all, rest, start, was, first, last, optind);
      Exchange(argv);
      OperandsMoved(all, rest, start, was, argv[..], first, last, optind);
    }

    /** Rearrange, and skip the operands that follow. */
    method SkipOperands(argv: array<string>, ghost cfg: Config, ghost orig: Args, ghost start: nat)
      requires Permuting(cfg, orig, start, argv[..], firstNonopt, lastNonopt, optind)
      modifies this`firstNonopt, this`lastNonopt, this`optind, argv
      ensures Permuting(cfg, orig, start, argv[..], firstNonopt, lastNonopt, optind)
      ensures lastNonopt == optind >= old(optind) && (optind < argv.Length ==> !IsOperand(argv[optind]))
      ensures Reports(cfg, PERMUTE, orig, optind) == Reports(cfg, PERMUTE, orig, old(optind))
    {
      Rearrange(argv, Partition(cfg, orig, start), Partition(cfg, orig, optind), start);
      SkipRun(argv, cfg, orig, start);
      lastNonopt := optind;
    }

    method SkipRun(argv: array<string>, ghost cfg: Config, ghost orig: Args, ghost start: nat)
      requires Permuting(cfg, orig, start, argv[..], firstNonopt, optind, optind)
      modifies this`optind
      ensures Permuting(cfg, orig, start, argv[..], firstNonopt, optind, optind)
      ensures optind >= old(optind) && (optind < argv.Length ==> !IsOperand(argv[optind]))
      ensures Reports(cfg, PERMUTE, orig, optind) == Reports(cfg, PERMUTE, orig, old(optind))
    {
      while optind < argv.Length && IsOperand(argv[optind])
        invariant old(optind) <= optind <= argv.Length
        invariant forall k :: old(optind) <= k < optind ==> IsOperand(argv[k])
      {
        optind := optind + 1;
      }
      SkipOperandRun(cfg, orig, start, argv[..], firstNonopt, old(optind), optind);
    }

    /** A `--` at `optind` ends the run. */
    method EndOptions(argv: array<string>, ghost cfg: Config, ghost orig: Args, ghost start: nat)
      requires firstNonopt <= lastNonopt <= optind < argv.Length
      requires ordering == PERMUTE ==>
          && lastNonopt == optind < |orig| && orig[optind] == "--"
          && Permuting(cfg, orig, start, argv[..], firstNonopt, optind, optind)
      requires ordering != PERMUTE ==> firstNonopt == lastNonopt
      modifies this`firstNonopt, this`lastNonopt, this`optind, argv
      ensures ordering == PERMUTE ==> Partitioned(cfg, orig, start, argv[..], optind)
      ensures ordering != PERMUTE ==> argv[..] == old(argv[..]) && optind == old(optind) + 1
    {
      if firstNonopt != lastNonopt {
        MoveBehindDash(argv, cfg, orig, start);
      } else {
        if ordering == PERMUTE {
          NothingSkippedRotates(argv[..], optind);
          AfterDoubleDash(cfg, orig, start, argv[..], argv[..], firstNonopt, optind);
        }
        optind := optind + 1;
        firstNonopt := optind;
      }
      CloseRun(argv.Length);
    }

    /** The operands skipped before the `--` at `optind` go behind it. */
    method MoveBehindDash(argv: array<string>, ghost cfg: Config, ghost orig: Args, ghost start: nat)
      requires lastNonopt == optind < |orig| == argv.Length && orig[optind] == "--"
      requires Permuting(cfg, orig, start, argv[..], firstNonopt, optind, optind)
      modifies this`firstNonopt, this`lastNonopt, this`optind, argv
      ensures Partitioned(cfg, orig, start, argv[..], firstNonopt) && firstNonopt <= argv.Length
    {
      hide Permuting, Partition, Partitioned, Rotated;
      ghost var was, first, dash := argv[..], firstNonopt, optind;
      PermutingBounds(cfg, orig, start, was, first, dash);
      optind := optind + 1;
      Exchange(argv);
      AfterDoubleDash(cfg, orig, start, was, argv[..], first, dash);
    }

    /** All of the vector has been scanned; the operands start at `firstNonopt`. */
    method CloseRun(argc: nat)
      requires firstNonopt <= argc
      modifies this`lastNonopt, this`optind
      ensures optind == firstNonopt
    {
      lastNonopt := argc;
      optind := argc;
      if firstNonopt != lastNonopt {
        optind := firstNonopt;
      }
    }

    /** The next letter of the cluster in element `optind`. */
    method ShortOption(argv: array<string>, cfg: Config) returns (code: Code)
      requires optind < argv.Length && nextchar != [] && optarg == None
      modifies this
      ensures ordering == old(ordering) && firstNonopt == old(firstNonopt) && lastNonopt == old(lastNonopt)
      ensures initialized == old(initialized) && code != End
      ensures var end := ClusterEnd(cfg, argv[..], old(optind), old(nextchar));
        if nextchar == [] then optind == end
        else optind == old(optind) && |nextchar| < |old(nextchar)| && ClusterEnd(cfg, argv[..], optind, nextchar) == end
      ensures nextchar == RestOfCluster(cfg, old(nextchar))
      ensures Reported(LetterReport(cfg, argv[..], old(optind), old(nextchar)), code, old(optopt))
    {
      hide LongEnd, LongReport, MissingArgument;
      var c := nextchar[0];
      nextchar := nextchar[1..];
      var temp := IndexOf(cfg.opts, c);
      if nextchar == [] {
        optind := optind + 1;
      }
      if temp == -1 || c == ':' || c == ';' {
        optopt := c as int;
        return Question;
      }
      if c == 'W' && Peek(cfg.opts, temp + 1) == ';' && cfg.longs.Some? {
        code := LongAfterW(argv, cfg, old(optind), c);
        return;
      }
      if Peek(cfg.opts, temp + 1) == ':' {
        code := TakeArgument(argv, cfg, old(optind), c, Peek(cfg.opts, temp + 2) == ':');
        return;
      }
      return Short(c);
    }

    /** The long option behind a `W`, in the same element `i` or in the next one. */
    method LongAfterW(argv: array<string>, cfg: Config, ghost i: nat, c: char) returns (code: Code)
      requires i < argv.Length && cfg.longs.Some? && optarg == None && optind == if nextchar == [] then i + 1 else i
      modifies this
      ensures ordering == old(ordering) && firstNonopt == old(firstNonopt) && lastNonopt == old(lastNonopt)
      ensures initialized == old(initialized) && code != End && nextchar == []
      ensures var args, rest := argv[..], old(nextchar);
        if rest == [] && i + 1 == |args| then
          optind == i + 1 && Reported(MissingArgument(cfg, c as int), code, old(optopt))
        else
          && optind == LongEnd(cfg, args, if rest != [] then i else i + 1, if rest != [] then rest else args[i + 1])
          && Reported(LongReport(cfg, args, if rest != [] then i + 1 else i + 2, if rest != [] then rest else args[i + 1]),
                      code, old(optopt))
    {
      if nextchar != [] {
      } else if optind == argv.Length {
        optopt := c as int;
        return if Peek(cfg.opts, 0) == ':' then Colon else Question;
      } else {
        nextchar := argv[optind];
      }
      optarg := None;
      var taken;
      taken, code := ProcessLongOption(argv, cfg, false);
    }

    /** The argument of the letter `c`, in the same element `i` or, if it is required, in the next one. */
    method TakeArgument(argv: array<string>, cfg: Config, ghost i: nat, c: char, optional: bool) returns (code: Code)
      requires i < argv.Length && optarg == None && optind == if nextchar == [] then i + 1 else i
      modifies this`optind, this`optopt, this`optarg, this`nextchar
      ensures nextchar == [] && code != End
      ensures var rest := old(nextchar);
        if rest != [] then Reported(Report(Short(c), Some(rest), None), code, old(optopt)) && optind == i + 1
        else if optional then Reported(Report(Short(c), None, None), code, old(optopt)) && optind == i + 1
        else if i + 1 < argv.Length then
          Reported(Report(Short(c), Some(argv[i + 1]), None), code, old(optopt)) && optind == i + 2
        else Reported(MissingArgument(cfg, c as int), code, old(optopt)) && optind == i + 1
    {
      if optional {
        if nextchar != [] {
          optarg := Some(nextchar);
          optind := optind + 1;
        } else {
          optarg := None;
        }
      } else {
        if nextchar != [] {
          optarg := Some(nextchar);
          optind := optind + 1;
        } else if optind == argv.Length {
          optopt := c as int;
          return if Peek(cfg.opts, 0) == ':' then Colon else Question;
        } else {
          optarg := Some(argv[optind]);
          optind := optind + 1;
        }
      }
      nextchar := [];
      return Short(c);
    }

    /** The first letter, or all, of the option in element `optind`. */
    method StartElement(argv: array<string>, cfg: Config) returns (code: Code, ghost r: Report)
      requires optind < argv.Length && !IsOperand(argv[optind]) && argv[optind] != "--" && optarg == None
      modifies this
      ensures ordering == old(ordering) && firstNonopt == old(firstNonopt) && lastNonopt == old(lastNonopt)
      ensures initialized == old(initialized) && code != End
      ensures var i, end := old(optind), OptionEnd(cfg, argv[..], old(optind));
        if nextchar == [] then optind == end
        else optind == i && |nextchar| < |argv[i]| && ClusterEnd(cfg, argv[..], i, nextchar) == end
      ensures Reported(r, code, old(optopt))
      ensures OptionReports(cfg, argv[..], old(optind)) == [r] + ClusterReports(cfg, argv[..], old(optind), nextchar)
    {
      var arg := argv[optind];
      if cfg.longs.Some? {
        if arg[1] == '-' {
          nextchar := arg[2..];
          r := LongReport(cfg, argv[..], optind + 1, nextchar);
          var taken;
          taken, code := ProcessLongOption(argv, cfg, cfg.longOnly);
          return;
        }
        if cfg.longOnly && (|arg| > 2 || arg[1] !in cfg.opts) {
          nextchar := arg[1..];
          r := LongReport(cfg, argv[..], optind + 1, nextchar);
          var taken;
          taken, code := ProcessLongOption(argv, cfg, cfg.longOnly);
          if taken {
            return;
          }
        }
      }
      nextchar := arg[1..];
      r := LetterReport(cfg, argv[..], optind, nextchar);
      code := ShortOption(argv, cfg);
    }

    /** Read on in the current element. */
    method ReadElement(argv: array<string>, cfg: Config, ghost orig: Args) returns (code: Code, ghost r: Report)
      requires optind < argv.Length == |orig| && argv[..][optind..] == orig[optind..] && optarg == None
      requires if nextchar == [] then !IsOperand(argv[optind]) && argv[optind] != "--" else InCluster(cfg, orig)
      modifies this
      ensures ordering == old(ordering) && firstNonopt == old(firstNonopt) && lastNonopt == old(lastNonopt)
      ensures initialized == old(initialized)
      ensures var i := old(optind);
        && !IsOperand(orig[i]) && orig[i] != "--"
        && var end := OptionEnd(cfg, orig, i);
        && NextElementAt(cfg, orig, optind, nextchar) == end && i < end <= |orig|
        && if nextchar == [] then optind == end
           else optind == i && |nextchar| < |orig[i]| && (old(nextchar) != [] ==> |nextchar| < |old(nextchar)|)
      ensures Reported(r, code, old(optopt))
      ensures RemainingAt(cfg, ordering, orig, old(optind), old(nextchar)) == [r] + RemainingAt(cfg, ordering, orig, optind, nextchar)
    {
      ghost var now, i := argv[..], optind;
      assert now[i] == now[i..][0] == orig[i];
      OptionEndBounds(cfg, orig, i);
      if nextchar == [] {
        OptionEndSuffix(cfg, orig, now, i);
        OptionReportsSuffix(cfg, orig, now, i);
        code, r := StartElement(argv, cfg);
        ClusterEndSuffix(cfg, orig, now, i, nextchar);
        ClusterReportsSuffix(cfg, orig, now, i, nextchar);
        StartedElement(cfg, ordering, orig, i, nextchar, r);
      } else {
        code, r := ReadOn(argv, cfg, orig);
      }
    }

    method ReadOn(argv: array<string>, cfg: Config, ghost orig: Args) returns (code: Code, ghost r: Report)
      requires optind < argv.Length == |orig| && argv[..][optind..] == orig[optind..] && optarg == None
      requires nextchar != [] && InCluster(cfg, orig)
      modifies this
      ensures ordering == old(ordering) && firstNonopt == old(firstNonopt) && lastNonopt == old(lastNonopt)
      ensures initialized == old(initialized)
      ensures NextElementAt(cfg, orig, optind, nextchar) == OptionEnd(cfg, orig, old(optind))
      ensures nextchar != [] ==> optind == old(optind)
      ensures |nextchar| < |old(nextchar)|
      ensures Reported(r, code, old(optopt))
      ensures RemainingAt(cfg, ordering, orig, old(optind), old(nextchar)) == [r] + RemainingAt(cfg, ordering, orig, optind, nextchar)
    {
      ghost var now, i, letters := argv[..], optind, nextchar;
      ClusterEndSuffix(cfg, orig, now, i, nextchar);
      LetterReportSuffix(cfg, orig, now, i, nextchar);
      r := LetterReport(cfg, now, i, nextchar);
      code := ShortOption(argv, cfg);
      ClusterEndSuffix(cfg, orig, now, i, nextchar);
      ReadOneLetter(cfg, ordering, orig, i, letters, nextchar, OptionEnd(cfg, orig, i), r);
    }

    /** Read on in the current element, which keeps the state in order. */
    method ReadOption(argv: array<string>, cfg: Config, ghost orig: Args, ghost start: nat) returns (code: Code, ghost r: Report)
      requires initialized && Arranged(cfg, orig, start, argv[..]) && optind < argv.Length && optarg == None
      requires if nextchar == [] then !IsOperand(argv[optind]) && argv[optind] != "--" else InCluster(cfg, orig)
      modifies this
      ensures Between(cfg, orig, start, argv[..]) && code != End && ordering == old(ordering)
      ensures optind > old(optind) || (optind == old(optind) && Left(orig) < old(Left(orig)))
      ensures Reported(r, code, old(optopt))
      ensures old(Remaining(cfg, orig)) == [r] + Remaining(cfg, orig) && Target(cfg, orig) == old(Target(cfg, orig))
    {
      ghost var now, i, first, last := argv[..], optind, firstNonopt, lastNonopt;
      assert now[i..] == orig[i..] && |now| == |orig|;
      code, r := ReadElement(argv, cfg, orig);
      if nextchar == [] && ordering == PERMUTE {
        TakeOption(cfg, orig, start, now, first, last, i);
      }
    }

    /** The run is over: the vector is partitioned, or has been left alone. */
    ghost predicate Over(cfg: Config, orig: Args, start: nat, argv: Args)
      reads this
    {
      if ordering == PERMUTE then Partitioned(cfg, orig, start, argv, optind) else argv == orig
    }

    /** Find the next option; `done` when the call returns without one. */
    method NextElement(argv: array<string>, cfg: Config, ghost orig: Args, ghost start: nat) returns (done: bool, code: Code)
      requires initialized && Arranged(cfg, orig, start, argv[..]) && nextchar == [] && optarg == None
      modifies this`firstNonopt, this`lastNonopt, this`optind, this`optarg, argv
      ensures done ==> code == End || code == InOrder
      ensures done && code == End ==>
                && Over(cfg, orig, start, argv[..]) && old(Remaining(cfg, orig)) == []
                && (ordering != PERMUTE ==> optind == old(Target(cfg, orig)))
      ensures done && code == InOrder ==>
                && Arranged(cfg, orig, start, argv[..]) && optind > old(optind)
                && old(Remaining(cfg, orig)) == [Report(InOrder, optarg, None)] + Remaining(cfg, orig)
                && Target(cfg, orig) == old(Target(cfg, orig))
      ensures !done ==>
                && Arranged(cfg, orig, start, argv[..]) && optind >= old(optind) && optarg == None
                && optind < argv.Length && !IsOperand(argv[optind]) && argv[optind] != "--"
                && Remaining(cfg, orig) == old(Remaining(cfg, orig))
                && (ordering != PERMUTE ==> Target(cfg, orig) == old(Target(cfg, orig)))
    {
      if ordering == PERMUTE {
        SkipOperands(argv, cfg, orig, start);
      }
      done, code := LookAt(argv, cfg, orig, start);
    }

    /** What stands at `optind`: the end, a `--`, an operand or an option. */
    method LookAt(argv: array<string>, cfg: Config, ghost orig: Args, ghost start: nat) returns (done: bool, code: Code)
      requires initialized && Arranged(cfg, orig, start, argv[..]) && nextchar == [] && optarg == None
      requires ordering == PERMUTE ==> lastNonopt == optind && (optind < argv.Length ==> !IsOperand(argv[optind]))
      modifies this`firstNonopt, this`lastNonopt, this`optind, this`optarg, argv
      ensures done ==> code == End || code == InOrder
      ensures done && code == End ==>
                && Over(cfg, orig, start, argv[..]) && old(Remaining(cfg, orig)) == []
                && (ordering != PERMUTE ==> optind == old(Target(cfg, orig)))
      ensures done && code == InOrder ==>
                && ordering == RETURN_IN_ORDER && argv[..] == orig
                && Arranged(cfg, orig, start, argv[..]) && optind == old(optind) + 1
                && old(Remaining(cfg, orig)) == [Report(InOrder, optarg, None)] + Remaining(cfg, orig)
                && Target(cfg, orig) == old(Target(cfg, orig))
      ensures !done ==>
                && Arranged(cfg, orig, start, argv[..]) && optind == old(optind) && optarg == None
                && optind < argv.Length && !IsOperand(argv[optind]) && argv[optind] != "--"
    {
      ghost var now, i := argv[..], optind;
      assert now[i..] == orig[i..] && (i < |orig| ==> now[i] == now[i..][0] == orig[i]);
      if optind != argv.Length && argv[optind] == "--" {
        EndOptions(argv, cfg, orig, start);
        return true, End;
      }
      if optind == argv.Length {
        if ordering == PERMUTE {
          AllScanned(cfg, orig, start, now, firstNonopt);
        }
        if firstNonopt != lastNonopt {
          optind := firstNonopt;
        }
        return true, End;
      }
      if IsOperand(argv[optind]) {
        if ordering == REQUIRE_ORDER {
          return true, End;
        }
        optarg := Some(argv[optind]);
        optind := optind + 1;
        return true, InOrder;
      }
      return false, End;
    }

    /** The scanner may be called: for the first time, or again in the same run. */
    ghost predicate Ready(cfg: Config, orig: Args, start: nat, argv: Args)
      reads this
    {
      if optind == 0 || !initialized then argv == orig && start == (if optind == 0 then 1 else optind) <= |orig|
      else Between(cfg, orig, start, argv)
    }

    /** What is still to be reported, also before the first call, which will set the ordering to `mode`. */
    ghost function Pending(cfg: Config, orig: Args, start: nat, mode: Ordering): seq<Report>
      reads this
    {
      if optind == 0 || !initialized then Reports(cfg, mode, orig, start) else Remaining(cfg, orig)
    }

    ghost function PendingTarget(cfg: Config, orig: Args, start: nat, mode: Ordering): nat
      reads this
    {
      if optind == 0 || !initialized then Boundary(cfg, mode, orig, start) else Target(cfg, orig)
    }

    /** The first call of a run sets the state up. */
    method Prepare(optstring: string, posixlyCorrect: bool, ghost cfg: Config, ghost orig: Args, ghost start: nat, ghost argv: Args)
      requires Ready(cfg, orig, start, argv)
      modifies this
      ensures Between(cfg, orig, start, argv) && optarg == None && optopt == old(optopt)
      ensures ordering == if old(optind == 0 || !initialized) then Mode(optstring, posixlyCorrect) else old(ordering)
      ensures optind > old(optind) || (optind == old(optind) && Left(orig) == old(Left(orig)))
      ensures Remaining(cfg, orig) == old(Pending(cfg, orig, start, Mode(optstring, posixlyCorrect)))
      ensures Target(cfg, orig) == old(PendingTarget(cfg, orig, start, Mode(optstring, posixlyCorrect)))
    {
      optarg := None;
      if optind == 0 || !initialized {
        Initialize(optstring, posixlyCorrect);
        StartsPermuting(cfg, orig, start);
      }
    }

    /** A call on a state that has been set up; `r` is what it reports. */
    method Next(argv: array<string>, cfg: Config, ghost orig: Args, ghost start: nat) returns (code: Code, ghost r: Report)
      requires Between(cfg, orig, start, argv[..]) && optarg == None
      modifies this, argv
      ensures ordering == old(ordering)
      ensures code == End ==>
                && Over(cfg, orig, start, argv[..]) && old(Remaining(cfg, orig)) == []
                && (ordering != PERMUTE ==> optind == old(Target(cfg, orig)))
      ensures code != End ==>
                && Between(cfg, orig, start, argv[..])
                && (optind > old(optind) || (optind == old(optind) && Left(orig) < old(Left(orig))))
                && Reported(r, code, old(optopt)) && old(Remaining(cfg, orig)) == [r] + Remaining(cfg, orig)
                && (ordering != PERMUTE ==> Target(cfg, orig) == old(Target(cfg, orig)))
    {
      if nextchar == [] {
        var done;
        done, code := NextElement(argv, cfg, orig, start);
        if done {
          r := Report(InOrder, optarg, None);
          return;
        }
      } else {
        assert argv[..][optind..] == orig[optind..];
      }
      code, r := ReadOption(argv, cfg, orig, start);
    }

    /** `_getopt_internal_r`.  The run started at `start`, on the vector `orig`. */
    method GetoptInternalR(argv: array<string>, optstring: string, longopts: Option<seq<LongOption>>, longOnly: bool,
                           posixlyCorrect: bool, ghost orig: Args, ghost start: nat) returns (code: Code, ghost r: Report)
      requires argv.Length > 0 ==> Ready(Configured(optstring, longopts, longOnly), orig, start, argv[..])
      modifies this, argv
      ensures argv.Length == 0 ==> code == End
      ensures argv.Length > 0 ==>
                ordering == if old(optind == 0 || !initialized) then Mode(optstring, posixlyCorrect) else old(ordering)
      ensures argv.Length > 0 && code != End ==>
                var cfg, mode := Configured(optstring, longopts, longOnly), Mode(optstring, posixlyCorrect);
                && Between(cfg, orig, start, argv[..])
                && (optind > old(optind) || (optind == old(optind) && Left(orig) < old(Left(orig))))
                && Reported(r, code, old(optopt)) && old(Pending(cfg, orig, start, mode)) == [r] + Remaining(cfg, orig)
                && (ordering != PERMUTE ==> Target(cfg, orig) == old(PendingTarget(cfg, orig, start, mode)))
      ensures argv.Length > 0 && code == End ==>
                var cfg, mode := Configured(optstring, longopts, longOnly), Mode(optstring, posixlyCorrect);
                && Over(cfg, orig, start, argv[..]) && old(Pending(cfg, orig, start, mode)) == []
                && (ordering != PERMUTE ==> optind == old(PendingTarget(cfg, orig, start, mode)))
    {
      r := Report(End, None, None);
      if argv.Length < 1 {
        return End, r;
      }
      var cfg := Configured(optstring, longopts, longOnly);
      Prepare(optstring, posixlyCorrect, cfg, orig, start, argv[..]);
      code, r := Next(argv, cfg, orig, start);
    }
  }

  /** The options as the scanner sees them, without the leading `+` or `-`. */
  function Configured(optstring: string, longopts: Option<seq<LongOption>>, longOnly: bool): Config {
    Config(if Peek(optstring, 0) == '+' || Peek(optstring, 0) == '-' then optstring[1..] else optstring, longopts, longOnly)
  }

  /**
   A whole run: call until there is nothing left.  It ends, and its calls report exactly what the
   vector denotes.  In PERMUTE mode it leaves the vector as the stable partition of what it was, in
   the other modes it leaves it alone and stops at the declared place.
   */
  method ScanAll(argv: array<string>, optstring: string, longopts: Option<seq<LongOption>>, longOnly: bool, posixlyCorrect: bool)
      returns (optind: nat, reports: seq<Report>)
    requires argv.Length > 0
    modifies argv
    ensures var cfg, mode := Configured(optstring, longopts, longOnly), Mode(optstring, posixlyCorrect);
      && reports == Reports(cfg, mode, old(argv[..]), 1)
      && if mode == PERMUTE then Partitioned(cfg, old(argv[..]), 1, argv[..], optind)
         else argv[..] == old(argv[..]) && optind == Boundary(cfg, mode, old(argv[..]), 1)
    ensures forall k :: 0 <= k < |reports| ==> reports[k].code != End
  {
    ghost var orig, cfg, mode := argv[..], Configured(optstring, longopts, longOnly), Mode(optstring, posixlyCorrect);
    ghost var left := Reports(cfg, mode, orig, 1);
    ghost var all := left;
    var st := new GetoptState();
    reports := [];
    while true
      invariant fresh(st) && st.Ready(cfg, orig, 1, argv[..])
      invariant st.initialized ==> st.ordering == mode
      invariant all == reports + left && left == st.Pending(cfg, orig, 1, mode)
      invariant mode != PERMUTE ==> st.PendingTarget(cfg, orig, 1, mode) == Boundary(cfg, mode, orig, 1)
      invariant forall k :: 0 <= k < |reports| ==> reports[k].code != End
      decreases |orig| + 1 - st.optind, st.Left(orig)
    {
      var code, report;
      ghost var pending := left;
      code, report, left := NextReport(st, argv, optstring, longopts, longOnly, posixlyCorrect, orig, left);
      if code == End {
        return st.optind, reports;
      }
      OneMoreReport(reports, report, pending, left);
      reports := reports + [report];
    }
  }

  /** One call, and what a caller sees of it. */
  method NextReport(st: GetoptState, argv: array<string>, optstring: string, longopts: Option<seq<LongOption>>, longOnly: bool,
                    posixlyCorrect: bool, ghost orig: Args, ghost pending: seq<Report>)
      returns (code: Code, report: Report, ghost left: seq<Report>)
    requires argv.Length > 0 && st.Ready(Configured(optstring, longopts, longOnly), orig, 1, argv[..])
    requires st.initialized ==> st.ordering == Mode(optstring, posixlyCorrect)
    requires pending == st.Pending(Configured(optstring, longopts, longOnly), orig, 1, Mode(optstring, posixlyCorrect))
    modifies st, argv
    ensures var cfg, mode := Configured(optstring, longopts, longOnly), Mode(optstring, posixlyCorrect);
      && st.ordering == mode
      && if code == End then
           && st.Over(cfg, orig, 1, argv[..]) && pending == []
           && (mode != PERMUTE ==> st.optind == old(st.PendingTarget(cfg, orig, 1, mode)))
         else
           && st.Between(cfg, orig, 1, argv[..]) && st.optind > 0
           && (st.optind > old(st.optind) || (st.optind == old(st.optind) && st.Left(orig) < old(st.Left(orig))))
           && report.code == code && pending == [report] + left && left == st.Remaining(cfg, orig)
           && (mode != PERMUTE ==> st.Target(cfg, orig) == old(st.PendingTarget(cfg, orig, 1, mode)))
  {
    ghost var r;
    code, r := st.GetoptInternalR(argv, optstring, longopts, longOnly, posixlyCorrect, orig, 1);
    report := Report(code, st.optarg, if Complains(code) then Some(st.optopt) else None);
    left := st.Remaining(Configured(optstring, longopts, longOnly), orig);
  }

  lemma OneMoreReport(done: seq<Report>, r: Report, pending: seq<Report>, left: seq<Report>)
    requires pending == [r] + left
    ensures done + pending == done + [r] + left
  {
  }
}
