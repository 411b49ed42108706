/**
 What src/lib/getopt.c has to make of an argument vector: how far each option reaches, and
 which elements are options and which are operands.
 */
module GetoptSpec {

  datatype Option<T> = None | Some(value: T)

  datatype HasArg = NoArgument | RequiredArgument | OptionalArgument

  /** `flag` tells the options whose value is stored through a pointer. */
  datatype LongOption = LongOption(name: string, hasArg: HasArg, flag: bool, val: int)

  /** `opts` is the option string without its leading `+` or `-`. */
  datatype Config = Config(opts: string, longs: Option<seq<LongOption>>, longOnly: bool)

  type Args = seq<string>

  /** The test NONOPTION_P. */
  predicate IsOperand(arg: string) {
    |arg| < 2 || arg[0] != '-'
  }

  // ---------------------------------------------------------------- option letters

  /** `strchr`. */
  function IndexOf(s: string, c: char): (i: int)
    ensures i == -1 || (0 <= i < |s| && s[i] == c && c !in s[..i])
    ensures i == -1 ==> c !in s
  {
    if s == [] then -1
    else if s[0] == c then 0
    else
      var i := IndexOf(s[1..], c);
      if i == -1 then -1 else i + 1
  }

  /** The character at `i`; a string ends with a NUL. */
  function Peek(s: string, i: nat): char {
    if i < |s| then s[i] else '\0'
  }

  datatype Letter = Unknown | Plain | Required | Optional | LongFollows

  /** How the option string declares the letter `c`. */
  function Declared(cfg: Config, c: char): Letter {
    var i := IndexOf(cfg.opts, c);
    if i == -1 || c == ':' || c == ';' then Unknown
    else if c == 'W' && Peek(cfg.opts, i + 1) == ';' && cfg.longs.Some? then LongFollows
    else if Peek(cfg.opts, i + 1) != ':' then Plain
    else if Peek(cfg.opts, i + 2) == ':' then Optional
    else Required
  }

  // ---------------------------------------------------------------- long options

  function NameLength(body: string): (n: nat)
    ensures n <= |body| && '=' !in body[..n] && (n < |body| ==> body[n] == '=')
  {
    if body == [] || body[0] == '=' then 0 else 1 + NameLength(body[1..])
  }

  datatype LongMatch = NoMatch | Ambiguous | Match(index: nat)

  ghost predicate IsExact(longs: seq<LongOption>, name: string, i: int) {
    0 <= i < |longs| && longs[i].name == name
  }

  ghost predicate IsPrefix(longs: seq<LongOption>, name: string, i: int) {
    0 <= i < |longs| && name <= longs[i].name
  }

  /** An exact name wins, the first one if there are several; otherwise an unambiguous abbreviation. */
  ghost predicate Finds(longs: seq<LongOption>, name: string, m: LongMatch) {
    match m
    case Match(i) =>
      || (IsExact(longs, name, i) && forall k :: 0 <= k < i ==> !IsExact(longs, name, k))
      || (IsPrefix(longs, name, i) && forall k :: k != i ==> !IsPrefix(longs, name, k))
    case Ambiguous =>
      && (forall k :: !IsExact(longs, name, k))
      && exists i, j :: i != j && IsPrefix(longs, name, i) && IsPrefix(longs, name, j)
    case NoMatch => forall k :: !IsPrefix(longs, name, k)
  }

  lemma FindsIsUnique(longs: seq<LongOption>, name: string, m: LongMatch, n: LongMatch)
    requires Finds(longs, name, m) && Finds(longs, name, n)
    ensures m == n
  {
    assert forall k :: IsExact(longs, name, k) ==> IsPrefix(longs, name, k);
  }

  lemma FindsExists(longs: seq<LongOption>, name: string)
    ensures exists m :: Finds(longs, name, m)
  {
    if e :| IsExact(longs, name, e) {
      var i := FirstExact(longs, name, e);
      assert Finds(longs, name, Match(i));
    } else if e :| IsPrefix(longs, name, e) {
      if f :| f != e && IsPrefix(longs, name, f) {
        assert Finds(longs, name, Ambiguous);
      } else {
        assert Finds(longs, name, Match(e));
      }
    } else {
      assert Finds(longs, name, NoMatch);
    }
  }

  lemma {:induction false} FirstExact(longs: seq<LongOption>, name: string, e: nat) returns (i: nat)
    requires IsExact(longs, name, e)
    ensures IsExact(longs, name, i) && forall k :: 0 <= k < i ==> !IsExact(longs, name, k)
    decreases e
  {
    if k :| 0 <= k < e && IsExact(longs, name, k) {
      i := FirstExact(longs, name, k);
    } else {
      i := e;
    }
  }

  ghost function FindLong(longs: seq<LongOption>, name: string): (m: LongMatch)
    ensures Finds(longs, name, m)
  {
    FindsExists(longs, name);
    var m :| Finds(longs, name, m);
    m
  }

  /** A long option that must take the next element of the vector as its argument. */
  ghost predicate LongWantsNext(cfg: Config, body: string) {
    cfg.longs.Some? && NameLength(body) == |body| &&
    var m := FindLong(cfg.longs.value, body);
    m.Match? && cfg.longs.value[m.index].hasArg.RequiredArgument?
  }

  // ---------------------------------------------------------------- how far an option reaches

  function Capped(i: nat, n: nat): nat { if i <= n then i else n }

  /** Where an option ends whose remaining letters are `letters`, in element `i`. */
  ghost function ClusterEnd(cfg: Config, args: Args, i: nat, letters: string): nat
    requires i < |args|
  {
    if letters == [] then i + 1
    else
      var rest := letters[1..];
      match Declared(cfg, letters[0])
      case Unknown => ClusterEnd(cfg, args, i, rest)
      case Plain => ClusterEnd(cfg, args, i, rest)
      case Optional => i + 1
      case Required => if rest != [] then i + 1 else Capped(i + 2, |args|)
      case LongFollows =>
        if rest != [] then LongEnd(cfg, args, i, rest)
        else if i + 1 == |args| then i + 1
        else LongEnd(cfg, args, i + 1, args[i + 1])
  }

  /** Where a long option `body`, read from element `i`, ends. */
  ghost function LongEnd(cfg: Config, args: Args, i: nat, body: string): nat
    requires i < |args|
  {
    if LongWantsNext(cfg, body) then Capped(i + 2, |args|) else i + 1
  }

  /** With `longOnly`, `-name` is a long option unless it is unknown and starts with a declared letter. */
  ghost predicate SingleDashLong(cfg: Config, arg: string)
    requires !IsOperand(arg)
  {
    && cfg.longs.Some? && cfg.longOnly && (|arg| > 2 || arg[1] !in cfg.opts)
    && !(FindLong(cfg.longs.value, arg[1..][..NameLength(arg[1..])]).NoMatch? && arg[1] in cfg.opts)
  }

  /** Where the option that starts in element `i` ends, its argument included. */
  ghost function OptionEnd(cfg: Config, args: Args, i: nat): nat
    requires i < |args| && !IsOperand(args[i])
  {
    var arg := args[i];
    if cfg.longs.Some? && arg[1] == '-' then LongEnd(cfg, args, i, arg[2..])
    else if SingleDashLong(cfg, arg) then LongEnd(cfg, args, i, arg[1..])
    else ClusterEnd(cfg, args, i, arg[1..])
  }

  lemma {:induction false} ClusterEndBounds(cfg: Config, args: Args, i: nat, letters: string)
    requires i < |args|
    ensures i < ClusterEnd(cfg, args, i, letters) <= |args|
  {
    if letters != [] {
      ClusterEndBounds(cfg, args, i, letters[1..]);
    }
  }

  lemma OptionEndBounds(cfg: Config, args: Args, i: nat)
    requires i < |args| && !IsOperand(args[i])
    ensures i < OptionEnd(cfg, args, i) <= |args|
  {
    ClusterEndBounds(cfg, args, i, args[i][1..]);
  }

  /** Where an option ends depends only on the vector from its element on. */
  lemma {:induction false} ClusterEndSuffix(cfg: Config, args: Args, now: Args, i: nat, letters: string)
    requires i < |args| == |now| && args[i..] == now[i..]
    ensures ClusterEnd(cfg, args, i, letters) == ClusterEnd(cfg, now, i, letters)
  {
    if letters != [] {
      ClusterEndSuffix(cfg, args, now, i, letters[1..]);
      if i + 1 < |args| {
        assert args[i + 1] == args[i..][1] == now[i + 1];
      }
    }
  }

  lemma OptionEndSuffix(cfg: Config, args: Args, now: Args, i: nat)
    requires i < |args| == |now| && args[i..] == now[i..] && !IsOperand(args[i])
    ensures now[i] == args[i] && OptionEnd(cfg, args, i) == OptionEnd(cfg, now, i)
  {
    assert args[i] == args[i..][0] == now[i];
    ClusterEndSuffix(cfg, args, now, i, args[i][1..]);
  }

  // ---------------------------------------------------------------- the partition

  datatype Parts = Parts(options: Args, operands: Args)

  /** Options with their arguments and the `--`, and operands, each in the order of `args[i..]`. */
  ghost function Partition(cfg: Config, args: Args, i: nat): (p: Parts)
    requires i <= |args|
    ensures |p.options| + |p.operands| == |args| - i
    decreases |args| - i
  {
    if i == |args| then Parts([], [])
    else if args[i] == "--" then Parts([args[i]], args[i + 1..])
    else if IsOperand(args[i]) then
      var p := Partition(cfg, args, i + 1);
      Parts(p.options, [args[i]] + p.operands)
    else
      OptionEndBounds(cfg, args, i);
      var end := OptionEnd(cfg, args, i);
      var p := Partition(cfg, args, end);
      Parts(args[i..end] + p.options, p.operands)
  }

  /** The elements of `s` whose mask bit is `keep`, in order. */
  ghost function Select(s: Args, mask: seq<bool>, keep: bool): Args
    requires |s| == |mask|
  {
    if s == [] then []
    else if mask[0] == keep then [s[0]] + Select(s[1..], mask[1..], keep)
    else Select(s[1..], mask[1..], keep)
  }

  lemma {:induction false} SelectConcat(s: Args, m: seq<bool>, t: Args, n: seq<bool>, keep: bool)
    requires |s| == |m| && |t| == |n|
    ensures Select(s + t, m + n, keep) == Select(s, m, keep) + Select(t, n, keep)
  {
    if s == [] {
      assert s + t == t && m + n == n;
    } else {
      assert (s + t)[1..] == s[1..] + t && (m + n)[1..] == m[1..] + n;
      SelectConcat(s[1..], m[1..], t, n, keep);
    }
  }

  ghost function Constant(n: nat, b: bool): (m: seq<bool>)
    ensures |m| == n && forall k :: 0 <= k < n ==> m[k] == b
  {
    seq(n, _ => b)
  }

  lemma {:induction false} SelectConstant(s: Args, b: bool, keep: bool)
    ensures Select(s, Constant(|s|, b), keep) == if b == keep then s else []
  {
    if s != [] {
      assert Constant(|s|, b)[1..] == Constant(|s| - 1, b);
      SelectConstant(s[1..], b, keep);
      assert s == [s[0]] + s[1..];
    }
  }

  /**
   The partition is stable: some choice of positions makes the options exactly the chosen
   elements and the operands exactly the others, both in their original order.
   */
  lemma {:induction false} PartitionIsStable(cfg: Config, args: Args, i: nat) returns (mask: seq<bool>)
    requires i <= |args|
    ensures var p := Partition(cfg, args, i);
      |mask| == |args| - i && p.options == Select(args[i..], mask, true) && p.operands == Select(args[i..], mask, false)
    decreases |args| - i
  {
    if i == |args| {
      mask := [];
    } else if args[i] == "--" {
      var rest := Constant(|args| - (i + 1), false);
      mask := JoinBlock(args, i, i + 1, rest, true);
      SelectConstant(args[i + 1..], false, true);
      SelectConstant(args[i + 1..], false, false);
      assert args[i..i + 1] == [args[i]] && [args[i]] + [] == [args[i]];
    } else if IsOperand(args[i]) {
      var rest := PartitionIsStable(cfg, args, i + 1);
      mask := JoinBlock(args, i, i + 1, rest, false);
      assert args[i..i + 1] == [args[i]];
    } else {
      OptionEndBounds(cfg, args, i);
      var end := OptionEnd(cfg, args, i);
      var rest := PartitionIsStable(cfg, args, end);
      mask := JoinBlock(args, i, end, rest, true);
    }
  }

  /** Put the block `args[i..end]` of one kind in front of a mask for the rest. */
  lemma JoinBlock(args: Args, i: nat, end: nat, rest: seq<bool>, b: bool) returns (mask: seq<bool>)
    requires i <= end <= |args| && |rest| == |args| - end
    ensures |mask| == |args| - i
    ensures Select(args[i..], mask, b) == args[i..end] + Select(args[end..], rest, b)
    ensures Select(args[i..], mask, !b) == Select(args[end..], rest, !b)
  {
    mask := Constant(end - i, b) + rest;
    assert args[i..] == args[i..end] + args[end..];
    SelectConcat(args[i..end], Constant(end - i, b), args[end..], rest, b);
    SelectConcat(args[i..end], Constant(end - i, b), args[end..], rest, !b);
    SelectConstant(args[i..end], b, b);
    SelectConstant(args[i..end], b, !b);
    assert [] + Select(args[end..], rest, !b) == Select(args[end..], rest, !b);
  }
}
