/**
 * How `Evaluate` treats typical and unusual command lines, stated over
 * arbitrary program names, option names and values.
 */
module EvaluationExamples {
  import opened Strings
  import opened Datatypes
  import opened OptionNames
  import opened Registries
  import opened Evaluator

  /** `--n` names the option `n`: it splits into one piece and loses its prefix. */
  lemma LongToken(n: string)
    requires '=' !in n
    ensures Split("--" + n, '=') == ["--" + n] && TokenName("--" + n) == n
  {
    assert '=' !in "--" + n;
    SplitNoSep("--" + n, '=');
    OptionNamePrefixes(n);
  }

  /** `-n` names the option `n` when `n` does not itself start with a dash. */
  lemma ShortToken(n: string)
    requires '=' !in n && !IsOption(n)
    ensures Split("-" + n, '=') == ["-" + n] && TokenName("-" + n) == n
  {
    assert '=' !in "-" + n;
    SplitNoSep("-" + n, '=');
    OptionNamePrefixes(n);
  }

  /**
   * `prog --help file1 file2`, `help` taking no arguments: `prog` is self,
   * `help` is recorded at position 0 with no values, and the files are the
   * extra arguments.
   */
  lemma {:induction false} OptionThenExtras(reg: Registry, prog: string, n: string, files: seq<string>)
    requires reg.Valid() && reg.PlainNames()
    requires !IsOption(prog) && '=' !in n && n in reg.aliases
    requires reg.defs[reg.aliases[n]].numArgs == 0
    requires files == [] || !IsOption(files[0])
    ensures EvalSpec(reg, [prog, "--" + n] + files)
            == Evaluation(map[reg.defs[reg.aliases[n]].name := Opt([], 0)], Wrap(files), prog, Ok)
  {
    var args := [prog, "--" + n] + files;
    var long := reg.defs[reg.aliases[n]].name;
    assert args[0] == prog && args[1] == "--" + n && args[2..] == files;
    LongToken(n);
    assert TrimAll(args[2..2]) == [];
    assert ArgSpec(reg, args, 1) == Arg(long, [], 2);
    assert ScanFrom(reg, args, 2) == Scan([], 2, Ok) by {
      if files != [] {
        assert args[2] == files[0];
        assert ArgSpec(reg, args, 2) == Arg("", [], 2);
      }
    }
    ScanStep(reg, args, 1);
    assert GetOptionName(long) == long;
    RecordOnce(Occurrence(long, []));
  }

  /** `prog --position 1` with `position` taking two arguments: too few, one available, two needed. */
  lemma {:induction false} MissingArguments(reg: Registry, prog: string, n: string, rest: seq<string>)
    requires reg.Valid() && !IsOption(prog) && '=' !in n && n in reg.aliases
    requires |rest| < reg.defs[reg.aliases[n]].numArgs
    ensures EvalSpec(reg, [prog, "--" + n] + rest)
            == Evaluation(map[], [], prog, Failed(TooFew(|rest|, reg.defs[reg.aliases[n]].numArgs)))
  {
    var args := [prog, "--" + n] + rest;
    assert args[0] == prog && args[1] == "--" + n;
    LongToken(n);
    assert ArgSpec(reg, args, 1) == ArgFailed(TooFew(|rest|, reg.defs[reg.aliases[n]].numArgs));
  }

  /** `prog --bogus ...`: the unknown option is reported by its name without prefix, and nothing is kept. */
  lemma {:induction false} UnknownOption(reg: Registry, prog: string, n: string, rest: seq<string>)
    requires reg.Valid() && !IsOption(prog) && '=' !in n && n !in reg.aliases
    ensures EvalSpec(reg, [prog, "--" + n] + rest) == Evaluation(map[], [], prog, Failed(Unrecognized(n)))
  {
    var args := [prog, "--" + n] + rest;
    assert args[0] == prog && args[1] == "--" + n;
    LongToken(n);
    assert ArgSpec(reg, args, 1) == ArgFailed(Unrecognized(n));
  }

  /**
   * `--a v1 -b v2` with `a` and `b` naming one definition that takes one
   * argument: one entry under the long name, holding the LATER value at the
   * FIRST position; there is no self, as the first token is an option.
   */
  lemma {:induction false} RepeatedOption(reg: Registry, a: string, b: string, v1: string, v2: string)
    requires reg.Valid() && reg.PlainNames()
    requires '=' !in a && '=' !in b && a in reg.aliases && b in reg.aliases
    requires reg.aliases[a] == reg.aliases[b] && reg.defs[reg.aliases[a]].numArgs == 1
    ensures EvalSpec(reg, ["--" + a, v1, "-" + b, v2])
            == Evaluation(map[reg.defs[reg.aliases[a]].name := Opt([TrimArg(v2)], 0)], [], "", Ok)
  {
    var args := ["--" + a, v1, "-" + b, v2];
    var long := reg.defs[reg.aliases[a]].name;
    RepeatedScan(reg, args, a, b, v1, v2);
    RecordSameKeyTwice(Occurrence(long, [TrimArg(v1)]), Occurrence(long, [TrimArg(v2)]));
  }

  /** The option loop over `--a v1 -b v2`: two occurrences under the one long name. */
  lemma RepeatedScan(reg: Registry, args: seq<string>, a: string, b: string, v1: string, v2: string)
    requires reg.Valid() && reg.PlainNames()
    requires '=' !in a && '=' !in b && a in reg.aliases && b in reg.aliases
    requires reg.aliases[a] == reg.aliases[b] && reg.defs[reg.aliases[a]].numArgs == 1
    requires args == ["--" + a, v1, "-" + b, v2]
    ensures var long := reg.defs[reg.aliases[a]].name;
      ScanFrom(reg, args, 0) == Scan([Occurrence(long, [TrimArg(v1)]), Occurrence(long, [TrimArg(v2)])], 4, Ok)
  {
    var long := reg.defs[reg.aliases[a]].name;
    var o1 := Occurrence(long, [TrimArg(v1)]);
    var o2 := Occurrence(long, [TrimArg(v2)]);
    LongToken(a);
    ShortToken(b);
    ValueStep(reg, args, 0, a, v1, 2);
    ValueStep(reg, args, 2, b, v2, 4);
    assert ScanFrom(reg, args, 4) == Scan([], 4, Ok);
    assert [o1] + ([o2] + []) == [o1, o2];
  }

  /**
   * An option token at `i` without `=`, naming a definition that takes one
   * argument: one occurrence under the long name with the next token as its
   * value, then the loop goes on at `next`.
   */
  lemma ValueStep(reg: Registry, args: seq<string>, i: nat, n: string, v: string, next: nat)
    requires reg.Valid() && reg.PlainNames() && next == i + 2 && next <= |args| && args[i + 1] == v
    requires IsOption(args[i]) && Split(args[i], '=') == [args[i]] && TokenName(args[i]) == n
    requires n in reg.aliases && reg.defs[reg.aliases[n]].numArgs == 1
    ensures ScanFrom(reg, args, i)
            == After([Occurrence(reg.defs[reg.aliases[n]].name, [TrimArg(v)])], ScanFrom(reg, args, next))
  {
    var long := reg.defs[reg.aliases[n]].name;
    OneValue(reg, args, i, n, v, next);
    ScanStep(reg, args, i);
    assert GetOptionName(long) == long;
  }

  lemma RecordOnce(o: Occurrence)
    ensures Record([o]) == map[o.key := Opt(o.values, 0)]
  {
    assert [] + [o] == [o];
    RecordSnoc([], o);
  }

  lemma RecordSameKeyTwice(o1: Occurrence, o2: Occurrence)
    requires o1.key == o2.key
    ensures Record([o1, o2]) == map[o1.key := Opt(o2.values, 0)]
  {
    RecordOnce(o1);
    assert [o1] + [o2] == [o1, o2];
    RecordSnoc([o1], o2);
  }

  /** An option token without `=` whose definition takes one argument consumes the next token. */
  lemma OneValue(reg: Registry, args: seq<string>, i: nat, n: string, v: string, next: nat)
    requires reg.Valid() && reg.PlainNames() && next == i + 2 && next <= |args| && args[i + 1] == v
    requires IsOption(args[i]) && Split(args[i], '=') == [args[i]] && TokenName(args[i]) == n
    requires n in reg.aliases && reg.defs[reg.aliases[n]].numArgs == 1
    ensures ArgSpec(reg, args, i) == Arg(reg.defs[reg.aliases[n]].name, [TrimArg(v)], next)
  {
    var t := TrimAll(args[i + 1..i + 2]);
    assert |t| == 1 && t[0] == TrimArg(v);
    assert [] + t == [TrimArg(v)];
    OptionNamePrefixes(n);
    assert LongName(reg, n) == reg.defs[reg.aliases[n]].name;
  }

  /** A bare `-` where an option may stand is an option with the empty name, which is never registered. */
  lemma BareDashOption(reg: Registry, prog: string, rest: seq<string>)
    requires reg.Valid() && !IsOption(prog)
    ensures EvalSpec(reg, [prog, "-"] + rest) == Evaluation(map[], [], prog, Failed(Unrecognized("")))
  {
    var args := [prog, "-"] + rest;
    assert args[0] == prog && args[1] == "-";
    BareDashFails(reg, args, 1);
  }

  /** `--n=x=y` splits into the name and two pieces. */
  lemma TwoEquals(n: string, x: string, y: string)
    requires '=' !in n && '=' !in x && '=' !in y
    ensures Split("--" + n + "=" + x + "=" + y, '=') == ["--" + n, x, y]
    ensures TokenName("--" + n + "=" + x + "=" + y) == n
  {
    assert '=' !in "--" + n;
    SplitThree("--" + n, x, y, '=');
    assert "--" + n + "=" + x + "=" + y == ("--" + n) + ['='] + x + ['='] + y;
    OptionNamePrefixes(n);
  }

  lemma SplitThree(a: string, b: string, c: string, sep: char)
    requires sep !in a && sep !in b && sep !in c
    ensures Split(a + [sep] + b + [sep] + c, sep) == [a, b, c]
  {
    var t := b + [sep] + c;
    SplitNoSep(c, sep);
    SplitPrefix(b, c, sep);
    assert Split(t, sep) == [b, c];
    SplitPrefix(a, t, sep);
    assert a + [sep] + b + [sep] + c == a + [sep] + t;
    assert [a] + [b, c] == [a, b, c];
  }

  /**
   * The rejoin reads the argument vector: with `n` taking one argument,
   * `prog --n=x=y z` gives `n` the value `x=z`, not `x=y`.
   */
  lemma {:induction false} RejoinReadsArgumentVector(reg: Registry, prog: string, n: string, x: string, y: string, z: string)
    requires reg.Valid() && '=' !in n && '=' !in x && '=' !in y && !IsOption(n)
    requires n in reg.aliases && reg.defs[reg.aliases[n]].numArgs == 1
    ensures ArgSpec(reg, [prog, "--" + n + "=" + x + "=" + y, z], 1)
            == Arg(reg.defs[reg.aliases[n]].name, [TrimArg(x + "=" + z)], 2)
  {
    var token := "--" + n + "=" + x + "=" + y;
    var args := [prog, token, z];
    TwoEquals(n, x, y);
    OptionNamePrefixes(n);
    assert args[1] == token && IsOption(token);
    assert Rejoin(x, args, 3) == x + "=" + z;
    assert TrimAll(args[2..2]) == [];
  }

  /** A lone `--n=x=y`, `n` taking arguments, reads past the vector at index 2. */
  lemma {:induction false} RejoinPastTheEnd(reg: Registry, n: string, x: string, y: string)
    requires reg.Valid() && '=' !in n && '=' !in x && '=' !in y
    requires n in reg.aliases && reg.defs[reg.aliases[n]].numArgs > 0
    ensures ArgSpec(reg, ["--" + n + "=" + x + "=" + y], 0) == ArgPanicked(2)
  {
    TwoEquals(n, x, y);
  }

  /**
   * A token whose normalised name still starts with a dash (`---x` names
   * the key `-x`, as declared by `---x`) is normalised once more when
   * resolved to its long name, which then looks up `x`: with no `x`
   * registered, `prog ---x rest...` ends the option loop after swallowing
   * the option token: nothing is recorded and `rest` is the extra
   * arguments.
   */
  lemma {:induction false} DashedNameIsSwallowed(reg: Registry, prog: string, x: string, rest: seq<string>)
    requires reg.Valid() && !IsOption(prog) && !IsOption(x) && '=' !in x
    requires "-" + x in reg.aliases && x !in reg.aliases
    requires reg.defs[reg.aliases["-" + x]].numArgs == 0
    ensures EvalSpec(reg, [prog, "---" + x] + rest) == Evaluation(map[], Wrap(rest), prog, Ok)
  {
    var args := [prog, "---" + x] + rest;
    assert args[0] == prog && args[1] == "---" + x && args[2..] == rest;
    assert TokenName("---" + x) == "-" + x by {
      assert '=' !in "---" + x;
      SplitNoSep("---" + x, '=');
      assert "---" + x == "--" + ("-" + x);
      OptionNamePrefixes("-" + x);
    }
    OptionNamePrefixes(x);
    assert LongName(reg, "-" + x) == "";
    assert TrimAll(args[2..2]) == [];
    assert ArgSpec(reg, args, 1) == Arg("", [], 2);
  }

  /**
   * A plain alias `y` of a definition whose long name `-x` starts with a
   * dash: `prog --y` evaluates without error, but the option is stored
   * under `x` (the long name normalised once more), while every query by
   * `y` looks up `-x`, which is not a key.
   */
  lemma {:induction false} DashedLongNameIsHidden(reg: Registry, prog: string, x: string, y: string)
    requires reg.Valid() && !IsOption(prog) && !IsOption(x) && !IsOption(y) && '=' !in y
    requires y in reg.aliases && reg.defs[reg.aliases[y]] == Def("-" + x, 0)
    ensures var e := EvalSpec(reg, [prog, "--" + y]);
      && e == Evaluation(map[x := Opt([], 0)], [], prog, Ok)
      && LongName(reg, y) == "-" + x && LongName(reg, y) !in e.options
  {
    var args := [prog, "--" + y];
    assert args[0] == prog && args[1] == "--" + y;
    LongToken(y);
    OptionNamePrefixes(y);
    OptionNamePrefixes(x);
    assert TrimAll(args[2..2]) == [];
    assert ArgSpec(reg, args, 1) == Arg("-" + x, [], 2);
    ScanStep(reg, args, 1);
    assert GetOptionName("-" + x) == x;
    RecordOnce(Occurrence(x, []));
    assert x != "-" + x;
  }

  /**
   * `prog --a --bogus`, `a` taking no arguments: the loop stops at the
   * unknown option, but `a`, recorded before it, stays in the options map;
   * there are no extra arguments.
   */
  lemma {:induction false} KnownThenUnknown(reg: Registry, prog: string, a: string, b: string)
    requires reg.Valid() && reg.PlainNames() && !IsOption(prog)
    requires '=' !in a && '=' !in b && a in reg.aliases && b !in reg.aliases
    requires reg.defs[reg.aliases[a]].numArgs == 0
    ensures EvalSpec(reg, [prog, "--" + a, "--" + b])
            == Evaluation(map[reg.defs[reg.aliases[a]].name := Opt([], 0)], [], prog, Failed(Unrecognized(b)))
  {
    var args := [prog, "--" + a, "--" + b];
    var long := reg.defs[reg.aliases[a]].name;
    LongToken(a);
    LongToken(b);
    assert TrimAll(args[2..2]) == [];
    assert ArgSpec(reg, args, 1) == Arg(long, [], 2);
    assert ArgSpec(reg, args, 2) == ArgFailed(Unrecognized(b));
    ScanStep(reg, args, 1);
    assert GetOptionName(long) == long;
    FailureKeepsRecorded(reg, args, 2, [Occurrence(long, [])]);
    RecordOnce(Occurrence(long, []));
  }

  /**
   * `--a --a --b`, with `a` and `b` naming two definitions that take no
   * arguments: the position counter moves on every occurrence, so `b` is at
   * position 2 although there are only two options. Positions are not
   * dense: no option is at position 1, and the one at position 2 is not
   * below the number of options, the bound `GetArgNameByPosition` checks.
   */
  lemma {:induction false} PositionsSkipRepeats(reg: Registry, a: string, b: string)
    requires reg.Valid() && reg.PlainNames()
    requires '=' !in a && '=' !in b && a in reg.aliases && b in reg.aliases
    requires reg.defs[reg.aliases[a]].numArgs == 0 && reg.defs[reg.aliases[b]].numArgs == 0
    requires reg.defs[reg.aliases[a]].name != reg.defs[reg.aliases[b]].name
    ensures var e := EvalSpec(reg, ["--" + a, "--" + a, "--" + b]);
      var lb := reg.defs[reg.aliases[b]].name;
      && |e.options| == 2
      && lb in e.options && e.options[lb].position == 2
      && forall k :: k in e.options ==> e.options[k].position != 1
  {
    var args := ["--" + a, "--" + a, "--" + b];
    var la := reg.defs[reg.aliases[a]].name;
    var lb := reg.defs[reg.aliases[b]].name;
    var oa := Occurrence(la, []);
    var ob := Occurrence(lb, []);
    FlagsScan(reg, args, a, b);
    RecordSameKeyTwice(oa, oa);
    assert [oa, oa] + [ob] == [oa, oa, ob];
    RecordSnoc([oa, oa], ob);
    assert EvalSpec(reg, args).options == map[la := Opt([], 0), lb := Opt([], 2)];
    assert map[la := Opt([], 0), lb := Opt([], 2)].Keys == {la, lb};
  }

  /** The option loop over `--a --a --b`, all taking no arguments: three occurrences, in order. */
  lemma FlagsScan(reg: Registry, args: seq<string>, a: string, b: string)
    requires reg.Valid() && reg.PlainNames()
    requires '=' !in a && '=' !in b && a in reg.aliases && b in reg.aliases
    requires reg.defs[reg.aliases[a]].numArgs == 0 && reg.defs[reg.aliases[b]].numArgs == 0
    requires args == ["--" + a, "--" + a, "--" + b]
    ensures var la := reg.defs[reg.aliases[a]].name;
      var lb := reg.defs[reg.aliases[b]].name;
      ScanFrom(reg, args, 0) == Scan([Occurrence(la, []), Occurrence(la, []), Occurrence(lb, [])], 3, Ok)
  {
    var la := reg.defs[reg.aliases[a]].name;
    var lb := reg.defs[reg.aliases[b]].name;
    LongToken(a);
    LongToken(b);
    assert TrimAll(args[1..1]) == [] && TrimAll(args[2..2]) == [] && TrimAll(args[3..3]) == [];
    assert ArgSpec(reg, args, 0) == Arg(la, [], 1);
    assert ArgSpec(reg, args, 1) == Arg(la, [], 2);
    assert ArgSpec(reg, args, 2) == Arg(lb, [], 3);
    assert GetOptionName(la) == la && GetOptionName(lb) == lb;
    ScanStep(reg, args, 0);
    ScanStep(reg, args, 1);
    ScanStep(reg, args, 2);
  }
}
