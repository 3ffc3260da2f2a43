/**
 * The evaluation of an argument vector, as pure functions: `ArgSpec` is
 * what `evalArg` returns for one token, `ScanFrom` the option loop of
 * `Evaluate`, `Record` the options map it builds and `EvalSpec` the whole
 * state an evaluation leaves.
 */
module Evaluator {
  import opened Strings
  import opened Datatypes
  import opened OptionNames
  import opened Registries

  // ---------------------------------------------------------------------
  // Evaluating one option (evalArg)
  // ---------------------------------------------------------------------

  /** `optionType`: the arguments of an option and the position of its first occurrence. */
  datatype Opt = Opt(value: seq<String>, position: nat)

  datatype EvalError =
    | Unrecognized(name: string)           // "Unrecognized option"
    | TooFew(available: int, need: int)    // "Too few option arguments"

  /**
   * The outcome of evaluating the token at one index: a (possibly empty)
   * long name with its arguments and the index after them, an error, or a
   * Go runtime panic (an index past the argument vector) at `index`.
   */
  datatype ArgResult =
    | Arg(name: string, values: seq<String>, next: nat)
    | ArgFailed(err: EvalError)
    | ArgPanicked(index: nat)

  /**
   * The text after the first `=` of an option token, rejoined as the source
   * does it: piece 1, then `"=" + args[i]` for i = 2 .. n-1. The pieces
   * after the second `=` are taken from the ARGUMENT VECTOR, not from the
   * token's own pieces (`RejoinJoins`).
   */
  function Rejoin(first: string, args: seq<string>, n: nat): (r: string)
    requires n <= 2 || n <= |args|
    ensures |first| <= |r| && r[..|first|] == first
    ensures r == first <==> n <= 2
  {
    if n <= 2 then first else Rejoin(first, args, n - 1) + "=" + args[n - 1]
  }

  /** What the rejoin builds: `first` and the VECTOR's tokens `args[2..n]`, joined by `=`. */
  lemma {:induction false} RejoinJoins(first: string, args: seq<string>, n: nat)
    requires 2 < n <= |args|
    ensures Rejoin(first, args, n) == Join([first] + args[2..n], '=')
  {
    if n > 3 {
      RejoinJoins(first, args, n - 1);
    }
    JoinSnoc([first] + args[2..n - 1], args[n - 1], '=');
    assert args[2..n] == args[2..n - 1] + [args[n - 1]];
    assert ([first] + args[2..n - 1]) + [args[n - 1]] == [first] + args[2..n];
  }

  /** `trimArg` applied to each token. */
  function TrimAll(xs: seq<string>): (r: seq<String>)
    ensures |r| == |xs| && forall i :: 0 <= i < |xs| ==> r[i] == TrimArg(xs[i])
  {
    seq(|xs|, i requires 0 <= i < |xs| => TrimArg(xs[i]))
  }

  /** The index at which the rejoin loop reads past the argument vector. */
  function PanicIndex(args: seq<string>): nat {
    if |args| < 2 then 2 else |args|
  }

  /**
   * What `evalArg` returns for the token at `index`: not an option (empty
   * name, index unchanged); an unknown name; a panic in the rejoin loop; too
   * few tokens left; or the long name (through `getLongOptionName`, which
   * normalises once more), exactly `numArgs` trimmed values (the `=` value
   * first when the option takes arguments) and the index after them.
   */
  function ArgSpec(reg: Registry, args: seq<string>, index: nat): (r: ArgResult)
    requires reg.Valid()
    ensures index <= |args| && r.Arg? ==> index <= r.next <= |args|
    ensures r.Arg? && r.name != "" ==> index < r.next
  {
    if index >= |args| || !IsOption(args[index]) then Arg("", [], index)
    else
      var parts := Split(args[index], '=');
      var name := GetOptionName(parts[0]);
      if name !in reg.aliases then ArgFailed(Unrecognized(name))
      else
        var arity := reg.defs[reg.aliases[name]].numArgs;
        var inline := arity > 0 && |parts| > 1;
        if inline && 2 < |parts| && |args| < |parts| then ArgPanicked(PanicIndex(args))
        else
          var first := if inline then [TrimArg(Rejoin(parts[1], args, |parts|))] else [];
          var need := arity - |first|;
          var available := |args| - (index + 1);
          if available < need then ArgFailed(TooFew(available, need))
          else Arg(LongName(reg, name), first + TrimAll(args[index + 1..index + 1 + need]), index + 1 + need)
  }

  /** The name part of an option token: everything before its first `=`. */
  function TokenName(token: string): string {
    GetOptionName(Split(token, '=')[0])
  }

  /** The successful case of `ArgSpec`, spelled out for a registered token that neither panics nor runs short. */
  lemma ArgTaken(reg: Registry, args: seq<string>, index: nat, first: seq<String>, need: nat)
    requires reg.Valid() && index < |args| && IsOption(args[index])
    requires var parts := Split(args[index], '=');
      var name := GetOptionName(parts[0]);
      && name in reg.aliases
      && var arity := reg.defs[reg.aliases[name]].numArgs;
      && var inline := arity > 0 && |parts| > 1;
      && !(inline && 2 < |parts| && |args| < |parts|)
      && first == (if inline then [TrimArg(Rejoin(parts[1], args, |parts|))] else [])
      && need == arity - |first|
      && index + 1 + need <= |args|
    ensures ArgSpec(reg, args, index) ==
      Arg(LongName(reg, TokenName(args[index])), first + TrimAll(args[index + 1..index + 1 + need]), index + 1 + need)
  {
  }

  /** An option token whose name is not registered fails, naming it; a registered one never does so. */
  lemma ArgUnrecognized(reg: Registry, args: seq<string>, index: nat)
    requires reg.Valid() && index < |args| && IsOption(args[index])
    ensures ArgSpec(reg, args, index) == ArgFailed(Unrecognized(TokenName(args[index])))
            <==> TokenName(args[index]) !in reg.aliases
  {
  }

  /** A bare `-` or `--` is an option token whose name is empty, and no registry knows the empty name. */
  lemma BareDashFails(reg: Registry, args: seq<string>, index: nat)
    requires reg.Valid() && index < |args| && (args[index] == "-" || args[index] == "--")
    ensures ArgSpec(reg, args, index) == ArgFailed(Unrecognized(""))
  {
    SplitNoSep(args[index], '=');
  }

  /** The arguments a recognised option still needs after its `=value`, if that counts as one. */
  function Need(reg: Registry, args: seq<string>, index: nat): int
    requires reg.Valid() && index < |args| && TokenName(args[index]) in reg.aliases
  {
    var arity := reg.defs[reg.aliases[TokenName(args[index])]].numArgs;
    if arity > 0 && |Split(args[index], '=')| > 1 then arity - 1 else arity
  }

  /**
   * The failures of a recognised option: a panic exactly when it takes
   * arguments and its token has a second `=` with fewer tokens in the
   * vector than pieces; otherwise "too few" exactly when fewer tokens
   * remain than are still needed, reporting both counts.
   */
  lemma {:induction false} ArgFailures(reg: Registry, args: seq<string>, index: nat)
    requires reg.Valid() && index < |args| && IsOption(args[index])
    requires TokenName(args[index]) in reg.aliases
    ensures var parts := Split(args[index], '=');
      var arity := reg.defs[reg.aliases[TokenName(args[index])]].numArgs;
      var r := ArgSpec(reg, args, index);
      && (r.ArgPanicked? <==> arity > 0 && 2 < |parts| && |args| < |parts|)
      && (!r.ArgPanicked? ==> (r.ArgFailed? <==> |args| - index - 1 < Need(reg, args, index)))
      && (r.ArgFailed? ==> r.err == TooFew(|args| - index - 1, Need(reg, args, index)))
  {
  }

  /**
   * Arity: a recognised option that does not fail gets exactly `numArgs`
   * values, under the long name its token resolves to. An `=value` counts
   * as the first of them only when `numArgs > 0` (and is dropped
   * otherwise); the rest are the next tokens, trimmed.
   */
  lemma {:induction false} ArgArity(reg: Registry, args: seq<string>, index: nat)
    requires reg.Valid() && index < |args| && IsOption(args[index])
    requires TokenName(args[index]) in reg.aliases
    ensures var arity := reg.defs[reg.aliases[TokenName(args[index])]].numArgs;
      var need := Need(reg, args, index);
      var r := ArgSpec(reg, args, index);
      && (r.Arg? ==> |r.values| == arity && r.next == index + 1 + need)
      && (r.Arg? ==> r.values[|r.values| - need..] == TrimAll(args[index + 1..r.next]))
      && (arity == 0 && r.Arg? ==> r.values == [] && r.next == index + 1)
      && (r.Arg? ==> r.name == LongName(reg, TokenName(args[index])))
      && (var parts := Split(args[index], '=');
          r.Arg? && arity > 0 && |parts| > 1 ==> r.values[0] == TrimArg(Rejoin(parts[1], args, |parts|)))
  {
    ArgNamed(reg, args, index);
    ArgCount(reg, args, index);
    ArgTail(reg, args, index);
    ArgFirstValue(reg, args, index);
  }

  /** With arguments to take and an `=` in its token, a success's first value is the rejoined text after the first `=`, trimmed. */
  lemma ArgFirstValue(reg: Registry, args: seq<string>, index: nat)
    requires reg.Valid() && index < |args| && IsOption(args[index])
    requires TokenName(args[index]) in reg.aliases
    ensures var parts := Split(args[index], '=');
      var r := ArgSpec(reg, args, index);
      var arity := reg.defs[reg.aliases[TokenName(args[index])]].numArgs;
      r.Arg? && arity > 0 && |parts| > 1 ==> |r.values| > 0 && r.values[0] == TrimArg(Rejoin(parts[1], args, |parts|))
  {
  }

  /** A success carries `numArgs` values and ends `Need` tokens after the option token. */
  lemma ArgCount(reg: Registry, args: seq<string>, index: nat)
    requires reg.Valid() && index < |args| && IsOption(args[index])
    requires TokenName(args[index]) in reg.aliases
    ensures var r := ArgSpec(reg, args, index);
      r.Arg? ==> |r.values| == reg.defs[reg.aliases[TokenName(args[index])]].numArgs
                 && r.next == index + 1 + Need(reg, args, index)
  {
  }

  /** The last `Need` values of a success are the tokens after the option token, trimmed. */
  lemma ArgTail(reg: Registry, args: seq<string>, index: nat)
    requires reg.Valid() && index < |args| && IsOption(args[index])
    requires TokenName(args[index]) in reg.aliases
    ensures var r := ArgSpec(reg, args, index);
      var need := Need(reg, args, index);
      r.Arg? ==> 0 <= need <= |r.values| && r.next <= |args|
                 && r.values[|r.values| - need..] == TrimAll(args[index + 1..r.next])
  {
    ArgCount(reg, args, index);
    var r := ArgSpec(reg, args, index);
    if r.Arg? {
      var need := Need(reg, args, index);
      assert r.values[|r.values| - need..] == TrimAll(args[index + 1..r.next]);
    }
  }

  /** The name an option token is evaluated to is `getLongOptionName` of its normalised name. */
  lemma ArgNamed(reg: Registry, args: seq<string>, index: nat)
    requires reg.Valid() && index < |args| && IsOption(args[index])
    ensures var r := ArgSpec(reg, args, index);
      r.Arg? ==> r.name == LongName(reg, TokenName(args[index]))
  {
  }

  /**
   * With a single `=`, the text after it is the option's first value and
   * counts towards the arity: the option takes `numArgs - 1` further
   * tokens, and fails with "too few" (never panics) when they are missing.
   */
  lemma {:induction false} ArgInlineValue(reg: Registry, args: seq<string>, index: nat, n: string, v: string)
    requires reg.Valid() && index < |args| && args[index] == "--" + n + "=" + v
    requires '=' !in n && '=' !in v
    requires n in reg.aliases && reg.defs[reg.aliases[n]].numArgs > 0
    ensures var r := ArgSpec(reg, args, index);
      var arity := reg.defs[reg.aliases[n]].numArgs;
      && (r.Arg? <==> arity - 1 <= |args| - index - 1)
      && (r.Arg? ==> |r.values| == arity && r.values[0] == TrimArg(v) && r.next == index + arity)
      && (r.Arg? ==> r.values[1..] == TrimAll(args[index + 1..index + arity]))
      && (!r.Arg? ==> r == ArgFailed(TooFew(|args| - index - 1, arity - 1)))
  {
    assert Split(args[index], '=') == ["--" + n, v] by {
      SplitNoSep(v, '=');
      assert '=' !in "--" + n;
      SplitPrefix("--" + n, v, '=');
      assert "--" + n + "=" + v == ("--" + n) + ['='] + v;
    }
    OptionNamePrefixes(n);
    assert Rejoin(v, args, 2) == v;
  }

  // ---------------------------------------------------------------------
  // Evaluating the argument vector (Evaluate)
  // ---------------------------------------------------------------------

  /** One parsed option: the key it is stored under and its values. */
  datatype Occurrence = Occurrence(key: string, values: seq<String>)

  /**
   * The options map built from the occurrences in order: a new key gets
   * the occurrence's index as its position; a repeated key keeps its
   * position and takes the new values.
   */
  function Record(occs: seq<Occurrence>): (m: map<string, Opt>)
  {
    if occs == [] then map[]
    else
      var m := Record(occs[..|occs| - 1]);
      var o := occs[|occs| - 1];
      if o.key in m then m[o.key := m[o.key].(value := o.values)]
      else m[o.key := Opt(o.values, |occs| - 1)]
  }

  /**
   * What the options map holds, independently of how it was built: exactly
   * the keys that occur; for each, the position of its FIRST occurrence and
   * the values of its LAST one.
   */
  lemma {:induction false} RecordEntries(occs: seq<Occurrence>, k: string)
    ensures k in Record(occs) <==> exists i :: 0 <= i < |occs| && occs[i].key == k
    ensures k in Record(occs) ==>
      var p := Record(occs)[k].position;
      p < |occs| && occs[p].key == k && forall i :: 0 <= i < p ==> occs[i].key != k
    ensures k in Record(occs) ==>
      exists j :: 0 <= j < |occs| && occs[j].key == k && Record(occs)[k].value == occs[j].values
                  && forall i :: j < i < |occs| ==> occs[i].key != k
  {
    if occs != [] {
      var init := occs[..|occs| - 1];
      var o := occs[|occs| - 1];
      RecordEntries(init, k);
      assert forall i :: 0 <= i < |init| ==> init[i] == occs[i];
      if o.key == k {
        assert occs[|occs| - 1].key == k;
      } else if k in Record(init) {
        var j :| 0 <= j < |init| && init[j].key == k && Record(init)[k].value == init[j].values
                  && forall i :: j < i < |init| ==> init[i].key != k;
        assert occs[j].key == k;
      }
    }
  }

  /** Distinct keys were first seen at distinct indexes, so no two entries share a position. */
  ghost predicate DistinctPositions(options: map<string, Opt>) {
    forall k1, k2 :: k1 in options && k2 in options && k1 != k2 ==> options[k1].position != options[k2].position
  }

  lemma RecordPositions(occs: seq<Occurrence>)
    ensures DistinctPositions(Record(occs))
    ensures forall k :: k in Record(occs) ==> Record(occs)[k].position < |occs|
  {
    forall k | k in Record(occs) ensures Record(occs)[k].position < |occs| {
      RecordEntries(occs, k);
    }
    forall k1, k2 | k1 in Record(occs) && k2 in Record(occs) && k1 != k2
      ensures Record(occs)[k1].position != Record(occs)[k2].position
    {
      RecordEntries(occs, k1);
      RecordEntries(occs, k2);
    }
  }

  datatype Status = Ok | Failed(err: EvalError) | Panicked(index: nat)

  /** The option loop from one index on: the occurrences it records, where it stops, and how. */
  datatype Scan = Scan(occs: seq<Occurrence>, stop: nat, status: Status)

  /**
   * The option loop of `Evaluate` from index `idx`: each option is recorded
   * under `getOptionName` of its long name; the loop ends at the end of the
   * vector, at an empty long name (a non-option token, or a name that does
   * not resolve a second time) with the index `evalArg` returned, or at the
   * first error or panic.
   */
  function ScanFrom(reg: Registry, args: seq<string>, idx: nat): (s: Scan)
    requires reg.Valid() && idx <= |args|
    ensures idx <= s.stop <= |args|
    decreases |args| - idx
  {
    if idx == |args| then Scan([], idx, Ok)
    else
      match ArgSpec(reg, args, idx)
      case ArgFailed(e) => Scan([], idx, Failed(e))
      case ArgPanicked(i) => Scan([], idx, Panicked(i))
      case Arg(name, values, next) =>
        if name == "" then Scan([], next, Ok)
        else
          var rest := ScanFrom(reg, args, next);
          rest.(occs := [Occurrence(GetOptionName(name), values)] + rest.occs)
  }

  /** The state one evaluation leaves: options, extra arguments, self and the returned status. */
  datatype Evaluation = Evaluation(options: map<string, Opt>, extra: seq<String>, self: string, status: Status)

  /** Each token as a `String` value. */
  function Wrap(xs: seq<string>): (r: seq<String>)
    ensures |r| == |xs| && forall i :: 0 <= i < |xs| ==> r[i] == String(xs[i])
  {
    seq(|xs|, i requires 0 <= i < |xs| => String(xs[i]))
  }

  /** Where option parsing begins: after `self` if the first token is not an option. */
  function Start(args: seq<string>): nat
    requires |args| > 0
  {
    if IsOption(args[0]) then 0 else 1
  }

  /**
   * `Evaluate` on a non-empty vector, after the reset: self, the options
   * recorded until the loop ended, and the extra arguments from the stop
   * index, which are only filled in when no error ended the loop.
   */
  function EvalSpec(reg: Registry, args: seq<string>): Evaluation
    requires reg.Valid() && |args| > 0
  {
    var scan := ScanFrom(reg, args, Start(args));
    Evaluation(Record(scan.occs),
               if scan.status.Ok? then Wrap(args[scan.stop..]) else [],
               if Start(args) == 1 then args[0] else "",
               scan.status)
  }

  /** Under plain names a recognised option always resolves to a non-empty long name. */
  lemma PlainOptionResolves(reg: Registry, args: seq<string>, index: nat)
    requires reg.Valid() && reg.PlainNames() && index < |args|
    ensures var r := ArgSpec(reg, args, index);
      r.Arg? && r.name == "" ==> r.next == index && !IsOption(args[index])
  {
    var r := ArgSpec(reg, args, index);
    if IsOption(args[index]) && r.Arg? {
      var name := TokenName(args[index]);
      assert name in reg.aliases;
      assert !IsOption(name);
      assert GetOptionName(name) == name;
    }
  }

  /** With plain names, the loop stops only at the end of the vector, at a non-option token, or on an error. */
  lemma {:induction false} ScanStopsAtNonOption(reg: Registry, args: seq<string>, idx: nat)
    requires reg.Valid() && reg.PlainNames() && idx <= |args|
    ensures var s := ScanFrom(reg, args, idx);
      s.status.Ok? && s.stop < |args| ==> !IsOption(args[s.stop])
    decreases |args| - idx
  {
    if idx < |args| {
      PlainOptionResolves(reg, args, idx);
      var r := ArgSpec(reg, args, idx);
      if r.Arg? && r.name != "" {
        ScanStopsAtNonOption(reg, args, r.next);
      }
    }
  }

  /**
   * How `Evaluate` splits a vector: `self` is the first token exactly when
   * that token is not an option; after success the extra arguments are
   * exactly a suffix of the vector, in order, and (with plain names) begin
   * at a non-option token; after an error there are none.
   */
  lemma EvalSplit(reg: Registry, args: seq<string>)
    requires reg.Valid() && |args| > 0
    ensures var e := EvalSpec(reg, args);
      && (e.self == args[0] <==> !IsOption(args[0]))
      && (IsOption(args[0]) ==> e.self == "")
      && (e.status.Ok? ==> exists k :: Start(args) <= k <= |args| && e.extra == Wrap(args[k..])
                                         && (reg.PlainNames() && k < |args| ==> !IsOption(args[k])))
      && (!e.status.Ok? ==> e.extra == [])
  {
    var scan := ScanFrom(reg, args, Start(args));
    if reg.PlainNames() {
      ScanStopsAtNonOption(reg, args, Start(args));
    }
    assert scan.status.Ok? ==> Start(args) <= scan.stop <= |args| && EvalSpec(reg, args).extra == Wrap(args[scan.stop..]);
  }

  /** Each occurrence adds at most one key. */
  lemma {:induction false} RecordSize(occs: seq<Occurrence>)
    ensures |Record(occs)| <= |occs|
  {
    if occs != [] {
      var m := Record(occs[..|occs| - 1]);
      var o := occs[|occs| - 1];
      RecordSize(occs[..|occs| - 1]);
      if o.key !in m {
        assert Record(occs).Keys == m.Keys + {o.key};
      } else {
        assert Record(occs).Keys == m.Keys;
      }
    }
  }

  /** Every recorded occurrence consumed at least its own token, so there are no more of them than tokens scanned. */
  lemma {:induction false} ScanSize(reg: Registry, args: seq<string>, idx: nat)
    requires reg.Valid() && idx <= |args|
    ensures |ScanFrom(reg, args, idx).occs| <= ScanFrom(reg, args, idx).stop - idx
    decreases |args| - idx
  {
    if idx < |args| {
      var r := ArgSpec(reg, args, idx);
      if r.Arg? && r.name != "" {
        ScanSize(reg, args, r.next);
      }
    }
  }

  /** Options never share a position, and there are no more of them than option occurrences. */
  lemma EvalPositions(reg: Registry, args: seq<string>)
    requires reg.Valid() && |args| > 0
    ensures DistinctPositions(EvalSpec(reg, args).options)
    ensures |EvalSpec(reg, args).options| <= |ScanFrom(reg, args, Start(args)).occs|
  {
    var occs := ScanFrom(reg, args, Start(args)).occs;
    RecordPositions(occs);
    RecordSize(occs);
  }

  /**
   * With a plain registry, the key an option is stored under is the key
   * every name of the same definition is queried by.
   */
  lemma StoredKeyIsQueriedKey(reg: Registry, args: seq<string>, index: nat, a: string)
    requires reg.Valid() && reg.PlainNames() && index < |args| && IsOption(args[index])
    requires TokenName(args[index]) in reg.aliases && GetOptionName(a) in reg.aliases
    requires reg.aliases[TokenName(args[index])] == reg.aliases[GetOptionName(a)]
    ensures var r := ArgSpec(reg, args, index);
      r.Arg? ==> r.name != "" && GetOptionName(r.name) == LongName(reg, a)
  {
    var id := reg.aliases[GetOptionName(a)];
    assert !IsOption(TokenName(args[index]));
    assert !IsOption(reg.defs[id].name);
  }


  /** A scan with the occurrences `done` recorded before it. */
  function After(done: seq<Occurrence>, s: Scan): Scan {
    s.(occs := done + s.occs)
  }

  /** One step of the option loop: a resolved option is recorded, then the loop goes on after its arguments. */
  lemma ScanStep(reg: Registry, args: seq<string>, idx: nat)
    requires reg.Valid() && idx < |args|
    requires ArgSpec(reg, args, idx).Arg? && ArgSpec(reg, args, idx).name != ""
    ensures var a := ArgSpec(reg, args, idx);
      ScanFrom(reg, args, idx) == After([Occurrence(GetOptionName(a.name), a.values)], ScanFrom(reg, args, a.next))
  {
  }

  lemma AfterAfter(done: seq<Occurrence>, more: seq<Occurrence>, s: Scan)
    ensures After(done, After(more, s)) == After(done + more, s)
  {
    assert done + (more + s.occs) == (done + more) + s.occs;
  }

  /** Recording one more occurrence. */
  lemma RecordSnoc(done: seq<Occurrence>, o: Occurrence)
    ensures var m := Record(done);
      Record(done + [o]) == if o.key in m then m[o.key := m[o.key].(value := o.values)]
                            else m[o.key := Opt(o.values, |done|)]
  {
    assert (done + [o])[..|done|] == done;
  }

  /**
   * An error does not undo what was recorded: when the loop, having
   * recorded `done`, reaches a token at `i` that fails or panics, the
   * options are exactly those `done` records (keys, first positions and
   * latest values), there are no extra arguments, and the status carries
   * that token's error.
   */
  lemma FailureKeepsRecorded(reg: Registry, args: seq<string>, i: nat, done: seq<Occurrence>)
    requires reg.Valid() && |args| > 0 && i < |args|
    requires ScanFrom(reg, args, Start(args)) == After(done, ScanFrom(reg, args, i))
    requires !ArgSpec(reg, args, i).Arg?
    ensures var e := EvalSpec(reg, args);
      var a := ArgSpec(reg, args, i);
      && e.options == Record(done)
      && e.extra == []
      && e.status == (if a.ArgFailed? then Failed(a.err) else Panicked(a.index))
  {
    assert done + [] == done;
  }
}
