/**
 * The parser object `Parameter`: the option registry (names and aliases
 * bound to shared definitions), `Evaluate`, which splits an argument vector
 * into the program name ("self"), options and extra arguments, and the
 * read-only queries over the last evaluation.
 *
 * A definition object that several names share is modelled by an arena:
 * `defs` maps a `DefId` handle to the definition and `aliases` maps every
 * name to a handle, so updating a definition in place is updating one slot.
 * Each method is proved against the pure description of its effect in
 * `Registries` (`AddSpec`, `RemoveSpec`) or `Evaluator` (`ArgSpec`,
 * `EvalSpec`).
 */
module CmdArgs {
  import opened Wrappers
  import opened Strings
  import opened Datatypes
  import opened OptionNames
  import opened Registries
  import opened Evaluator

  /** The normalising loop of `AddParameter`: strips the prefix of every alias in the caller's array, in place. */
  method NormalizeNames(names: array<string>)
    modifies names
    ensures names[..] == Normalized(old(names[..]))
  {
    var i := 0;
    while i < names.Length
      invariant 0 <= i <= names.Length
      invariant names[..i] == Normalized(old(names[..i]))
      invariant names[i..] == old(names[i..])
    {
      names[i] := GetOptionName(names[i]);
      i := i + 1;
      assert names[..i] == names[..i - 1] + [names[i - 1]];
    }
    assert names[..] == names[..names.Length];
    assert old(names[..]) == old(names[..names.Length]);
  }

  /** The binding loop of `AddParameter`: binds every non-empty name to `id`, later names last. */
  method BindNames(m: map<string, DefId>, names: array<string>, id: DefId) returns (r: map<string, DefId>)
    ensures r == Bind(m, names[..], id)
  {
    r := m;
    var j := 0;
    while j < names.Length
      invariant 0 <= j <= names.Length
      invariant r == Bind(m, names[..j], id)
    {
      var a := names[j];
      assert names[..j + 1][..j] == names[..j];
      if |a| > 0 {
        r := r[a := id];
      }
      j := j + 1;
    }
    assert names[..] == names[..names.Length];
  }

  /**
   * The registry updates of `AddParameter` once the name is known to be
   * non-empty and the aliases are normalised: the definition bound to `n` is
   * reused (or a fresh one appended), its arity is overwritten, and `n` and
   * every non-empty alias are bound to it.
   */
  method Register(t: Table, n: string, aliasNames: array?<string>, arity: nat) returns (r: Table)
    requires t.Valid() && n != ""
    ensures r == AddSpec(t, n, if aliasNames == null then [] else aliasNames[..], arity)
  {
    var ds, als, dfs, nid := t.definitions, t.aliases, t.defs, t.nextId;
    var id: DefId;
    if n in als {
      id := als[n];
      dfs := dfs[id := dfs[id].(numArgs := arity)];
    } else {
      id := nid;
      nid := nid + 1;
      dfs := dfs[id := Def(n, 0)];
      ds := ds + [id];
      dfs := dfs[id := dfs[id].(numArgs := arity)];
      assert dfs == t.defs[id := Def(n, arity)];
    }
    var bound := als[n := id];
    if aliasNames != null {
      bound := BindNames(bound, aliasNames, id);
    }
    r := Table(ds, bound, dfs, nid);
  }

  /**
   * The registry updates of `RemoveParameter` for a bound name: the
   * definition leaves the list at the first place it occurs, and every name
   * bound to it leaves the alias map.
   */
  method Unregister(t: Table, n: string) returns (r: Table)
    requires t.Valid() && n in t.aliases
    ensures r == RemoveSpec(t, n)
  {
    var p := t.aliases[n];
    var ds := t.definitions;
    var idx := 0;
    while idx < |ds|
      invariant 0 <= idx <= |ds| && ds == t.definitions
      invariant forall i :: 0 <= i < idx ==> ds[i] != p
    {
      if ds[idx] == p {
        ds := ds[..idx] + ds[idx + 1..];
        break;
      }
      idx := idx + 1;
    }
    assert p in t.definitions;
    WithoutAt(t.definitions, p, idx);

    var als := t.aliases;
    var keys := als.Keys;
    while keys != {}
      invariant keys <= t.aliases.Keys
      invariant forall k :: k in als <==> k in t.aliases && (k in keys || t.aliases[k] != p)
      invariant forall k :: k in als ==> als[k] == t.aliases[k]
      decreases keys
    {
      var k :| k in keys;
      if als[k] == p {
        als := als - {k};
      }
      keys := keys - {k};
    }
    assert als == Unbind(t.aliases, p);
    r := Table(ds, als, t.defs - {p}, t.nextId);
  }

  /**
   * The rejoin loop of `evalArg`: appends `"=" + args[i]` to `first` for
   * i = 2 .. n-1, reading the argument vector. It panics (reads past the
   * vector) exactly when the vector is too short, at `PanicIndex(args)`.
   */
  method RejoinPieces(first: string, args: seq<string>, n: nat) returns (s: string, panicked: bool)
    ensures panicked <==> 2 < n && |args| < n
    ensures !panicked ==> s == Rejoin(first, args, n)
  {
    s := first;
    var i := 2;
    while i < n
      invariant 2 <= i <= if n < 2 then 2 else n
      invariant i <= 2 || i <= |args|
      invariant s == Rejoin(first, args, i)
    {
      if i >= |args| {
        return s, true;
      }
      s := s + "=" + args[i];
      i := i + 1;
    }
    return s, false;
  }

  /** The value loop of `evalArg`: the `count` tokens after `from`, each trimmed. */
  method TakeValues(args: seq<string>, from: nat, count: nat) returns (values: seq<String>)
    requires from + count <= |args|
    ensures values == TrimAll(args[from..from + count])
  {
    values := [];
    var idx, left := from, count;
    while left > 0
      invariant from <= idx && idx + left == from + count
      invariant values == TrimAll(args[from..idx])
    {
      values := values + [TrimArg(args[idx])];
      assert args[from..idx + 1] == args[from..idx] + [args[idx]];
      left, idx := left - 1, idx + 1;
    }
  }

  /**
   * `evalArg`: evaluates the token at `index` as `ArgSpec` describes. It
   * only reads the registry, which it is given as a value.
   */
  method EvalArg(reg: Registry, args: seq<string>, index: nat) returns (r: ArgResult)
    requires reg.Valid()
    ensures r == ArgSpec(reg, args, index)
  {
    var newIdx := index;
    if newIdx >= |args| {
      return Arg("", [], newIdx);
    }
    if !IsOption(args[newIdx]) {
      return Arg("", [], newIdx);
    }
    var parts := Split(args[newIdx], '=');
    var name := GetOptionName(parts[0]);
    newIdx := newIdx + 1;

    if name !in reg.aliases {
      return ArgFailed(Unrecognized(name));
    }
    var numArgs := reg.defs[reg.aliases[name]].numArgs;
    ghost var inline := numArgs > 0 && |parts| > 1;
    var values: seq<String> := [];
    if numArgs > 0 && |parts| > 1 {
      var s, panicked := RejoinPieces(parts[1], args, |parts|);
      if panicked {
        return ArgPanicked(PanicIndex(args));
      }
      values := values + [TrimArg(s)];
      numArgs := numArgs - 1;
    }

    var numRemaining := |args| - newIdx;
    if numRemaining < numArgs {
      return ArgFailed(TooFew(numRemaining, numArgs));
    }
    assert values == if inline then [TrimArg(Rejoin(parts[1], args, |parts|))] else [];
    ArgTaken(reg, args, index, values, numArgs);
    var taken := TakeValues(args, newIdx, numArgs);
    values := values + taken;
    newIdx := newIdx + numArgs;
    return Arg(LongName(reg, name), values, newIdx);
  }

  /**
   * The option loop of `Evaluate`, from `start`: every option token is
   * evaluated in turn and recorded under its key, at the next position for a
   * new key and keeping its position for a repeated one. It stops at the
   * first non-option token, at the end, or at the first failure.
   */
  method ScanOptions(reg: Registry, args: seq<string>, start: nat)
    returns (opts: map<string, Opt>, stop: nat, status: Status, ghost done: seq<Occurrence>)
    requires reg.Valid() && start <= |args|
    ensures ScanFrom(reg, args, start) == Scan(done, stop, status)
    ensures opts == Record(done)
  {
    var argIdx := start;
    done := [];
    assert [] + ScanFrom(reg, args, start).occs == ScanFrom(reg, args, start).occs;
    opts := map[];
    var position := 0;
    status := Ok;
    while argIdx < |args|
      invariant start <= argIdx <= |args|
      invariant opts == Record(done) && position == |done|
      invariant ScanFrom(reg, args, start) == After(done, ScanFrom(reg, args, argIdx))
      decreases |args| - argIdx
    {
      var oldIdx := argIdx;
      var r := EvalArg(reg, args, argIdx);
      match r
      case ArgFailed(e) =>
        status := Failed(e);
        break;
      case ArgPanicked(i) =>
        status := Panicked(i);
        break;
      case Arg(name, values, next) =>
        if name == "" {
          argIdx := next;
          break;
        }
        assert next > oldIdx;  // evalArg always advances past an option
        var key := GetOptionName(name);
        var o := Occurrence(key, values);
        if key in opts {
          opts := opts[key := opts[key].(value := values)];
        } else {
          opts := opts[key := Opt(values, position)];
        }
        ScanStep(reg, args, argIdx);
        AfterAfter(done, [o], ScanFrom(reg, args, next));
        RecordSnoc(done, o);
        done := done + [o];
        position := position + 1;
        argIdx := next;
    }
    stop := argIdx;
    assert done + [] == done;
  }

  /** The extra-argument loop of `Evaluate`: every token from `stop` on, as a string value. */
  method WrapFrom(args: seq<string>, stop: nat) returns (tail: seq<String>)
    requires stop <= |args|
    ensures tail == Wrap(args[stop..])
  {
    tail := [];
    var idx := stop;
    while idx < |args|
      invariant stop <= idx <= |args|
      invariant tail == Wrap(args[stop..idx])
    {
      tail := tail + [String(args[idx])];
      idx := idx + 1;
    }
    assert args[stop..|args|] == args[stop..];
  }

  /**
   * What `Evaluate` computes from a non-empty vector: `self` unless the first
   * token is an option, the options the loop records, and on success the
   * extra tokens from where the loop stopped. An error ends the evaluation
   * with the options recorded so far and no extra arguments.
   */
  method EvaluateArgs(reg: Registry, args: seq<string>) returns (e: Evaluation)
    requires reg.Valid() && |args| > 0
    ensures e == EvalSpec(reg, args)
  {
    var self := "";
    var argIdx := 0;
    if !IsOption(args[argIdx]) {
      self := args[argIdx];
      argIdx := argIdx + 1;
    }
    var opts, stop, status;
    ghost var done;
    opts, stop, status, done := ScanOptions(reg, args, argIdx);
    if !status.Ok? {
      return Evaluation(opts, [], self, status);
    }
    var extra := WrapFrom(args, stop);
    return Evaluation(opts, extra, self, status);
  }

  /** `numArgs` as `AddParameter` stores it: negative counts become 0. */
  function Clamp(numArgs: int): (r: nat)
    ensures numArgs >= 0 ==> r == numArgs
    ensures numArgs < 0 ==> r == 0
  {
    if numArgs < 0 then 0 else numArgs
  }

  /** `Parameter`: the registry, and the result of the last `Evaluate`. */
  class Parameter {
    var definitions: seq<DefId>      // definitions in the order they were added
    var aliases: map<string, DefId>  // every name and alias, prefix stripped
    var defs: map<DefId, Def>        // the definitions the handles refer to
    var nextId: DefId                // the next fresh handle
    var options: map<string, Opt>    // evaluated options by key
    var extra: seq<String>           // the arguments after the options
    var self: string                 // the application name, if any

    /** The registry fields as one value. */
    function State(): Table
      reads this`definitions, this`aliases, this`defs, this`nextId
    {
      Table(definitions, aliases, defs, nextId)
    }

    function Reg(): Registry
      reads this`aliases, this`defs
    {
      Registry(aliases, defs)
    }

    /** A consistent registry, and no two options share a position. */
    ghost predicate Valid()
      reads this
    {
      State().Valid() && DistinctPositions(options)
    }

    /** `Create`: an empty parser. */
    constructor Create()
      ensures Valid()
      ensures State() == Table([], map[], map[], 0)
      ensures options == map[] && extra == [] && self == ""
    {
      definitions, aliases, defs, nextId := [], map[], map[], 0;
      options, extra, self := map[], [], "";
    }

    /**
     * `AddParameter`: nothing happens when the name normalises to "".
     * Otherwise the caller's alias array is normalised in place and the
     * registry becomes `AddSpec` of the old one, with the arity clamped.
     */
    method AddParameter(name: string, aliasNames: array?<string>, numArgs: int)
      requires Valid()
      modifies this, aliasNames
      ensures Valid()
      ensures options == old(options) && extra == old(extra) && self == old(self)
      ensures GetOptionName(name) == "" ==>
        State() == old(State()) && (aliasNames != null ==> aliasNames[..] == old(aliasNames[..]))
      ensures GetOptionName(name) != "" && aliasNames != null ==>
        aliasNames[..] == Normalized(old(aliasNames[..]))
      ensures GetOptionName(name) != "" ==>
        State() == AddSpec(old(State()), GetOptionName(name),
                           if aliasNames == null then [] else Normalized(old(aliasNames[..])), Clamp(numArgs))
    {
      var n := GetOptionName(name);
      if |n| == 0 {
        return;
      }
      ghost var t := State();
      if aliasNames != null {
        NormalizeNames(aliasNames);
      }
      ghost var names := if aliasNames == null then [] else aliasNames[..];
      var arity := Clamp(numArgs);

      var r := Register(State(), n, aliasNames, arity);
      definitions, aliases, defs, nextId := r.definitions, r.aliases, r.defs, r.nextId;
      AddSpecValid(t, n, names, arity);
    }

    /**
     * `RemoveParameter`: whether the normalised name was bound; if it was,
     * the registry becomes `RemoveSpec` of the old one.
     */
    method RemoveParameter(name: string) returns (removed: bool)
      requires Valid()
      modifies this
      ensures Valid()
      ensures options == old(options) && extra == old(extra) && self == old(self)
      ensures removed <==> GetOptionName(name) in old(aliases)
      ensures removed ==> State() == RemoveSpec(old(State()), GetOptionName(name))
      ensures !removed ==> State() == old(State())
    {
      var n := GetOptionName(name);
      removed := n in aliases;
      if !removed {
        return;
      }
      ghost var t := State();
      var r := Unregister(State(), n);
      definitions, aliases, defs := r.definitions, r.aliases, r.defs;
      RemoveSpecValid(t, n);
    }

    /** `reset`: forgets the last evaluation; the registry stays. */
    method Reset()
      modifies this
      ensures options == map[] && extra == [] && self == ""
      ensures State() == old(State())
    {
      if |options| != 0 {
        options := map[];
      }
      if |extra| != 0 {
        extra := [];
      }
      self := "";
    }

    /**
     * `Evaluate`: an empty vector changes nothing. Otherwise the state is
     * reset and rebuilt as `EvalSpec` describes, so it depends only on the
     * registry and the vector; the registry itself stays.
     */
    method Evaluate(args: seq<string>) returns (status: Status)
      requires Valid()
      modifies this
      ensures Valid()
      ensures State() == old(State())
      ensures |args| == 0 ==> status == Ok && options == old(options) && extra == old(extra) && self == old(self)
      ensures |args| > 0 ==> Evaluation(options, extra, self, status) == EvalSpec(Reg(), args)
    {
      if |args| == 0 {
        return Ok;
      }
      Reset();
      var e := EvaluateArgs(Reg(), args);
      EvalPositions(Reg(), args);
      self := e.self;
      options := e.options;
      extra := e.extra;
      status := e.status;
    }

    // -------------------------------------------------------------------
    // Queries over the last evaluation
    // -------------------------------------------------------------------

    function GetArgSelf(): string
      reads this
    {
      self
    }

    function GetArgExtraLength(): int
      reads this
    {
      |extra|
    }

    /**
     * `GetArgExtra`: the extra argument at `index`, or an empty string for a
     * negative index or one past the end. The bound is `index > len`, so
     * `index == len` reads past the slice: callers must not ask for it.
     */
    function GetArgExtra(index: int): (r: String)
      reads this
      requires index != |extra|
      ensures 0 <= index < |extra| ==> r == extra[index]
      ensures !(0 <= index < |extra|) ==> r == String("")
    {
      if index < 0 || index > GetArgExtraLength() then String("") else extra[index]
    }

    function GetArgLength(): int
      reads this
    {
      |options|
    }

    /** `GetArgExists`: whether the definition a name resolves to was evaluated under its long name. */
    function GetArgExists(name: string): (r: bool)
      reads this
      requires Valid()
      ensures r ==> GetOptionName(name) in aliases
      ensures r <==> GetOptionName(name) in aliases && defs[aliases[GetOptionName(name)]].name in options
    {
      var long := LongName(Reg(), name);
      if |long| > 0 then long in options else false
    }

    /**
     * `GetArgPosition`: the named result `exists` is shadowed inside the
     * function, so the reported flag is always false; the position is still
     * filled in when the option exists.
     */
    function GetArgPosition(name: string): (r: (int, bool))
      reads this
      requires Valid()
      ensures !r.1
      ensures GetArgExists(name) ==> r.0 == options[LongName(Reg(), name)].position
      ensures !GetArgExists(name) ==> r.0 == 0
    {
      var long := LongName(Reg(), name);
      if |long| > 0 then
        var found := long in options;
        var pos := if found then options[long].position else 0;
        (pos, false)
      else (0, false)
    }

    /**
     * `GetArgNameByPosition`: the key of the option at position `pos`; there
     * is none for a position outside `[0, len(options))`, and since positions
     * are distinct there is never more than one.
     */
    method GetArgNameByPosition(pos: int) returns (name: string, found: bool)
      requires Valid()
      ensures found <==> 0 <= pos < |options| && exists k :: k in options && options[k].position == pos
      ensures found ==> name in options && options[name].position == pos
      ensures found ==> forall k :: k in options && options[k].position == pos ==> k == name
      ensures !found ==> name == ""
    {
      name, found := "", false;
      if pos < 0 || pos >= |options| {
        return;
      }
      var keys := options.Keys;
      while keys != {}
        invariant keys <= options.Keys
        invariant forall k :: k in options && k !in keys ==> options[k].position != pos
        decreases keys
      {
        var k :| k in keys;
        if options[k].position == pos {
          name, found := k, true;
          return;
        }
        keys := keys - {k};
      }
    }

    /** `GetArgParamLength`: the number of values of an evaluated option, -1 for any other name. */
    function GetArgParamLength(name: string): (r: int)
      reads this
      requires Valid()
      ensures r == -1 <==> !GetArgExists(name)
      ensures r >= 0 ==> r == |options[LongName(Reg(), name)].value|
    {
      var long := LongName(Reg(), name);
      if |long| == 0 then -1
      else if long !in options then -1
      else |options[long].value|
    }

    /**
     * `GetArgParam`: the value at `index` of an evaluated option. The flag
     * holds exactly for an index in `[0, GetArgParamLength(name))`; otherwise
     * the value is the nil interface (`None`).
     */
    function GetArgParam(name: string, index: int): (r: (Option<String>, bool))
      reads this
      requires Valid()
      ensures r.1 <==> GetArgExists(name) && 0 <= index < GetArgParamLength(name)
      ensures r.1 ==> r.0 == Some(options[LongName(Reg(), name)].value[index])
      ensures !r.1 ==> r.0 == None
    {
      var long := LongName(Reg(), name);
      if |long| == 0 then (None, false)
      else if long !in options then (None, false)
      else if index < 0 || index >= |options[long].value| then (None, false)
      else (Some(options[long].value[index]), true)
    }
  }

  /** Two names bound to the same definition see the same option through every query. */
  lemma AliasesShareEntry(p: Parameter, a: string, b: string, index: int)
    requires p.Valid()
    requires GetOptionName(a) in p.aliases && GetOptionName(b) in p.aliases
    requires p.aliases[GetOptionName(a)] == p.aliases[GetOptionName(b)]
    ensures p.GetArgExists(a) == p.GetArgExists(b)
    ensures p.GetArgParamLength(a) == p.GetArgParamLength(b)
    ensures p.GetArgParam(a, index) == p.GetArgParam(b, index)
    ensures p.GetArgPosition(a) == p.GetArgPosition(b)
  {
  }

  /**
   * The plain accessors after an evaluation of a non-empty vector: `self` is
   * the first token unless it is an option, there are no more options than
   * tokens after `self`, and the extra arguments are the tail of the vector
   * in order on success and absent after an error.
   */
  lemma EvaluatedQueries(p: Parameter, args: seq<string>, status: Status)
    requires p.Valid() && |args| > 0
    requires Evaluation(p.options, p.extra, p.self, status) == EvalSpec(p.Reg(), args)
    ensures p.GetArgSelf() == (if IsOption(args[0]) then "" else args[0])
    ensures p.GetArgLength() <= |args| - Start(args)
    ensures p.GetArgExtraLength() <= |args| - Start(args)
    ensures status.Ok? ==> forall i :: 0 <= i < p.GetArgExtraLength() ==>
      p.GetArgExtra(i) == String(args[|args| - p.GetArgExtraLength() + i])
    ensures !status.Ok? ==> p.GetArgExtraLength() == 0
  {
    var reg := p.Reg();
    EvalPositions(reg, args);
    ScanSize(reg, args, Start(args));
    EvalSplit(reg, args);
  }
}
