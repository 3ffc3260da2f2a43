# go-cmdargs in Dafny

A model of the command-line argument parser `cmdargs` (Go). The parser
object `Parameter` holds a registry of option definitions: a long name and
an arity (`numArgs`), shared by the name and all its aliases. `Evaluate`
splits an argument vector into three parts. The first token becomes the
program name ("self") unless it looks like an option. Then come the options,
each with the values it consumes. The rest becomes the extra arguments.
Read-only queries answer questions about the last evaluation. Every value is
a `String`, which converts itself on demand to a string, bool, int64, uint64
or float64 through fixed cascades of `strconv` parses.

Modules, one concept each:

- `Wrappers`: `Option`.
- `Strings`: the Go `strings` functions the parser uses (`TrimSpace`, `Split`).
- `Strconv`: `ParseBool`, and the base-detecting `ParseUint`/`ParseInt`.
  Floats are a parameter (`FloatConv`) and are not interpreted.
- `Datatypes`: the `String` value type and its conversion cascades.
- `OptionNames`: `isOption`, `getOptionName`, `trimArg`.
- `Registries`: the registry as a value (`Table`), what adding and removing
  a definition mean (`AddSpec`, `RemoveSpec`), and `getLongOptionName`.
- `Evaluator`: evaluation as pure functions.
  - `ArgSpec` is one `evalArg` step.
  - `ScanFrom` is the option loop.
  - `Record` is the options map the loop builds.
  - `EvalSpec` is the whole state an evaluation leaves.
- `EvaluationExamples`: whole command lines, stated over arbitrary names and
  values.
- `CmdArgs`: the `Parameter` class and the loops of the source as methods.
  Each method is proved against the functions above.

A definition object shared by pointer is modelled by an arena. `defs` maps a
handle (`DefId`) to the definition, and `aliases` maps each name to a handle.
`definitions` lists the handles in insertion order. Updating the shared
object in place is updating one slot of `defs`.

The model follows the code of `cmdargs.go`, also where the code does
something other than its own comments say or leaves a case unsaid:

- The comment on `Evaluate` (cmdargs.go:120-121) says that only the last
  instance of a repeated option is preserved. The code (cmdargs.go:148-153)
  keeps the entry made by the FIRST instance, with its position, and only
  overwrites its values with the later ones. The position counter still
  moves on every instance, so positions are not dense.
- `isOption` (cmdargs.go:366-369) accepts a bare `-` (and a bare `--`).
  Both name the empty option, which is never registered, so evaluation
  fails on them.
- The comment on `trimArg` (cmdargs.go:328) says it removes double quotes
  "if needed". The code (cmdargs.go:333-338) strips them only when the
  trimmed token starts and ends with `"`. A token quoted at one end only is
  kept as it is.
- The comment at cmdargs.go:303 says later `=` signs are part of the value.
  For `--n=x=y`, the rejoin (cmdargs.go:302-306) appends the argument
  vector's `args[i]`, not the token's pieces. When the vector is shorter
  than the piece count, it reads past the vector.
- The comment on `Evaluate` (cmdargs.go:123) names the error but not what
  is kept. After an error the code returns at cmdargs.go:144, so the
  options parsed so far stay, the extra arguments are empty and `self` is
  already set.
- `getLongOptionName` (cmdargs.go:346) normalises once more, which matters
  for names that still start with a dash after the first normalisation.
  Two cases follow.
  - A token such as `---x` names the key `-x` (declared by `---x`).
    Resolving it looks up `x` instead. When `x` is not registered, the
    result is `""`, and the option loop stops after swallowing that token.
  - A plain alias `y` may belong to a definition whose long name is `-x`.
    Then `prog --y` succeeds, and the option loop stores the entry under
    `x`, the long name normalised once more (cmdargs.go:147). The queries
    by name (cmdargs.go:208, 217, 245, 256) look up `getLongOptionName(y)`,
    which is `-x`, so they never find that entry.
- `GetArgPosition` (cmdargs.go:219) always reports `exists == false`,
  because the `:=` declares a new `exists` that shadows the named result.
- `GetArgExtra` (cmdargs.go:180) checks `index > len` rather than
  `index >= len`.

## Model

| member | source | states |
|---|---|---|
| Strings.Split | cmdargs.go:289-290 | `strings.Split` always returns at least one piece, so the `len(args0) == 0` branch is dead |
| Strings.SplitPieces | cmdargs.go:289 | no piece contains the separator, and joining the pieces with it gives back the token |
| Strings.SplitJoin | cmdargs.go:289 | pieces free of the separator are recovered by splitting their join |
| Strings.SplitNoSep | cmdargs.go:289 | a token without `=` splits into itself alone |
| Strings.SplitPrefix | cmdargs.go:289 | the text before the first separator is the first piece; the rest splits independently |
| Strings.TrimLeftSpec | cmdargs.go:331 | left trimming drops exactly a leading run of white space and leaves a suffix not starting with space |
| Strings.TrimRightSpec | cmdargs.go:331 | right trimming drops exactly a trailing run of white space and leaves a prefix not ending with space |
| Strings.TrimSpace | cmdargs.go:331 | `strings.TrimSpace` never lengthens the token; what it removes is stated by `TrimSpaceEnds` and `TrimSpacePadded` |
| Strings.TrimSpaceEnds | cmdargs.go:331 | the trimmed token neither starts nor ends with white space |
| Strings.TrimSpacePadded | cmdargs.go:331 | only the padding goes: a text without space at its ends survives any surrounding white space |
| OptionNames.IsOption | cmdargs.go:367-369 | a token is an option exactly when it is non-empty and starts with `-` (a bare `-` included) |
| OptionNames.GetOptionName | cmdargs.go:356-364 | the result is shorter than the name exactly when the name is an option |
| OptionNames.OptionNameShape | cmdargs.go:356-364 | exactly one prefix of dashes is removed, two exactly when the name starts with `--`, and the rest is a suffix of the name |
| OptionNames.OptionNamePrefixes | cmdargs.go:356-364 | `--n` and (for `n` not starting with `-`) `-n` and `n` all normalise to `n` |
| OptionNames.BareDashes | cmdargs.go:356-369 | `-` and `--` are options whose name is empty |
| OptionNames.Normalized | cmdargs.go:65-67 | each alias, position by position, with its prefix stripped |
| OptionNames.TrimArg | cmdargs.go:329-341 | white space is trimmed; a token quoted at both ends loses both quotes (a lone `"` gives ""), any other token only its white space |
| OptionNames.TrimArgUnquotes | cmdargs.go:329-341 | any text wrapped in double quotes and white space comes back unchanged |
| OptionNames.TrimArgPlain | cmdargs.go:329-341 | an unquoted value without space at its ends is kept, padding aside |
| OptionNames.TrimArgHalfQuoted | cmdargs.go:333 | a token quoted on the left only keeps its quote |
| OptionNames.TrimArgSingleQuotes | cmdargs.go:330-333 | single quotes are not stripped |
| OptionNames.TrimArgLoneQuote | cmdargs.go:333-337 | a lone `"` is both the opening and the closing quote and leaves "" |
| Registries.LongName | cmdargs.go:344-353 | non-empty exactly when the normalised alias is registered, and then the long name of its definition |
| Registries.Bind | cmdargs.go:78-85 | the alias loop as a fold over the aliases in order; its bindings are stated by `BindEntries` |
| Registries.BindEntries | cmdargs.go:78-85 | binding adds exactly the non-empty aliases, each to the definition; other keys keep their binding |
| Registries.Unbind | cmdargs.go:104-109 | exactly the keys not bound to the removed definition remain, unchanged |
| Registries.WithoutAt | cmdargs.go:95-103 | removing the first occurrence at index `i` closes the gap, keeping the order of the rest |
| Registries.AddSpec | cmdargs.go:61-86 | the registry after `AddParameter`; what it binds is stated by `AddSpecBinds`, that it stays consistent by `AddSpecValid` |
| Registries.AddSpecBinds | cmdargs.go:61-86 | the name and every non-empty alias resolve to one definition with the new arity; a known name keeps its definition and place; a new one is appended; unrelated names and definitions are unchanged |
| Registries.AddSpecValid | cmdargs.go:61-86 | adding keeps the registry consistent: names bound to live definitions, each listed once |
| Registries.RemoveSpec | cmdargs.go:90-112 | the registry after `RemoveParameter` on a bound name; what it unbinds is stated by `RemoveSpecUnbinds`, that it stays consistent by `RemoveSpecValid` |
| Registries.RemoveSpecUnbinds | cmdargs.go:90-112 | no name resolves to the removed definition; it left the list at its one place, the others in order; every other binding and every other definition is unchanged, and no handle is reused |
| Registries.CutDistinct | cmdargs.go:95-103 | cutting one element from a repetition-free list leaves the others, still without repetitions |
| Registries.RemoveSpecValid | cmdargs.go:90-112 | removing keeps the registry consistent |
| Strconv.ParseBool | datatypes.go:43 | true exactly on `1 t T TRUE true True`, false exactly on `0 f F FALSE false False`, an error on anything else |
| Strconv.ParseUint | datatypes.go:87 | a result is always within uint64 range |
| Strconv.ParseInt | datatypes.go:65 | a result is always within int64 range |
| Strconv.ParseUintRejectsSign | datatypes.go:87 | the unsigned parse rejects any sign |
| Strconv.ParseUintDecimal | datatypes.go:87 | parsing the decimal text of any uint64 gives it back |
| Strconv.ParseUintHex | datatypes.go:87 | `0x` and the hex digits of any uint64 parse back to it |
| Strconv.ParseUintOctal | datatypes.go:87 | a leading `0` and the octal digits of any uint64 parse back to it |
| Strconv.ParseIntDecimal | datatypes.go:65 | the decimal text of any int64, both ends included, parses back to it |
| Datatypes.String.Str | datatypes.go:26-30 | always the raw text, with `ok` |
| Datatypes.String.ToString | datatypes.go:34-37 | the raw text |
| Datatypes.String.Bool | datatypes.go:42-53 | `ok` exactly when some parse of the cascade succeeds; false otherwise |
| Datatypes.String.Int | datatypes.go:64-75 | `ok` exactly when the integer, float or boolean parse succeeds; 0 otherwise |
| Datatypes.String.Uint | datatypes.go:86-97 | `ok` exactly when the unsigned parse, a non-negative float or the boolean parse succeeds; 0 otherwise |
| Datatypes.String.Float | datatypes.go:108-119 | `ok` exactly when the float, integer or boolean parse succeeds; 0.0 otherwise |
| Datatypes.String.ToBool | datatypes.go:57-60 | the value of `Bool()` when it succeeds, false when it fails |
| Datatypes.String.ToInt | datatypes.go:79-82 | the value of `Int()` when it succeeds, 0 when it fails |
| Datatypes.String.ToUint | datatypes.go:101-104 | the value of `Uint()` when it succeeds, 0 when it fails |
| Datatypes.String.ToFloat | datatypes.go:123-126 | the value of `Float()` when it succeeds, 0.0 when it fails |
| Datatypes.BoolLexiconFirst | datatypes.go:42-44 | lexicon words decide `Bool()` before any numeric parse |
| Datatypes.BoolFromFloat | datatypes.go:49-50 | off the lexicon and the integer syntax, a parsed float `f` gives `(f != 0.0, true)` |
| Datatypes.BoolFromInteger | datatypes.go:46-47 | off the lexicon, an integer `i` gives `(i != 0, true)` |
| Datatypes.CascadeOrder | datatypes.go:42-119 | `Int`, `Uint` and `Bool` try the integer parse before the float parse; `Float` tries the float parse first |
| Datatypes.BoolWordsAsNumbers | datatypes.go:71-116 | `"true"` and `"false"` fall through to the lexicon in `Int`, `Uint` and `Float`: 1 and 0 |
| Datatypes.IntBaseDetection | datatypes.go:64-66 | `0x1F` is 31, `017` is 15, `-0x10` is -16, `42` is 42 |
| Datatypes.UintRejectsNegative | datatypes.go:86-96 | `Uint()` never succeeds on a signed negative number |
| Datatypes.UintMinusFive | datatypes.go:86-96 | `"-5"` gives `(0, false)` |
| Evaluator.TrimAll | cmdargs.go:318-321 | the value tokens, each through `trimArg`, in order |
| Evaluator.Rejoin | cmdargs.go:302-306 | the value starts with the piece after the first `=`, and is that piece alone exactly when `n <= 2` |
| Evaluator.RejoinJoins | cmdargs.go:302-306 | for `n > 2` the value is the piece after the first `=` and the argument vector's `args[2..n]` (not the token's pieces), joined by `=` |
| Evaluator.ArgSpec | cmdargs.go:280-326 | a resolved option ends within the vector, past its own token |
| Evaluator.ArgUnrecognized | cmdargs.go:294-295 | an option token whose normalised name is not registered fails, naming it |
| Evaluator.BareDashFails | cmdargs.go:286-295 | a bare `-` or `--` is evaluated as an option and fails as unrecognised |
| Evaluator.ArgFailures | cmdargs.go:300-315 | a registered token panics exactly when it takes arguments and has a second `=` with a vector shorter than its pieces; otherwise it fails exactly when fewer tokens remain than it still needs, reporting available and needed |
| Evaluator.ArgArity | cmdargs.go:297-323 | on success there are exactly `numArgs` values; when the option takes arguments and its token has an `=`, the first is `trimArg` of the rejoined text after the first `=` (an `=` value is dropped when it takes none); the rest are the next tokens trimmed; the name is `getLongOptionName` of the token's normalised name |
| Evaluator.ArgInlineValue | cmdargs.go:300-315 | `--n=v` (arity > 0) succeeds exactly when `numArgs - 1` tokens remain: `trimArg(v)` then those tokens trimmed, `numArgs` values, next index `index + numArgs`; otherwise "too few" with the remaining count and `numArgs - 1`, never a panic |
| Evaluator.Record | cmdargs.go:147-153 | the options map built occurrence by occurrence; what it holds is stated by `RecordEntries` and `RecordPositions` |
| Evaluator.RecordEntries | cmdargs.go:147-153 | the map holds exactly the keys that occur, each with the position of its first and the values of its last occurrence |
| Evaluator.RecordPositions | cmdargs.go:138-154 | no two options share a position, and every position is below the number of occurrences |
| Evaluator.ScanFrom | cmdargs.go:139-155 | the loop stops within the vector, at or after where it started |
| Evaluator.Wrap | cmdargs.go:157-160 | each token as a `String` value, in order |
| Evaluator.EvalSpec | cmdargs.go:124-163 | the state `Evaluate` leaves on a non-empty vector; stated by `EvalSplit`, `EvalPositions` and `FailureKeepsRecorded` |
| Evaluator.PlainOptionResolves | cmdargs.go:286 | with plain names, an empty long name comes only from a non-option token, with the index unchanged |
| Evaluator.ScanStopsAtNonOption | cmdargs.go:145 | with plain names, a successful loop stops at the end or at a non-option token |
| Evaluator.EvalSplit | cmdargs.go:131-160 | self is the first token exactly when it is not an option; on success the extras are a suffix of the vector in order; after an error there are none |
| Evaluator.RecordSize | cmdargs.go:149-154 | there are no more options than occurrences |
| Evaluator.ScanSize | cmdargs.go:139-155 | there are no more occurrences than tokens scanned |
| Evaluator.EvalPositions | cmdargs.go:138-154 | the evaluated options have distinct positions, no more of them than occurrences |
| Evaluator.StoredKeyIsQueriedKey | cmdargs.go:147 | with plain names, an option is stored under the key every name of its definition is queried by |
| Evaluator.FailureKeepsRecorded | cmdargs.go:143-153 | when the loop fails or panics at a token, the options recorded before it stay (keys, first positions, latest values), there are no extras, and the status is that token's error |
| EvaluationExamples.LongToken | cmdargs.go:289-291 | `--n` names the option `n` |
| EvaluationExamples.ShortToken | cmdargs.go:289-291 | `-n` names the option `n` |
| EvaluationExamples.OptionThenExtras | cmdargs.go:124-163 | `prog --help f...`: self `prog`, `help` at position 0 with no values, the files as extras |
| EvaluationExamples.MissingArguments | cmdargs.go:311-315 | `prog --position 1` with arity 2 fails with one available, two needed, nothing recorded |
| EvaluationExamples.UnknownOption | cmdargs.go:294-295 | an unknown option fails naming it, and nothing is recorded |
| EvaluationExamples.RepeatedOption | cmdargs.go:147-154 | `--a v1 -b v2` for one definition: one entry, the later value, the first position, no self |
| EvaluationExamples.RepeatedScan | cmdargs.go:139-155 | the loop over `--a v1 -b v2` records two occurrences under the one long name |
| EvaluationExamples.ValueStep | cmdargs.go:143-154 | one step over `-n v` with arity 1 records `trimArg(v)` and continues two tokens on |
| EvaluationExamples.OneValue | cmdargs.go:280-326 | `-n v` with arity 1 evaluates to the long name, `[trimArg(v)]` and the index after `v` |
| EvaluationExamples.RecordOnce | cmdargs.go:149-153 | a single occurrence is recorded at position 0 |
| EvaluationExamples.RecordSameKeyTwice | cmdargs.go:149-153 | two occurrences of one key: one entry, the later values, position 0 |
| EvaluationExamples.BareDashOption | cmdargs.go:367-369 | `prog -` fails as the unrecognised empty option |
| EvaluationExamples.TwoEquals | cmdargs.go:289-291 | `--n=x=y` splits into the name and two pieces |
| EvaluationExamples.SplitThree | cmdargs.go:289 | three separator-free texts joined by `=` split back into those three |
| EvaluationExamples.RejoinReadsArgumentVector | cmdargs.go:300-306 | `prog --n=x=y z` with arity 1 gives the value `x=z`: the rejoin reads the vector |
| EvaluationExamples.RejoinPastTheEnd | cmdargs.go:302-305 | a lone `--n=x=y` reads past the vector at index 2 |
| EvaluationExamples.DashedNameIsSwallowed | cmdargs.go:291-323 | `prog ---x rest` with the key `-x` registered and `x` not: the token's name `-x` is stripped again to `x`, resolves to "", and the loop ends after swallowing the token, with `rest` as the extras |
| EvaluationExamples.DashedLongNameIsHidden | cmdargs.go:147-153 | `prog --y` with `y` bound to the long name `-x`: success, the entry stored under `x`, while `getLongOptionName(y)` is `-x`, not a key of the options |
| EvaluationExamples.KnownThenUnknown | cmdargs.go:143-153 | `prog --a --bogus`: `a` stays recorded at position 0, no extras, self `prog`, status "unrecognised `bogus`" |
| EvaluationExamples.PositionsSkipRepeats | cmdargs.go:148-154 | `--a --a --b`: two options, `b` at position 2 and none at position 1, so `GetArgNameByPosition(2)` (cmdargs.go:229) is refused |
| CmdArgs.NormalizeNames | cmdargs.go:65-67 | the caller's alias array is overwritten in place with the normalised names |
| CmdArgs.BindNames | cmdargs.go:79-85 | the loop binds the non-empty aliases in order, as `Bind` |
| CmdArgs.Register | cmdargs.go:71-85 | the registry updates of `AddParameter` are `AddSpec` |
| CmdArgs.Unregister | cmdargs.go:93-109 | the shift-delete loop and the key-deletion loop give `RemoveSpec` |
| CmdArgs.RejoinPieces | cmdargs.go:300-306 | the rejoin panics exactly when there are more than two pieces and the vector is shorter than the piece count; otherwise it is `Rejoin` |
| CmdArgs.TakeValues | cmdargs.go:318-321 | the value loop takes the next `count` tokens, each trimmed |
| CmdArgs.EvalArg | cmdargs.go:280-326 | `evalArg` is `ArgSpec` |
| CmdArgs.ScanOptions | cmdargs.go:137-155 | the option loop is `ScanFrom`, and the map it builds is `Record` of the occurrences |
| CmdArgs.WrapFrom | cmdargs.go:157-160 | the extra loop wraps every token from the stop index on |
| CmdArgs.EvaluateArgs | cmdargs.go:124-163 | a non-empty vector evaluates to `EvalSpec` |
| CmdArgs.Clamp | cmdargs.go:69 | a negative arity becomes 0; others are kept |
| CmdArgs.Parameter.Create | cmdargs.go:41-48 | an empty, consistent parser |
| CmdArgs.Parameter.AddParameter | cmdargs.go:61-86 | no change for an empty name; otherwise aliases normalised in place, registry becomes `AddSpec`, evaluation state untouched, consistency kept |
| CmdArgs.Parameter.RemoveParameter | cmdargs.go:90-112 | returns whether the normalised name was bound; if so the registry becomes `RemoveSpec`, else nothing changes |
| CmdArgs.Parameter.Reset | cmdargs.go:269-277 | options, extra and self are cleared; the registry stays |
| CmdArgs.Parameter.Evaluate | cmdargs.go:124-163 | an empty vector changes nothing; otherwise options, extra, self and status are `EvalSpec`; the registry stays and positions stay distinct |
| CmdArgs.Parameter.GetArgExtra | cmdargs.go:179-182 | the extra argument at a valid index, `String("")` at a negative or too large one |
| CmdArgs.Parameter.GetArgExists | cmdargs.go:206-213 | true exactly when the name resolves and its long name was evaluated |
| CmdArgs.Parameter.GetArgPosition | cmdargs.go:216-225 | the flag is always false; the position is filled in when the option exists, 0 otherwise |
| CmdArgs.Parameter.GetArgNameByPosition | cmdargs.go:228-238 | found exactly when `pos` is in `[0, len)` and held by an option; the name found is the only one at that position |
| CmdArgs.Parameter.GetArgParamLength | cmdargs.go:244-250 | -1 exactly when the option was not evaluated, otherwise its number of values |
| CmdArgs.Parameter.GetArgParam | cmdargs.go:255-265 | `exists` exactly for an evaluated option and an index in `[0, GetArgParamLength)`; the value there, or nil |
| CmdArgs.AliasesShareEntry | cmdargs.go:206-265 | two names of one definition see the same answer from every query |
| CmdArgs.EvaluatedQueries | cmdargs.go:166-202 | after an evaluation: `GetArgSelf` is the first token unless it is an option; there are no more options or extras than tokens; the extras are the vector's tail, or none after an error |

## Left out

- `GetExpandedArgExtra` (cmdargs.go:187-196): it only hands the extra argument to `filepath.Glob`, which reads the file system.
- example/example.go: a demo that reads `os.Args` and prints; it has no logic of its own.
- Float semantics: `strconv.ParseFloat`, `int64(f)`, `uint64(f)` and `float64(i)` are the fields of a `FloatConv` parameter, not interpreted. A float is a `Float64` value (a finite real, a signed infinity or NaN) on which only `f != 0.0` (`IsZero`) and `f >= 0.0` (`NonNegative`) are defined; -0.0 and 0.0 are one value, as they compare equal in Go.
- Datatypes.String.Float: only the cascade is modelled; the float values it returns come from the uninterpreted conversions above.
- Error message text: errors are `Unrecognized(name)` and `TooFew(available, need)`.
- `strconv.ParseInt`/`ParseUint` with base 0 are modelled for decimal, `0x`/`0X` hex and leading-`0` octal with an optional sign. `0b`, `0o` and `_` separators are not.
- Strconv.ParseInt: the size-0 call in `Bool()` is assumed to be 64-bit, as on every 64-bit platform.
- Go map iteration order in `RemoveParameter` and `GetArgNameByPosition`: the loops pick keys in any order, and their results do not depend on it.
- The deadlock return of `Evaluate` (cmdargs.go:146) is proved unreachable, as an assertion that the index advances.
- Go runtime panics: the rejoin reading past the vector is the `ArgPanicked`/`Panicked` outcome.
- CmdArgs.Parameter.GetArgExtra: requires `index != len(extra)`, the index at which the source reads past the slice and panics.
- Pointer identity: the `*paramType` shared by a name and its aliases is an arena handle, and `definitions` lists handles.
- The `position: -1` placeholder that `evalArg` gives a new entry (cmdargs.go:281) is not modelled; the caller always overwrites it.
- A nil `args` or nil `aliases` is the empty vector or a null array.
- Strings are sequences of code points. Go's byte indexing is the same for the ASCII characters compared (`-`, `"`, `=`), and invalid UTF-8 is not modelled.
- `GetArgSelf`, `GetArgExtraLength` and `GetArgLength` only return a field. `EvaluatedQueries` states what they return after an evaluation.
