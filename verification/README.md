# cleo `Input`: binding and validating a command's arguments and options

This project is a Dafny model of the base `Input` class of the cleo console
library (`cleo/io/inputs/input.py`). An `Input` binds a command's `Definition`
to the values supplied for its arguments and options. The `Definition` is the
catalogue of declared arguments (in order, each required or optional, with a
default) and options (each with a default). The `Input` keeps two sparse maps
of explicitly bound values, `_arguments` and `_options`, and:

- `bind` stores a definition, empties both maps and lets the concrete parser fill them;
- `validate` reports every required argument that is still unbound, all at once;
- `argument`/`option` answer the bound value, else the declared default, and
  reject undeclared names; `set_argument`/`set_option` reject them too;
- the `arguments`/`options` properties merge defaults with bindings, bindings winning;
- a non-interactive input answers `read`/`read_line` with the caller's default
  without touching its stream.

Files:

- `wrappers.dfy` (module `Wrappers`): `Optional`, `Result` and `Outcome`, which
  stand for the exceptions the source raises.
- `definition.dfy` (module `Definitions`): the `Definition` as a read-only
  value, with `HasArgument`/`HasOption`, lookups by name (the first
  declaration of a name, found by one shared `FirstIndex`) and the
  `ArgumentDefaults`/`OptionDefaults` maps.
- `input.dfy` (module `Inputs`): the error kinds and messages, the
  specification functions `MissingRequired`, `Validation`, `Assign` and
  `Parse` with their lemmas, and the class `Input`. The class has the source's
  fields (`definition`, `boundArguments`, `boundOptions`, `interactive`,
  `stream`). Its methods update them in place. Its invariant `Valid()` says
  that only declared names are ever bound.

Modelling choices:

- The abstract `_parse` hook is a parameter of `Bind`. It is a sequence of
  `Assignment`s, the `set_argument`/`set_option` calls a concrete parser would
  make for its tokens. `Bind` runs them in order through `SetArgument` and
  `SetOption`. The first one that raises ends the bind, and the writes made
  before it stay, exactly as an exception escaping `_parse` would leave them.
- Python's `__init__(definition)` either succeeds or raises out of `bind` or
  `validate`. It is split in two. The constructor `Input()` is `__init__(None)`.
  The static method `Create` is the general case. It returns the new input
  together with the outcome of `bind` then `validate`, instead of raising.
- Exceptions are `Outcome`/`Result` values. `Error.Kind()` gives the
  exception class (`RuntimeException` for validation, `ValueException` for
  unknown names). `Error.Message()` gives the exact message text.
- Values are the `Value` datatype. Python's `None` is `Null`, and a binding to
  `Null` counts as present for `validate`.

## Model

| member | source | states |
|---|---|---|
| `Inputs.Input.constructor` | cleo/io/inputs/input.py:22-30 | a fresh input without a definition is interactive, has no stream, an empty definition and nothing bound |
| `Inputs.Input.Create` | cleo/io/inputs/input.py:22-33 | with a definition, the input is bound (the parse runs over empty maps) and then validated; the outcome is the bind's error if it raised, else the validation's; without one it is the empty input |
| `Inputs.Input.Arguments` | cleo/io/inputs/input.py:35-37 | the merged view's keys are the declared names plus the bound names (exactly the declared names under the invariant); a bound value wins over the default |
| `Inputs.Input.Options` | cleo/io/inputs/input.py:39-41 | the same merge for options |
| `Inputs.Input.Read` | cleo/io/inputs/input.py:58-65 | a non-interactive input returns the caller's default; an interactive one hands the read to its stream; no state changes in either case |
| `Inputs.Input.ReadLine` | cleo/io/inputs/input.py:67-76 | the same short-circuit for line reads |
| `Inputs.Input.IsInteractive` | cleo/io/inputs/input.py:90-91 | answers the interactivity flag, the one `Read`/`ReadLine` test |
| `Inputs.Input.SetInteractive` | cleo/io/inputs/input.py:93-94 | afterwards `IsInteractive()` is the flag given; nothing else changes |
| `Inputs.Input.Bind` | cleo/io/inputs/input.py:96-105 | stores the definition, keeps the invariant, and leaves exactly the bindings and status of running the parse over empty maps; every binding left afterwards was written by the parse, so none from before the call survives |
| `Inputs.ParseKeepsDeclared` | cleo/io/inputs/input.py:130-152 | setter calls only ever bind declared names, so a parse keeps the invariant |
| `Inputs.ParseBindsOnlyItsSteps` | cleo/io/inputs/input.py:96-105 | after a parse every binding either predates it unchanged or was written, with that very value, by one of its steps |
| `Inputs.ParseFailureNamesUndeclared` | cleo/io/inputs/input.py:130-152 | a parse that fails does so on a step naming an undeclared argument or option, and the error names it |
| `Inputs.Input.Validate` | cleo/io/inputs/input.py:107-119 | the loop computes exactly `Validation` of the current state and changes nothing, so a second call gives the same outcome |
| `Inputs.Validation` | cleo/io/inputs/input.py:107-119 | passes iff every required argument has a binding (`None` included); otherwise a `RuntimeException` naming exactly the required unbound arguments, all of them, as the list `MissingRequired` gives in declaration order |
| `Inputs.MissingRequiredAppend` | cleo/io/inputs/input.py:108-112 | the missing names of a concatenation of declarations are the two lists concatenated, so names are reported in declaration order |
| `Inputs.MissingRequiredExactly` | cleo/io/inputs/input.py:110-112 | a name is reported iff a required argument of that name is unbound |
| `Inputs.ReportAllScenario` | cleo/io/inputs/input.py:108-114 | with `a`, `b`, `c` required and none bound, validation fails naming all three, in declaration order |
| `Inputs.ReportAllMessage` | cleo/io/inputs/input.py:115-119 | the three names give the message `Not enough arguments (missing: "a, b, c")` |
| `Inputs.Error.Kind` | cleo/io/inputs/input.py:114-123 | a validation failure is a `RuntimeException`; an unknown argument or option is a `ValueException` |
| `Inputs.Error.Message` | cleo/io/inputs/input.py:114-150 | the exact texts: `Not enough arguments (missing: "…")` with the names comma-joined (the last one after the others and a `, `), `The argument "name" does not exist`, `The option "--name" does not exist` |
| `Inputs.JoinAppend` | cleo/io/inputs/input.py:116-118 | `", ".join` keeps the order of its parts: joining one more part appends the separator and that part |
| `Inputs.GreetingSession` | cleo/io/inputs/input.py:22-33 | an `Input` built over a required `name` and an optional `greeting` (default "hello") with `name` bound to "world" is created without error, answers "world" and "hello", and validates |
| `Inputs.GreetingParse` | cleo/io/inputs/input.py:35-37 | over a required `name` and an optional `greeting` (default "hello"), a parse setting `name` to "world" binds exactly that, and the merged view still gives `greeting` its default |
| `Inputs.GreetingValidation` | cleo/io/inputs/input.py:107-119 | for the same command, binding `name` passes validation; binding nothing fails naming just `name` |
| `Inputs.Input.Argument` | cleo/io/inputs/input.py:121-128 | succeeds iff the name is declared, else a `ValueException` for that name; the value is the merged view's entry, and the bound value when there is one |
| `Inputs.Input.SetArgument` | cleo/io/inputs/input.py:130-134 | on a declared name the binding is overwritten, so `Argument(name)` is the new value whatever the default; other arguments and all options are unchanged; on an undeclared name it fails and nothing changes |
| `Inputs.Input.HasArgument` | cleo/io/inputs/input.py:136-137 | true iff the definition declares an argument of that name |
| `Inputs.Input.Option` | cleo/io/inputs/input.py:139-146 | mirrors `Argument` on the option namespace, with the `--name` message |
| `Inputs.Input.SetOption` | cleo/io/inputs/input.py:148-152 | mirrors `SetArgument` on the option namespace; arguments are unchanged |
| `Inputs.Input.HasOption` | cleo/io/inputs/input.py:154-155 | true iff the definition declares an option of that name |
| `Inputs.Input.SetStream` | cleo/io/inputs/input.py:163-164 | the stream is replaced; the old one is not closed and nothing else changes |

## Left out

- Interactive reads: `read` and `read_line` on an interactive input call the
  stream's `read`/`readline`, a foreign text stream. The model stops at
  "handed to the stream" (`StreamRead`). A read with no stream set, which
  fails in Python, is not distinguished.
- `close` and `is_closed` only delegate to the foreign stream. The `stream`
  property is the plain field `stream`.
- `escape_token` depends on a regular expression and on `shell_quote`. As
  written, its `re.match` call also lacks the string to match.
- `first_argument`, `script_name`, `has_parameter_option`, `parameter_option`
  and `_parse` are abstract and only raise `NotImplementedError` here. Their
  token-matching rules belong to the concrete inputs, which are not part of
  this model. `_parse` is represented by the `Assignment` sequence given to `Bind`.
- `ArgumentDefaults`/`OptionDefaults` are taken to be total over the declared
  names, each mapped to its spec's default. The `Definition` source
  (`cleo/io/inputs/definition.py`) is not part of this model, so this cannot be
  checked against it; in `input.py` only the merges at lines 37 and 41 use these maps.
- Errors of a concrete parser's own (a tokenizer rejecting its tokens) are not
  represented: the parse is only a sequence of setter calls, so `Bind` fails
  only with `UnknownArgument` or `UnknownOption`, while the source's `bind`
  passes on whatever `_parse` raises.
- `Inputs.Input.Create`: an `__init__` that raises yields no object in
  Python. The model returns the half-built input next to the error.
- The `Definition` class (`cleo/io/inputs/definition.py`) is not part of this
  model. Its construction and invariants (unique names, list argument last)
  are taken as given. Lookups take the first declaration of a name.
- `cleo/testers/command_tester.py` only wires foreign collaborators together
  (command, buffered I/O, string input).
