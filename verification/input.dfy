/**
 * The base input of a console command: it binds a command's Definition to the
 * values supplied for its arguments and options, checks that every required
 * argument got one, and answers lookups with the bound value or the declared
 * default.
 */
module Inputs {
  import opened Wrappers
  import opened Definitions

  /** The exception class the source raises for an error. */
  datatype ExceptionKind = RuntimeException | ValueException

  /** The failures this core raises itself. */
  datatype Error =
    | NotEnoughArguments(missing: seq<string>)
    | UnknownArgument(name: string)
    | UnknownOption(name: string)
  {
    /** Validation failures are `RuntimeException`s; unknown names are `ValueException`s. */
    function Kind(): (k: ExceptionKind)
      ensures k == RuntimeException <==> NotEnoughArguments?
      ensures k == ValueException <==> (UnknownArgument? || UnknownOption?)
    {
      if NotEnoughArguments? then RuntimeException else ValueException
    }

    /** The message the exception carries. */
    function Message(): (m: string)
      ensures NotEnoughArguments? && |missing| == 1 ==>
        m == "Not enough arguments (missing: \"" + missing[0] + "\")"
      ensures NotEnoughArguments? && |missing| > 1 ==>
        m == "Not enough arguments (missing: \"" + Join(missing[..|missing| - 1], ", ") + ", " + missing[|missing| - 1] + "\")"
      ensures UnknownArgument? ==> m == "The argument \"" + name + "\" does not exist"
      ensures UnknownOption? ==> m == "The option \"--" + name + "\" does not exist"
    {
      match this
      case NotEnoughArguments(missing) =>
        var joined := Join(missing, ", ");
        assert |missing| > 1 ==> joined == Join(missing[..|missing| - 1], ", ") + ", " + missing[|missing| - 1] by {
          if |missing| > 1 {
            JoinAppend(missing[..|missing| - 1], missing[|missing| - 1], ", ");
            assert missing[..|missing| - 1] + [missing[|missing| - 1]] == missing;
          }
        }
        "Not enough arguments (missing: \"" + joined + "\")"
      case UnknownArgument(name) => "The argument \"" + name + "\" does not exist"
      case UnknownOption(name) => "The option \"--" + name + "\" does not exist"
    }
  }

  /** `parts` separated by `sep` (Python's `sep.join(parts)`). */
  function Join(parts: seq<string>, sep: string): string
  {
    if |parts| == 0 then ""
    else if |parts| == 1 then parts[0]
    else parts[0] + sep + Join(parts[1..], sep)
  }

  /** Joining one more part appends the separator and that part: parts keep their order. */
  lemma {:induction false} JoinAppend(parts: seq<string>, last: string, sep: string)
    requires |parts| > 0
    ensures Join(parts + [last], sep) == Join(parts, sep) + sep + last
  {
    if |parts| > 1 {
      assert (parts + [last])[1..] == parts[1..] + [last];
      JoinAppend(parts[1..], last, sep);
    } else {
      assert (parts + [last])[1..] == [last];
    }
  }

  /** An opaque handle on the character stream interactive reads come from. */
  datatype Stream = Stream(handle: nat)

  /**
   * What `read`/`read_line` do: return the caller's default, or hand the
   * request to the stream (a foreign call, not part of this model).
   */
  datatype ReadOutcome = Defaulted(value: Optional<string>) | StreamRead(stream: Optional<Stream>)

  // ---------------------------------------------------------------------------
  // Validation: which required arguments are still unbound
  // ---------------------------------------------------------------------------

  /** The names of the required arguments of `specs` with no binding, in declaration order. */
  function MissingRequired(specs: seq<ArgumentSpec>, bound: map<string, Value>): seq<string>
  {
    if specs == [] then []
    else
      (if specs[0].IsRequired() && specs[0].name !in bound then [specs[0].name] else [])
      + MissingRequired(specs[1..], bound)
  }

  /** The missing list of a concatenation is the concatenation of the missing lists: order is declaration order. */
  lemma {:induction false} MissingRequiredAppend(s: seq<ArgumentSpec>, t: seq<ArgumentSpec>, bound: map<string, Value>)
    ensures MissingRequired(s + t, bound) == MissingRequired(s, bound) + MissingRequired(t, bound)
  {
    if s == [] {
      assert s + t == t;
    } else {
      assert (s + t)[1..] == s[1..] + t;
      MissingRequiredAppend(s[1..], t, bound);
    }
  }

  /** A name is reported iff some required argument of that name has no binding: all of them, and nothing else. */
  lemma {:induction false} MissingRequiredExactly(specs: seq<ArgumentSpec>, bound: map<string, Value>)
    ensures forall n :: n in MissingRequired(specs, bound) <==>
      exists a :: a in specs && a.IsRequired() && a.name == n && n !in bound
  {
    if specs != [] {
      MissingRequiredExactly(specs[1..], bound);
      forall n
        ensures n in MissingRequired(specs, bound) <==>
          exists a :: a in specs && a.IsRequired() && a.name == n && n !in bound
      {
        if n in MissingRequired(specs, bound) && n !in MissingRequired(specs[1..], bound) {
          assert specs[0].IsRequired() && specs[0].name == n && n !in bound;
        }
        if a :| a in specs && a.IsRequired() && a.name == n && n !in bound {
          if a != specs[0] {
            assert a in specs[1..];
          }
        }
      }
    }
  }

  /**
   * What `validate` decides for definition `d` and the bound arguments: it passes
   * iff every required argument is bound (to any value, `None` included), and
   * otherwise names every missing one in a single error.
   */
  function Validation(d: Definition, bound: map<string, Value>): (r: Outcome<Error>)
    ensures r.Pass? <==> forall a :: a in d.arguments && a.IsRequired() ==> a.name in bound
    ensures r.Fail? ==> r.error.NotEnoughArguments? && r.error.Kind() == RuntimeException
    ensures r.Fail? ==> r.error.missing == MissingRequired(d.arguments, bound)
    ensures r.Fail? ==> forall n :: n in r.error.missing <==>
      exists a :: a in d.arguments && a.IsRequired() && a.name == n && n !in bound
  {
    var missing := MissingRequired(d.arguments, bound);
    MissingRequiredExactly(d.arguments, bound);
    assert missing != [] ==> missing[0] in missing;
    if missing == [] then Pass else Fail(NotEnoughArguments(missing))
  }

  // ---------------------------------------------------------------------------
  // Parsing: the abstract `_parse` hook as a sequence of setter calls
  // ---------------------------------------------------------------------------

  /** One value a concrete parser binds, through `set_argument` or `set_option`. */
  datatype Assignment =
    | ArgumentAssignment(name: string, value: Value)
    | OptionAssignment(name: string, value: Value)

  /** The two sparse maps of explicitly bound values. */
  datatype Bindings = Bindings(arguments: map<string, Value>, options: map<string, Value>)
  {
    /** Only declared names are bound. */
    predicate Declared(d: Definition)
    {
      arguments.Keys <= d.ArgumentNames() && options.Keys <= d.OptionNames()
    }
  }

  /** One setter call against definition `d`: an undeclared name fails and binds nothing. */
  function Assign(d: Definition, b: Bindings, step: Assignment): (Bindings, Outcome<Error>)
  {
    match step
    case ArgumentAssignment(n, v) =>
      if d.HasArgument(n) then (b.(arguments := b.arguments[n := v]), Pass)
      else (b, Fail(UnknownArgument(n)))
    case OptionAssignment(n, v) =>
      if d.HasOption(n) then (b.(options := b.options[n := v]), Pass)
      else (b, Fail(UnknownOption(n)))
  }

  /** The setter calls in order; the first failure propagates and ends the parse. */
  function Parse(d: Definition, b: Bindings, steps: seq<Assignment>): (Bindings, Outcome<Error>)
    decreases |steps|
  {
    if steps == [] then (b, Pass)
    else
      var next := Assign(d, b, steps[0]);
      if next.1.Fail? then next else Parse(d, next.0, steps[1..])
  }

  /** One step of a parse: the first setter call, then the rest unless it failed. */
  lemma ParseUnfold(d: Definition, b: Bindings, steps: seq<Assignment>)
    requires steps != []
    ensures var next := Assign(d, b, steps[0]);
      Parse(d, b, steps) == if next.1.Fail? then next else Parse(d, next.0, steps[1..])
  {
  }

  /** Parsing binds only names the definition declares. */
  lemma {:induction false} ParseKeepsDeclared(d: Definition, b: Bindings, steps: seq<Assignment>)
    requires b.Declared(d)
    ensures Parse(d, b, steps).0.Declared(d)
    decreases |steps|
  {
    if steps != [] {
      ParseKeepsDeclared(d, Assign(d, b, steps[0]).0, steps[1..]);
    }
  }

  /**
   * Every binding after a parse was either there before with the same value, or
   * was written by one of the parse's own steps.
   */
  lemma {:induction false} ParseBindsOnlyItsSteps(d: Definition, b: Bindings, steps: seq<Assignment>)
    ensures var r := Parse(d, b, steps).0;
      forall n :: n in r.arguments ==>
        (n in b.arguments && r.arguments[n] == b.arguments[n]) ||
        exists i :: 0 <= i < |steps| && steps[i] == ArgumentAssignment(n, r.arguments[n])
    ensures var r := Parse(d, b, steps).0;
      forall n :: n in r.options ==>
        (n in b.options && r.options[n] == b.options[n]) ||
        exists i :: 0 <= i < |steps| && steps[i] == OptionAssignment(n, r.options[n])
    decreases |steps|
  {
    if steps != [] {
      var b' := Assign(d, b, steps[0]).0;
      ParseBindsOnlyItsSteps(d, b', steps[1..]);
      var r := Parse(d, b, steps).0;
      forall n | n in r.arguments
        ensures (n in b.arguments && r.arguments[n] == b.arguments[n]) ||
          exists i :: 0 <= i < |steps| && steps[i] == ArgumentAssignment(n, r.arguments[n])
      {
        if Assign(d, b, steps[0]).1.Pass? {
          if i :| 0 <= i < |steps[1..]| && steps[1..][i] == ArgumentAssignment(n, r.arguments[n]) {
            assert steps[i + 1] == ArgumentAssignment(n, r.arguments[n]);
          } else if n !in b.arguments || b'.arguments[n] != b.arguments[n] {
            assert steps[0] == ArgumentAssignment(n, r.arguments[n]);
          }
        }
      }
      forall n | n in r.options
        ensures (n in b.options && r.options[n] == b.options[n]) ||
          exists i :: 0 <= i < |steps| && steps[i] == OptionAssignment(n, r.options[n])
      {
        if Assign(d, b, steps[0]).1.Pass? {
          if i :| 0 <= i < |steps[1..]| && steps[1..][i] == OptionAssignment(n, r.options[n]) {
            assert steps[i + 1] == OptionAssignment(n, r.options[n]);
          } else if n !in b.options || b'.options[n] != b.options[n] {
            assert steps[0] == OptionAssignment(n, r.options[n]);
          }
        }
      }
    }
  }

  /** `step` sets a name `d` does not declare, and `e` is the error that reports it. */
  predicate UndeclaredStep(d: Definition, step: Assignment, e: Error)
  {
    match step
    case ArgumentAssignment(n, _) => !d.HasArgument(n) && e == UnknownArgument(n)
    case OptionAssignment(n, _) => !d.HasOption(n) && e == UnknownOption(n)
  }

  /** A failed parse names an undeclared argument or option that one of its steps tried to set. */
  lemma {:induction false} ParseFailureNamesUndeclared(d: Definition, b: Bindings, steps: seq<Assignment>)
    ensures var status := Parse(d, b, steps).1;
      status.Fail? ==> exists i :: 0 <= i < |steps| && UndeclaredStep(d, steps[i], status.error)
    decreases |steps|
  {
    if steps != [] && Assign(d, b, steps[0]).1.Pass? {
      var b' := Assign(d, b, steps[0]).0;
      ParseFailureNamesUndeclared(d, b', steps[1..]);
      var status := Parse(d, b, steps).1;
      if status.Fail? {
        var i :| 0 <= i < |steps[1..]| && UndeclaredStep(d, steps[1..][i], status.error);
        assert steps[i + 1] == steps[1..][i];
      }
    }
  }

  /** A command with a required argument `name` and an optional `greeting` (default "hello"). */
  const Greeting := Definition([ArgumentSpec("name", true, Null), ArgumentSpec("greeting", false, Str("hello"))], [])

  /** Both arguments of the greeting command are declared, and `greeting` defaults to "hello". */
  lemma GreetingDeclarations()
    ensures Greeting.HasArgument("name") && Greeting.HasArgument("greeting")
    ensures Greeting.Argument("greeting").default == Str("hello")
    ensures "greeting" in Greeting.ArgumentDefaults() && Greeting.ArgumentDefaults()["greeting"] == Str("hello")
  {
    assert Greeting.arguments[0] in Greeting.arguments;
    assert Greeting.arguments[1] in Greeting.arguments;
    var g := Greeting.Argument("greeting");
    assert g == Greeting.arguments[0] || g == Greeting.arguments[1];
  }

  /** Parsing `name := "world"` binds just that, and the merged view keeps the greeting's default. */
  lemma GreetingParse()
    ensures var parsed := Parse(Greeting, Bindings(map[], map[]), [ArgumentAssignment("name", Str("world"))]);
      && parsed == (Bindings(map["name" := Str("world")], map[]), Pass)
      && (Greeting.ArgumentDefaults() + parsed.0.arguments)["greeting"] == Str("hello")
  {
    GreetingDeclarations();
    var step := ArgumentAssignment("name", Str("world"));
    assert [step][1..] == [];
  }

  /** Binding `name` passes validation; binding nothing fails, naming `name`. */
  lemma GreetingValidation()
    ensures Validation(Greeting, map["name" := Str("world")]) == Pass
    ensures Validation(Greeting, map[]) == Fail(NotEnoughArguments(["name"]))
  {
    var name, greeting := Greeting.arguments[0], Greeting.arguments[1];
    assert [greeting][1..] == [];
    assert MissingRequired([greeting], map[]) == [];
    assert Greeting.arguments[1..] == [greeting];
    assert MissingRequired(Greeting.arguments, map[]) == ["name"];
    assert MissingRequired([greeting], map["name" := Str("world")]) == [];
    assert MissingRequired(Greeting.arguments, map["name" := Str("world")]) == [];
  }

  /** A command with three required arguments `a`, `b` and `c`, in that order. */
  const ThreeRequired := Definition([ArgumentSpec("a", true, Null), ArgumentSpec("b", true, Null), ArgumentSpec("c", true, Null)], [])

  /** With none of them bound, all three are reported, in declaration order. */
  lemma ReportAllScenario()
    ensures Validation(ThreeRequired, map[]) == Fail(NotEnoughArguments(["a", "b", "c"]))
  {
    var a, b, c := ThreeRequired.arguments[0], ThreeRequired.arguments[1], ThreeRequired.arguments[2];
    assert [c][1..] == [] && [b, c][1..] == [c] && ThreeRequired.arguments[1..] == [b, c];
    assert MissingRequired([c], map[]) == ["c"];
    assert MissingRequired([b, c], map[]) == ["b", "c"];
    assert MissingRequired(ThreeRequired.arguments, map[]) == ["a", "b", "c"];
  }

  /** The three names are comma-joined into one message. */
  lemma ReportAllMessage()
    ensures NotEnoughArguments(["a", "b", "c"]).Message() == "Not enough arguments (missing: \"a, b, c\")"
  {
    assert Join(["a", "b", "c"], ", ") == "a, b, c" by {
      assert ["a", "b", "c"][1..] == ["b", "c"];
      assert ["b", "c"][1..] == ["c"];
    }
  }

  // ---------------------------------------------------------------------------
  // The input object
  // ---------------------------------------------------------------------------

  class Input {
    var definition: Definition
    /** Explicitly bound argument values (`_arguments`): sparse, no defaults. */
    var boundArguments: map<string, Value>
    /** Explicitly bound option values (`_options`): sparse, no defaults. */
    var boundOptions: map<string, Value>
    var interactive: bool
    var stream: Optional<Stream>

    /** The bound maps hold only names the definition declares. */
    ghost predicate Valid()
      reads this
    {
      Bindings(boundArguments, boundOptions).Declared(definition)
    }

    /** An input without a definition: an empty one, nothing bound, interactive, no stream. */
    constructor ()
      ensures Valid()
      ensures definition == Definition([], []) && boundArguments == map[] && boundOptions == map[]
      ensures interactive && stream == None
    {
      definition := Definition([], []);
      boundArguments := map[];
      boundOptions := map[];
      interactive := true;
      stream := None;
    }

    /**
     * An input built over a definition when one is given: it is bound (running
     * `parse`) and then validated; `status` is the first error either raises.
     */
    static method Create(d: Optional<Definition>, parse: seq<Assignment>) returns (input: Input, status: Outcome<Error>)
      ensures fresh(input) && input.Valid()
      ensures input.interactive && input.stream == None
      ensures d.None? ==> input.definition == Definition([], []) && status == Pass
      ensures d.None? ==> input.boundArguments == map[] && input.boundOptions == map[]
      ensures d.Some? ==> input.definition == d.value
      ensures d.Some? ==> var parsed := Parse(d.value, Bindings(map[], map[]), parse);
        Bindings(input.boundArguments, input.boundOptions) == parsed.0 &&
        status == if parsed.1.Fail? then parsed.1 else Validation(d.value, input.boundArguments)
    {
      input := new Input();
      status := Pass;
      if d.Some? {
        status := input.Bind(d.value, parse);
        if status.Pass? {
          status := input.Validate();
        }
      }
    }

    /** The effective argument values: every default, overridden by every binding. */
    function Arguments(): (r: map<string, Value>)
      reads this
      ensures r.Keys == definition.ArgumentNames() + boundArguments.Keys
      ensures Valid() ==> r.Keys == definition.ArgumentNames()
      ensures forall n :: n in boundArguments ==> r[n] == boundArguments[n]
      ensures forall n :: n in r && n !in boundArguments ==> r[n] == definition.Argument(n).default
    {
      definition.ArgumentDefaults() + boundArguments
    }

    /** The effective option values: every default, overridden by every binding. */
    function Options(): (r: map<string, Value>)
      reads this
      ensures r.Keys == definition.OptionNames() + boundOptions.Keys
      ensures Valid() ==> r.Keys == definition.OptionNames()
      ensures forall n :: n in boundOptions ==> r[n] == boundOptions[n]
      ensures forall n :: n in r && n !in boundOptions ==> r[n] == definition.Option(n).default
    {
      definition.OptionDefaults() + boundOptions
    }

    /** Reads `length` characters; a non-interactive input answers `default` without touching the stream. */
    method Read(length: int, default: Optional<string> := None) returns (r: ReadOutcome)
      ensures !interactive ==> r == Defaulted(default)
      ensures interactive ==> r == StreamRead(stream)
    {
      if !interactive {
        return Defaulted(default);
      }
      r := StreamRead(stream);
    }

    /** Reads a line; a non-interactive input answers `default` without touching the stream. */
    method ReadLine(length: Optional<int> := None, default: Optional<string> := None) returns (r: ReadOutcome)
      ensures !interactive ==> r == Defaulted(default)
      ensures interactive ==> r == StreamRead(stream)
    {
      if !interactive {
        return Defaulted(default);
      }
      r := StreamRead(stream);
    }

    /** Whether reads go to the stream rather than to the caller's default. */
    function IsInteractive(): (r: bool)
      reads this
      ensures r == interactive
    {
      interactive
    }

    method SetInteractive(flag: bool := true)
      modifies this`interactive
      ensures IsInteractive() == flag
    {
      interactive := flag;
    }

    /**
     * Binds the input to `d`: both maps are emptied, then the concrete parser's
     * setter calls `parse` run in order until one fails.
     */
    method Bind(d: Definition, parse: seq<Assignment>) returns (status: Outcome<Error>)
      modifies this`definition, this`boundArguments, this`boundOptions
      ensures Valid() && definition == d
      ensures (Bindings(boundArguments, boundOptions), status) == Parse(d, Bindings(map[], map[]), parse)
      ensures forall n :: n in boundArguments ==>
        exists i :: 0 <= i < |parse| && parse[i] == ArgumentAssignment(n, boundArguments[n])
      ensures forall n :: n in boundOptions ==>
        exists i :: 0 <= i < |parse| && parse[i] == OptionAssignment(n, boundOptions[n])
    {
      boundArguments := map[];
      boundOptions := map[];
      definition := d;
      status := Pass;
      ParseBindsOnlyItsSteps(d, Bindings(map[], map[]), parse);
      var i := 0;
      while i < |parse|
        invariant 0 <= i <= |parse|
        decreases |parse| - i
        invariant Valid() && definition == d && status == Pass
        invariant Parse(d, Bindings(map[], map[]), parse) == Parse(d, Bindings(boundArguments, boundOptions), parse[i..])
      {
        ghost var before := Bindings(boundArguments, boundOptions);
        match parse[i] {
          case ArgumentAssignment(n, v) => status := SetArgument(n, v);
          case OptionAssignment(n, v) => status := SetOption(n, v);
        }
        assert (Bindings(boundArguments, boundOptions), status) == Assign(d, before, parse[i]);
        ParseUnfold(d, before, parse[i..]);
        assert parse[i..][1..] == parse[i + 1..];
        if status.Fail? {
          return;
        }
        i := i + 1;
      }
    }

    /**
     * Checks that every required argument has a binding, looking at all of them
     * before failing. Changes nothing.
     */
    method Validate() returns (status: Outcome<Error>)
      ensures status == Validation(definition, boundArguments)
    {
      var missing: seq<string> := [];
      for i := 0 to |definition.arguments|
        invariant missing == MissingRequired(definition.arguments[..i], boundArguments)
      {
        var a := definition.arguments[i];
        if a.name !in boundArguments && a.IsRequired() {
          missing := missing + [a.name];
        }
        assert definition.arguments[..i + 1] == definition.arguments[..i] + [a];
        MissingRequiredAppend(definition.arguments[..i], [a], boundArguments);
      }
      assert definition.arguments[..|definition.arguments|] == definition.arguments;
      if missing != [] {
        return Fail(NotEnoughArguments(missing));
      }
      status := Pass;
    }

    /** The effective value of argument `name`; an undeclared name is an error. */
    function Argument(name: string): (r: Result<Value, Error>)
      reads this
      ensures r.Success? <==> definition.HasArgument(name)
      ensures r.Failure? ==> r.error == UnknownArgument(name) && r.error.Kind() == ValueException
      ensures r.Success? ==> name in Arguments() && r.value == Arguments()[name]
      ensures r.Success? && name in boundArguments ==> r.value == boundArguments[name]
    {
      if !definition.HasArgument(name) then Failure(UnknownArgument(name))
      else if name in boundArguments then Success(boundArguments[name])
      else Success(definition.Argument(name).default)
    }

    /** Binds argument `name` to `value`, overwriting any earlier binding; an undeclared name is an error. */
    method SetArgument(name: string, value: Value) returns (status: Outcome<Error>)
      requires Valid()
      modifies this`boundArguments
      ensures Valid()
      ensures status.Pass? <==> definition.HasArgument(name)
      ensures status.Fail? ==> status.error == UnknownArgument(name) && boundArguments == old(boundArguments)
      ensures status.Pass? ==> boundArguments == old(boundArguments)[name := value]
      ensures status.Pass? ==> Argument(name) == Success(value)
      ensures forall n :: n != name ==> Argument(n) == old(Argument(n))
      ensures boundOptions == old(boundOptions)
    {
      if !definition.HasArgument(name) {
        return Fail(UnknownArgument(name));
      }
      boundArguments := boundArguments[name := value];
      status := Pass;
    }

    function HasArgument(name: string): (r: bool)
      reads this
      ensures r <==> exists a :: a in definition.arguments && a.name == name
    {
      definition.HasArgument(name)
    }

    /** The effective value of option `name`; an undeclared name is an error. */
    function Option(name: string): (r: Result<Value, Error>)
      reads this
      ensures r.Success? <==> definition.HasOption(name)
      ensures r.Failure? ==> r.error == UnknownOption(name) && r.error.Kind() == ValueException
      ensures r.Success? ==> name in Options() && r.value == Options()[name]
      ensures r.Success? && name in boundOptions ==> r.value == boundOptions[name]
    {
      if !definition.HasOption(name) then Failure(UnknownOption(name))
      else if name in boundOptions then Success(boundOptions[name])
      else Success(definition.Option(name).default)
    }

    /** Binds option `name` to `value`, overwriting any earlier binding; an undeclared name is an error. */
    method SetOption(name: string, value: Value) returns (status: Outcome<Error>)
      requires Valid()
      modifies this`boundOptions
      ensures Valid()
      ensures status.Pass? <==> definition.HasOption(name)
      ensures status.Fail? ==> status.error == UnknownOption(name) && boundOptions == old(boundOptions)
      ensures status.Pass? ==> boundOptions == old(boundOptions)[name := value]
      ensures status.Pass? ==> Option(name) == Success(value)
      ensures forall n :: n != name ==> Option(n) == old(Option(n))
      ensures boundArguments == old(boundArguments)
    {
      if !definition.HasOption(name) {
        return Fail(UnknownOption(name));
      }
      boundOptions := boundOptions[name := value];
      status := Pass;
    }

    function HasOption(name: string): (r: bool)
      reads this
      ensures r <==> exists o :: o in definition.options && o.name == name
    {
      definition.HasOption(name)
    }

    /** Replaces the stream; the old one is neither closed nor otherwise touched. */
    method SetStream(s: Stream)
      modifies this`stream
      ensures stream == Some(s)
    {
      stream := Some(s);
    }
  }

  /**
   * The greeting command driven through an `Input`: built over its definition
   * with `name` bound to "world", it validates, answers "world" for `name` and
   * the default "hello" for `greeting`, and validates again the same way.
   */
  method GreetingSession() returns (created: Outcome<Error>, name: Result<Value, Error>, greeting: Result<Value, Error>, status: Outcome<Error>)
    ensures created == Pass && status == Pass
    ensures name == Success(Str("world"))
    ensures greeting == Success(Str("hello"))
  {
    GreetingDeclarations();
    GreetingParse();
    GreetingValidation();
    var input;
    input, created := Input.Create(Some(Greeting), [ArgumentAssignment("name", Str("world"))]);
    name := input.Argument("name");
    greeting := input.Argument("greeting");
    status := input.Validate();
  }
}
