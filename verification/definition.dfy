/**
 * The catalogue of arguments and options a command declares. It is a read-only
 * value here: how it is built, and the invariants its construction enforces
 * (unique names, a list argument only in last position), are not part of this model.
 */
module Definitions {

  /** A bound or default value. Python's `Any`; `Null` is Python's `None`. */
  datatype Value = Null | Str(text: string) | Flag(on: bool) | Items(items: seq<Value>)

  /** A positional argument: its name, whether it is required, and its default. */
  datatype ArgumentSpec = ArgumentSpec(name: string, required: bool, default: Value)
  {
    predicate IsRequired() { required }
  }

  /** A named option and its default. */
  datatype OptionSpec = OptionSpec(name: string, default: Value)

  /** Arguments in declaration order, and the declared options. */
  datatype Definition = Definition(arguments: seq<ArgumentSpec>, options: seq<OptionSpec>)
  {
    /** The argument names in declaration order. */
    function ArgumentNameSeq(): (names: seq<string>)
      ensures |names| == |arguments|
      ensures forall i :: 0 <= i < |arguments| ==> names[i] == arguments[i].name
    {
      seq(|arguments|, i requires 0 <= i < |arguments| => arguments[i].name)
    }

    /** The option names in declaration order. */
    function OptionNameSeq(): (names: seq<string>)
      ensures |names| == |options|
      ensures forall i :: 0 <= i < |options| ==> names[i] == options[i].name
    {
      seq(|options|, i requires 0 <= i < |options| => options[i].name)
    }

    function ArgumentNames(): (names: set<string>)
      ensures forall a :: a in arguments ==> a.name in names
      ensures forall n :: n in names ==> exists a :: a in arguments && a.name == n
    {
      set n | n in ArgumentNameSeq()
    }

    function OptionNames(): (names: set<string>)
      ensures forall o :: o in options ==> o.name in names
      ensures forall n :: n in names ==> exists o :: o in options && o.name == n
    {
      set n | n in OptionNameSeq()
    }

    predicate HasArgument(name: string) { name in ArgumentNames() }

    predicate HasOption(name: string) { name in OptionNames() }

    /** The declaration of argument `name` (the first one, should there be several). */
    function Argument(name: string): (a: ArgumentSpec)
      requires HasArgument(name)
      ensures a in arguments && a.name == name
    {
      arguments[FirstIndex(ArgumentNameSeq(), name)]
    }

    /** The declaration of option `name` (the first one, should there be several). */
    function Option(name: string): (o: OptionSpec)
      requires HasOption(name)
      ensures o in options && o.name == name
    {
      options[FirstIndex(OptionNameSeq(), name)]
    }

    /** Every declared argument name mapped to its default. */
    function ArgumentDefaults(): (m: map<string, Value>)
      ensures m.Keys == ArgumentNames()
      ensures forall n :: n in m ==> m[n] == Argument(n).default
    {
      map n | n in ArgumentNames() :: Argument(n).default
    }

    /** Every declared option name mapped to its default. */
    function OptionDefaults(): (m: map<string, Value>)
      ensures m.Keys == OptionNames()
      ensures forall n :: n in m ==> m[n] == Option(n).default
    {
      map n | n in OptionNames() :: Option(n).default
    }
  }

  /** The position of the first occurrence of `name` in `names`. */
  function FirstIndex(names: seq<string>, name: string): (i: nat)
    requires name in names
    ensures i < |names| && names[i] == name
    ensures forall j :: 0 <= j < i ==> names[j] != name
  {
    if names[0] == name then 0 else 1 + FirstIndex(names[1..], name)
  }
}
