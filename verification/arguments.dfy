/** The task arguments: one settings property per option, with its generated
    name, its command-line format, its help text and its type. */
module Arguments {
  import opened Wrappers
  import opened Text
  import opened Faults
  import opened Options
  import Naming
  import Help

  /** The property types the generator emits: `List<string>`, `bool`, `string`. */
  datatype ArgumentType = StringList | Flag | Plain

  /** One entry of the settings class's properties. */
  datatype TaskArgument = TaskArgument(
    name: string,
    format: string,
    secret: bool,
    help: string,
    argumentType: ArgumentType,
    separator: Option<char>)

  // ---------------------------------------------------------------------------
  // Type

  /** Lines 263-281: a list when the description asks for comma-separated
      values, else a flag when the option does not take a string, else a list
      when its declared type is `Array`, else a string; lists split on `,`. */
  function SelectType(o: FastlaneOption): (ArgumentType, Option<char>) {
    if IsStringArray(o) then (StringList, Some(','))
    else if !o.isString then (Flag, None)
    else if o.optionType == Some("Array") then (StringList, Some(','))
    else (Plain, None)
  }

  /** The type in terms of the option alone, each outcome with the exact
      condition that leads to it. A non-string option whose description asks
      for comma-separated values still becomes a list, and an `Array`-typed
      option that does not take a string becomes a flag. */
  lemma SelectTypeCases(o: FastlaneOption)
    ensures SelectType(o).0 == StringList <==>
              IsStringArray(o) || (o.isString && o.optionType == Some("Array"))
    ensures SelectType(o).0 == Flag <==> !IsStringArray(o) && !o.isString
    ensures SelectType(o).0 == Plain <==>
              !IsStringArray(o) && o.isString && o.optionType != Some("Array")
    ensures SelectType(o).1 == Some(',') <==> SelectType(o).0 == StringList
    ensures SelectType(o).1 != Some(',') ==> SelectType(o).1 == None
  {
  }

  // ---------------------------------------------------------------------------
  // Format

  /** Lines 256-258: how the raw option name is passed on the command line:
      `name:{value}` to an action, `--name={value}` to a tool. */
  function Format(name: string, isAction: bool): string {
    if isAction then name + ":{value}" else "--" + name + "={value}"
  }

  /** The inverse of `Format`: which kind of call and which raw name a format
      string was made for. */
  function ParseFormat(format: string): Option<(bool, string)> {
    if EndsWith(format, ":{value}") then Some((true, format[..|format| - 8]))
    else if StartsWith(format, "--") && |format| >= 10 && EndsWith(format, "={value}") then
      Some((false, format[2..|format| - 8]))
    else None
  }

  /** The format loses nothing: the kind of call and the name read back, so no
      two options of different names or kinds share a format. */
  lemma ParseFormatInverse(name: string, isAction: bool)
    ensures ParseFormat(Format(name, isAction)) == Some((isAction, name))
  {
    var f := Format(name, isAction);
    if isAction {
      assert f[|f| - 8..] == ":{value}";
      assert f[..|f| - 8] == name;
    } else {
      assert f[..2] == "--";
      assert f[|f| - 8..] == "={value}";
      assert !EndsWith(f, ":{value}") by {
        assert f[|f| - 8] == '=';
      }
      assert f[2..|f| - 8] == name;
    }
  }

  // ---------------------------------------------------------------------------
  // One argument

  /** Lines 246-282 for one option. A nameless option throws in the name
      conversion, as does a name with an empty `_` segment. */
  function CreateArgument(o: FastlaneOption): (r: Result<TaskArgument, Fault>)
    ensures o.name.None? ==> r == Failure(ArgumentNull)
    ensures r.Success? ==> o.name.Some? && '_' !in r.value.name
    ensures r.Success? ==> ParseFormat(r.value.format) == Some((o.isAction, o.name.value))
    ensures r.Success? ==> r.value.secret == o.sensitive
    ensures r.Success? ==> (r.value.separator == Some(',') <==> r.value.argumentType == StringList)
    ensures r.Success? ==> (r.value.argumentType, r.value.separator) == SelectType(o)
  {
    var converted :- Naming.ConvertPascalToCamelCase(o.name);
    var name := Naming.RemapReservedName(converted);
    var (argumentType, separator) := SelectType(o);
    ParseFormatInverse(o.name.value, o.isAction);
    NoUnderscoreInReserved(converted);
    Success(TaskArgument(name, Format(o.name.value, o.isAction), o.sensitive,
                         Help.FormatHelp(o.description), argumentType, separator))
  }

  lemma NoUnderscoreInReserved(converted: string)
    requires '_' !in converted
    ensures '_' !in Naming.RemapReservedName(converted)
  {
  }

  /** The generated name is the character pass over the option name, unless
      that spells a reserved word, which is replaced; and the help text is the
      formatted description. */
  lemma CreateArgumentName(o: FastlaneOption)
    requires o.name.Some? && CreateArgument(o).Success?
    ensures Naming.PascalFrom(o.name.value, true).Success?
    ensures CreateArgument(o).value.name ==
              Naming.RemapReservedName(Naming.PascalFrom(o.name.value, true).value)
    ensures CreateArgument(o).value.help == Help.FormatHelp(o.description)
  {
    Naming.ConvertMatchesReference(o.name.value);
  }

  // ---------------------------------------------------------------------------
  // All arguments

  /** `CreateTaskArguments`: one argument per option, in order; the first
      option whose name cannot be converted aborts with its fault. */
  method CreateTaskArguments(options: seq<FastlaneOption>) returns (r: Result<seq<TaskArgument>, Fault>)
    ensures r.Success? <==> forall k | 0 <= k < |options| :: CreateArgument(options[k]).Success?
    ensures r.Success? ==>
              |r.value| == |options|
              && forall k | 0 <= k < |options| :: r.value[k] == CreateArgument(options[k]).value
    ensures r.Failure? ==>
              exists k | 0 <= k < |options| ::
                && CreateArgument(options[k]) == Failure(r.error)
                && forall m | 0 <= m < k :: CreateArgument(options[m]).Success?
  {
    r := MapUntilFailure(options, CreateArgument);
  }

  /** `f` applied to each element in turn, stopping at the first failure. */
  method MapUntilFailure<T, U>(xs: seq<T>, f: T -> Result<U, Fault>) returns (r: Result<seq<U>, Fault>)
    ensures r.Success? <==> forall k | 0 <= k < |xs| :: f(xs[k]).Success?
    ensures r.Success? ==>
              |r.value| == |xs| && forall k | 0 <= k < |xs| :: r.value[k] == f(xs[k]).value
    ensures r.Failure? ==>
              exists k | 0 <= k < |xs| ::
                && f(xs[k]) == Failure(r.error)
                && forall m | 0 <= m < k :: f(xs[m]).Success?
  {
    var list: seq<U> := [];
    var i := 0;
    while i < |xs|
      invariant 0 <= i <= |xs|
      invariant |list| == i
      invariant forall k | 0 <= k < i :: f(xs[k]).Success?
      invariant forall k | 0 <= k < i :: list[k] == f(xs[k]).value
    {
      var y := f(xs[i]);
      if y.Failure? {
        return Failure(y.error);
      }
      list := list + [y.value];
      i := i + 1;
    }
    return Success(list);
  }
}
