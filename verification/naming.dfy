/** Names: the PascalCase conversion of snake_case option and tool names, the
    renaming of names that are reserved words in the generated code, and the
    task's postfix and definite argument. */
module Naming {
  import opened Wrappers
  import opened Text
  import opened Faults

  // ---------------------------------------------------------------------------
  // ConvertPascalToCamelCase

  /** One segment with its first character upper-cased; an empty segment has
      no first character to read. */
  function Capitalize(segment: string): Result<string, Fault> {
    if |segment| == 0 then Failure(IndexOutOfRange)
    else Success([UpperChar(segment[0])] + segment[1..])
  }

  /** The `Aggregate` over the segments, left to right from `acc`. */
  function AggregateSegments(segments: seq<string>, acc: string): Result<string, Fault>
    decreases |segments|
  {
    if |segments| == 0 then Success(acc)
    else
      var head :- Capitalize(segments[0]);
      AggregateSegments(segments[1..], acc + head)
  }

  /** `ConvertPascalToCamelCase`: despite its name, turns `snake_case` into
      `PascalCase`. A `null` name throws `ArgumentNullException`; a name with an
      empty segment (the empty name, a leading, trailing or doubled `_`)
      throws on the segment's missing first character. */
  function ConvertPascalToCamelCase(value: Option<string>): (r: Result<string, Fault>)
    ensures value.None? ==> r == Failure(ArgumentNull)
    ensures value.Some? && r.Failure? ==> r.error == IndexOutOfRange
    ensures r.Success? ==> '_' !in r.value
  {
    match value
    case None => Failure(ArgumentNull)
    case Some(v) =>
      ConvertMatchesReference(v);
      AggregateSegments(Split(v, '_'), "")
  }

  // ---------------------------------------------------------------------------
  // Reference: a left-to-right pass over the characters

  /** The conversion character by character: `_` is dropped and marks the next
      character as the start of a segment, which is upper-cased; a segment
      start with no character after it fails. */
  function PascalFrom(s: string, atStart: bool): (r: Result<string, Fault>)
    ensures r.Failure? ==> r.error == IndexOutOfRange
    ensures r.Success? ==> '_' !in r.value
    decreases |s|
  {
    if |s| == 0 then
      if atStart then Failure(IndexOutOfRange) else Success("")
    else if s[0] == '_' then
      if atStart then Failure(IndexOutOfRange) else PascalFrom(s[1..], true)
    else
      var rest :- PascalFrom(s[1..], false);
      Success([if atStart then UpperChar(s[0]) else s[0]] + rest)
  }

  /** `r` with `prefix` in front of its text. */
  function Prefixed(prefix: string, r: Result<string, Fault>): Result<string, Fault> {
    match r
    case Success(t) => Success(prefix + t)
    case Failure(f) => Failure(f)
  }

  /** The conversion by segments agrees with the character pass: both fail on
      the same names and otherwise give the same text. */
  lemma ConvertMatchesReference(v: string)
    ensures AggregateSegments(Split(v, '_'), "") == PascalFrom(v, true)
  {
    AggregateFrom(v, "");
    match PascalFrom(v, true)
    case Success(t) => assert "" + t == t;
    case Failure(_) =>
  }

  lemma {:induction false} AggregateFrom(v: string, acc: string)
    ensures AggregateSegments(Split(v, '_'), acc) == Prefixed(acc, PascalFrom(v, true))
    decreases |v|
  {
    match IndexOf(v, '_')
    case None =>
      assert Split(v, '_') == [v];
      if |v| > 0 {
        PlainSegment(v[1..]);
        assert AggregateSegments([v], acc) == AggregateSegments([], acc + ([UpperChar(v[0])] + v[1..]));
      }
    case Some(i) =>
      var rest := v[i + 1..];
      assert Split(v, '_') == [v[..i]] + Split(rest, '_');
      assert (Split(v, '_'))[1..] == Split(rest, '_');
      if i > 0 {
        var head := [UpperChar(v[0])] + v[1..i];
        AggregateFrom(rest, acc + head);
        assert v[1..] == v[1..i] + ("_" + rest);
        SegmentThenRest(v[1..i], rest);
        assert acc + head + v[1..i] == acc + (head + v[1..i]);
        match PascalFrom(rest, true)
        case Success(t) =>
          assert (acc + head) + t == acc + ([UpperChar(v[0])] + (v[1..i] + t));
        case Failure(_) =>
      }
  }

  /** A text without `_` inside a segment is copied unchanged. */
  lemma {:induction false} PlainSegment(u: string)
    requires '_' !in u
    ensures PascalFrom(u, false) == Success(u)
    decreases |u|
  {
    if |u| > 0 {
      PlainSegment(u[1..]);
      assert [u[0]] + u[1..] == u;
    }
  }

  /** The rest of a segment, its `_`, and whatever follows. */
  lemma {:induction false} SegmentThenRest(w: string, x: string)
    requires '_' !in w
    ensures PascalFrom(w + ("_" + x), false) == Prefixed(w, PascalFrom(x, true))
    decreases |w|
  {
    if |w| == 0 {
      assert w + ("_" + x) == "_" + x;
      assert ("_" + x)[1..] == x;
      match PascalFrom(x, true)
      case Success(t) => assert w + t == t;
      case Failure(_) =>
    } else {
      assert (w + ("_" + x))[1..] == w[1..] + ("_" + x);
      SegmentThenRest(w[1..], x);
      match PascalFrom(x, true)
      case Success(t) => assert [w[0]] + (w[1..] + t) == w + t;
      case Failure(_) =>
    }
  }

  // ---------------------------------------------------------------------------
  // Reserved words

  /** The names that would collide with C# keywords or members, keyed by their
      lower-cased spelling, and what they become. */
  const Reserved: map<string, string> :=
    map["readonly" := "ReadOnlyFlag", "private" := "PrivateFlag",
        "params" := "ParamsValue", "base" := "BaseValue"]

  /** Lines 249-252: the four renamings applied one after the other, each
      comparing without regard to case. */
  function RemapReservedName(name: string): (r: string)
    ensures ToLower(name) in Reserved ==> r == Reserved[ToLower(name)]
    ensures ToLower(name) !in Reserved ==> r == name
  {
    var a := if EqualsIgnoreCase(name, "readonly") then "ReadOnlyFlag" else name;
    var b := if EqualsIgnoreCase(a, "private") then "PrivateFlag" else a;
    var c := if EqualsIgnoreCase(b, "params") then "ParamsValue" else b;
    LowerLiterals();
    if EqualsIgnoreCase(c, "Base") then "BaseValue" else c
  }

  /** A renamed name is no longer reserved, so renaming twice changes nothing. */
  lemma RemapIdempotent(name: string)
    ensures ToLower(RemapReservedName(name)) !in Reserved
    ensures RemapReservedName(RemapReservedName(name)) == RemapReservedName(name)
  {
    LowerLiterals();
  }

  /** The lower-cased spellings of the names the renaming compares and produces. */
  lemma LowerLiterals()
    ensures ToLower("readonly") == "readonly" && ToLower("private") == "private"
    ensures ToLower("params") == "params" && ToLower("Base") == "base"
    ensures ToLower("ReadOnlyFlag") == "readonlyflag" && ToLower("PrivateFlag") == "privateflag"
    ensures ToLower("ParamsValue") == "paramsvalue" && ToLower("BaseValue") == "basevalue"
  {
  }

  // ---------------------------------------------------------------------------
  // Task names

  /** The task entry of a tool: the suffix of the generated method names and
      the fixed first argument of the command line. */
  datatype Task = Task(postfix: string, definiteArgument: string)

  /** `CreateTask`: the postfix is the tool name with its first character
      upper-cased, converted to PascalCase; the definite argument is the
      lower-cased name, after `run ` for an action. The empty name has no first
      character. */
  function CreateTask(taskName: string, isAction: bool): (r: Result<Task, Fault>)
    ensures taskName == [] ==> r == Failure(IndexOutOfRange)
    ensures r.Success? ==>
              r.value.definiteArgument == (if isAction then "run " + ToLower(taskName) else ToLower(taskName))
  {
    if |taskName| == 0 then Failure(IndexOutOfRange)
    else
      var postfix :- ConvertPascalToCamelCase(Some([UpperChar(taskName[0])] + taskName[1..]));
      Success(Task(postfix, if isAction then "run " + ToLower(taskName) else ToLower(taskName)))
  }

  /** The postfix is the character pass over the name: a tool name fails only
      when it has an empty segment, and upper-casing its first character
      beforehand changes nothing the pass would not do itself. */
  lemma CreateTaskPostfix(taskName: string, isAction: bool)
    requires |taskName| > 0
    ensures CreateTask(taskName, isAction).Success? <==> PascalFrom(taskName, true).Success?
    ensures CreateTask(taskName, isAction).Success? ==>
              CreateTask(taskName, isAction).value.postfix == PascalFrom(taskName, true).value
  {
    var upper := [UpperChar(taskName[0])] + taskName[1..];
    ConvertMatchesReference(upper);
    assert upper[1..] == taskName[1..];
    assert upper[0] == '_' <==> taskName[0] == '_';
    assert UpperChar(UpperChar(taskName[0])) == UpperChar(taskName[0]);
    assert PascalFrom(upper, true) == PascalFrom(taskName, true);
  }
}
