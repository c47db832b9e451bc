/** The option record and the reading of a block's entries into it. The JSON
    reader is modelled per entry: a name and a value the reader accepts, the
    last value for a property winning, unknown properties ignored. */
module Options {
  import opened Wrappers
  import opened Text
  import Json
  import opened Fields

  /** `FastlaneOption`: one option of a fastlane tool. */
  datatype FastlaneOption = FastlaneOption(
    description: Option<string>,
    envName: Option<string>,
    isAction: bool,
    isString: bool,
    name: Option<string>,
    optional: bool,
    sensitive: bool,
    shortOption: Option<string>,
    optionType: Option<string>)

  /** The record before any property is read: `IsString` is populated with its
      declared default `true`; every other property has its type's default. */
  const Defaults: FastlaneOption :=
    FastlaneOption(None, None, false, true, None, false, false, None, None)

  // ---------------------------------------------------------------------------
  // Reading one entry

  /** A JSON value as the reader sees it. */
  datatype JsonValue = JString(s: string) | JBool(b: bool) | JNumber(text: string)

  /** The value of an entry, or `None` when the reader rejects it: a string
      literal that is not valid JSON, or a number in base 8 it cannot read. */
  function ReadValue(v: Value): (r: Option<JsonValue>)
    ensures v.Quoted? ==> (r.Some? <==> Json.Unquote(v.lit).Some?)
    ensures v.Token? ==> (r.None? <==> OctalRejected(v.text))
  {
    match v
    case Quoted(lit) =>
      (match Json.Unquote(lit)
       case None => None
       case Some(s) => Some(JString(s)))
    case Token(t) =>
      if t == "true" then Some(JBool(true))
      else if t == "false" then Some(JBool(false))
      else if OctalRejected(t) then None
      else Some(JNumber(t))
  }

  predicate IsOctalDigits(t: string) {
    forall i | 0 <= i < |t| :: '0' <= t[i] <= '7'
  }

  /** The number base-8 digits spell. */
  function OctalValue(t: string): nat
    requires IsOctalDigits(t)
    decreases |t|
  {
    if |t| == 0 then 0 else OctalValue(t[..|t| - 1]) * 8 + (t[|t| - 1] as int - '0' as int)
  }

  /** Newtonsoft reads a number of more than one character that starts with
      `0` in base 8, and raises a reader exception when a digit is not octal
      or the value does not fit in 64 bits. */
  predicate OctalRejected(t: string) {
    && |t| > 1 && t[0] == '0'
    && (!IsOctalDigits(t) || OctalValue(t) >= 0x1_0000_0000_0000_0000)
  }

  /** The properties of the record the reader fills, by JSON name. */
  datatype Property =
    | Description | EnvName | IsString | Name | Optional | Sensitive | ShortOption | OptionType

  /** The property a (lower-cased) JSON name stands for; `None` for a name the
      record has no property for, which the reader skips. */
  function PropertyNamed(key: string): Option<Property> {
    if key == "description" then Some(Description)
    else if key == "env_name" then Some(EnvName)
    else if key == "is_string" then Some(IsString)
    else if key == "name" then Some(Name)
    else if key == "optional" then Some(Optional)
    else if key == "sensitive" then Some(Sensitive)
    else if key == "short_option" then Some(ShortOption)
    else if key == "type" then Some(OptionType)
    else None
  }

  /** The property an entry names (matched without regard to ASCII case) and
      its value; `None` when the reader rejects either. */
  function ReadEntry(e: Entry): Option<(Option<Property>, JsonValue)> {
    match Json.Unquote("\"" + e.field + "\"")
    case None => None
    case Some(key) =>
      match ReadValue(e.value)
      case None => None
      case Some(j) => Some((PropertyNamed(ToLower(key)), j))
  }

  /** The text a string property receives: a string as is, and a bare token
      as the reader's `ReadAsString` spells it, which is as written. */
  function AsText(j: JsonValue): string {
    match j
    case JString(s) => s
    case JBool(b) => if b then "true" else "false"
    case JNumber(t) => t
  }

  /** A bare token the reader accepts reaches a string property exactly as it
      was written: `true` and `false` stay in lower case, and a number keeps
      its digits, leading zeros included. */
  lemma TokenTextKept(t: string)
    ensures ReadValue(Token(t)).Some? ==> AsText(ReadValue(Token(t)).value) == t
  {
  }

  /** Tokens with a leading zero: `017` is valid octal and kept as written,
      while `08` and `019` are rejected, which drops the option. */
  lemma OctalTokens()
    ensures ReadValue(Token("017")) == Some(JNumber("017"))
    ensures ReadValue(Token("08")).None? && ReadValue(Token("019")).None?
    ensures ReadValue(Token("0")) == Some(JNumber("0"))
    ensures ReadValue(Token("80")) == Some(JNumber("80"))
  {
    assert !IsOctalDigits("08") by { assert "08"[1] == '8'; }
    assert !IsOctalDigits("019") by { assert "019"[2] == '9'; }
    assert OctalValue("017") == 15 by {
      assert "017"[..2] == "01" && "01"[..1] == "0" && "0"[..0] == "";
    }
  }

  /** The value a bool property receives: a boolean as is, a number by
      whether it is non-zero, a string by its trimmed `true`/`false` spelling
      in any case; anything else is rejected. */
  function AsBool(j: JsonValue): Option<bool> {
    match j
    case JBool(b) => Some(b)
    case JNumber(t) => Some(exists i | 0 <= i < |t| :: '1' <= t[i] <= '9')
    case JString(s) =>
      if EqualsIgnoreCase(Trim(s), "true") then Some(true)
      else if EqualsIgnoreCase(Trim(s), "false") then Some(false)
      else None
  }

  predicate IsBoolProperty(p: Property) {
    p == IsString || p == Optional || p == Sensitive
  }

  /** The record with string property `p` set to `t`. */
  function SetText(o: FastlaneOption, p: Property, t: string): FastlaneOption {
    o.(description := if p == Description then Some(t) else o.description,
       envName := if p == EnvName then Some(t) else o.envName,
       name := if p == Name then Some(t) else o.name,
       shortOption := if p == ShortOption then Some(t) else o.shortOption,
       optionType := if p == OptionType then Some(t) else o.optionType)
  }

  /** The record with bool property `p` set to `b`. */
  function SetBool(o: FastlaneOption, p: Property, b: bool): FastlaneOption {
    o.(isString := if p == IsString then b else o.isString,
       optional := if p == Optional then b else o.optional,
       sensitive := if p == Sensitive then b else o.sensitive)
  }

  /** Stores one property into the record; a bool property given a value it
      cannot take makes the reader fail, and an unknown property is ignored. */
  function Store(o: FastlaneOption, p: Option<Property>, j: JsonValue): Option<FastlaneOption> {
    match p
    case None => Some(o)
    case Some(q) =>
      if IsBoolProperty(q) then
        match AsBool(j)
        case None => None
        case Some(b) => Some(SetBool(o, q, b))
      else Some(SetText(o, q, AsText(j)))
  }

  /** The reader's pass over the entries in order. */
  function Populate(entries: seq<Entry>, o: FastlaneOption): Option<FastlaneOption>
    decreases |entries|
  {
    if |entries| == 0 then Some(o)
    else
      match ReadEntry(entries[0])
      case None => None
      case Some((key, j)) =>
        match Store(o, key, j)
        case None => None
        case Some(o') => Populate(entries[1..], o')
  }

  /** Lines 208-212: the option an entry list stands for, with `IsAction` set
      by the caller afterwards; `None` when the reader rejects the entries
      (the `JsonReaderException` that drops the option). A property no entry
      names keeps its default. */
  function Decode(entries: seq<Entry>, isAction: bool): (r: Option<FastlaneOption>)
    ensures r.Some? <==> forall i | 0 <= i < |entries| :: Accepted(entries[i])
    ensures r.Some? ==> r.value.isAction == isAction
    ensures r.Some? && LastValue(entries, IsString).None? ==> r.value.isString
    ensures r.Some? && LastValue(entries, Optional).None? ==> !r.value.optional
    ensures r.Some? && LastValue(entries, Sensitive).None? ==> !r.value.sensitive
    ensures r.Some? && LastValue(entries, Name).None? ==> r.value.name.None?
    ensures r.Some? ==> r.value == Merged(Defaults, entries).(isAction := isAction)
  {
    PopulateIsMerge(entries, Defaults);
    match Populate(entries, Defaults)
    case None => None
    case Some(o) => Some(o.(isAction := isAction))
  }

  // ---------------------------------------------------------------------------
  // Reference: each property read from the last entry that names it

  /** An entry the reader accepts: its name and value are valid JSON, and a
      bool property gets a value it can take. */
  predicate Accepted(e: Entry) {
    match ReadEntry(e)
    case None => false
    case Some((p, j)) => p.Some? && IsBoolProperty(p.value) ==> AsBool(j).Some?
  }

  /** The value of the last entry naming `p`. */
  function LastValue(entries: seq<Entry>, p: Property): Option<JsonValue>
    decreases |entries|
  {
    if |entries| == 0 then None
    else
      match LastValue(entries[1..], p)
      case Some(j) => Some(j)
      case None =>
        match ReadEntry(entries[0])
        case Some((q, j)) => if q == Some(p) then Some(j) else None
        case None => None
  }

  function TextProperty(entries: seq<Entry>, p: Property, default: Option<string>): Option<string> {
    match LastValue(entries, p)
    case None => default
    case Some(j) => Some(AsText(j))
  }

  function BoolProperty(entries: seq<Entry>, p: Property, default: bool): bool {
    match LastValue(entries, p)
    case None => default
    case Some(j) => AsBool(j).GetOr(default)
  }

  /** `o` with every property some entry names replaced by the last such value. */
  function Merged(o: FastlaneOption, entries: seq<Entry>): FastlaneOption {
    FastlaneOption(
      TextProperty(entries, Description, o.description),
      TextProperty(entries, EnvName, o.envName),
      o.isAction,
      BoolProperty(entries, IsString, o.isString),
      TextProperty(entries, Name, o.name),
      BoolProperty(entries, Optional, o.optional),
      BoolProperty(entries, Sensitive, o.sensitive),
      TextProperty(entries, ShortOption, o.shortOption),
      TextProperty(entries, OptionType, o.optionType))
  }

  /** The pass in order agrees with the reference: it fails exactly when some
      entry is rejected, and otherwise every property holds the last value
      given for it. */
  lemma {:induction false} PopulateIsMerge(entries: seq<Entry>, o: FastlaneOption)
    ensures Populate(entries, o) ==
      if forall i | 0 <= i < |entries| :: Accepted(entries[i]) then Some(Merged(o, entries)) else None
    decreases |entries|
  {
    if |entries| == 0 {
    } else {
      var rest := entries[1..];
      assert forall i | 0 <= i < |rest| :: rest[i] == entries[i + 1];
      match ReadEntry(entries[0])
      case None =>
        assert !Accepted(entries[0]);
      case Some((p, j)) =>
        match Store(o, p, j)
        case None =>
          assert !Accepted(entries[0]);
        case Some(o') =>
          assert Accepted(entries[0]);
          PopulateIsMerge(rest, o');
          if forall i | 0 <= i < |rest| :: Accepted(rest[i]) {
            MergeStep(entries, o, p, j, o');
          }
    }
  }

  /** Reading the head first and the rest afterwards gives the merge of the whole. */
  lemma MergeStep(entries: seq<Entry>, o: FastlaneOption, p: Option<Property>, j: JsonValue, o': FastlaneOption)
    requires |entries| > 0 && ReadEntry(entries[0]) == Some((p, j))
    requires Store(o, p, j) == Some(o')
    requires forall i | 0 <= i < |entries[1..]| :: Accepted(entries[1..][i])
    ensures Merged(o', entries[1..]) == Merged(o, entries)
  {
    if p.Some? && IsBoolProperty(p.value) {
      MergeBoolStep(entries, o, p.value, j, AsBool(j).value);
    } else {
      MergeTextStep(entries, o, p, j);
    }
  }

  lemma MergeTextStep(entries: seq<Entry>, o: FastlaneOption, p: Option<Property>, j: JsonValue)
    requires |entries| > 0 && ReadEntry(entries[0]) == Some((p, j))
    requires !(p.Some? && IsBoolProperty(p.value))
    requires forall i | 0 <= i < |entries[1..]| :: Accepted(entries[1..][i])
    ensures Merged(Store(o, p, j).value, entries[1..]) == Merged(o, entries)
  {
    var o' := Store(o, p, j).value;
    TextStep(entries, p, j, Description, o.description, o'.description);
    TextStep(entries, p, j, EnvName, o.envName, o'.envName);
    TextStep(entries, p, j, Name, o.name, o'.name);
    TextStep(entries, p, j, ShortOption, o.shortOption, o'.shortOption);
    TextStep(entries, p, j, OptionType, o.optionType, o'.optionType);
    BoolStep(entries, p, j, IsString, o.isString, o.isString);
    BoolStep(entries, p, j, Optional, o.optional, o.optional);
    BoolStep(entries, p, j, Sensitive, o.sensitive, o.sensitive);
  }

  lemma MergeBoolStep(entries: seq<Entry>, o: FastlaneOption, p: Property, j: JsonValue, b: bool)
    requires |entries| > 0 && ReadEntry(entries[0]) == Some((Some(p), j))
    requires IsBoolProperty(p) && AsBool(j) == Some(b)
    requires forall i | 0 <= i < |entries[1..]| :: Accepted(entries[1..][i])
    ensures Merged(SetBool(o, p, b), entries[1..]) == Merged(o, entries)
  {
    var o' := SetBool(o, p, b);
    TextStep(entries, Some(p), j, Description, o.description, o.description);
    TextStep(entries, Some(p), j, EnvName, o.envName, o.envName);
    TextStep(entries, Some(p), j, Name, o.name, o.name);
    TextStep(entries, Some(p), j, ShortOption, o.shortOption, o.shortOption);
    TextStep(entries, Some(p), j, OptionType, o.optionType, o.optionType);
    BoolStep(entries, Some(p), j, IsString, o.isString, o'.isString);
    BoolStep(entries, Some(p), j, Optional, o.optional, o'.optional);
    BoolStep(entries, Some(p), j, Sensitive, o.sensitive, o'.sensitive);
  }

  /** One string property across the head step. */
  lemma TextStep(entries: seq<Entry>, p: Option<Property>, j: JsonValue, q: Property,
                 d: Option<string>, d': Option<string>)
    requires |entries| > 0 && ReadEntry(entries[0]) == Some((p, j))
    requires d' == if p == Some(q) then Some(AsText(j)) else d
    ensures TextProperty(entries[1..], q, d') == TextProperty(entries, q, d)
  {
  }

  /** One bool property across the head step, given that the rest's last
      value for it, if any, is one it can take. */
  lemma BoolStep(entries: seq<Entry>, p: Option<Property>, j: JsonValue, q: Property, d: bool, d': bool)
    requires |entries| > 0 && ReadEntry(entries[0]) == Some((p, j))
    requires IsBoolProperty(q)
    requires forall i | 0 <= i < |entries[1..]| :: Accepted(entries[1..][i])
    requires p == Some(q) ==> AsBool(j) == Some(d')
    requires p != Some(q) ==> d' == d
    ensures BoolProperty(entries[1..], q, d') == BoolProperty(entries, q, d)
  {
    if LastValue(entries[1..], q).Some? {
      LastValueAccepted(entries[1..], q);
    }
  }

  /** Among accepted entries, the last value of a bool property is one it can take. */
  lemma {:induction false} LastValueAccepted(entries: seq<Entry>, p: Property)
    requires forall i | 0 <= i < |entries| :: Accepted(entries[i])
    requires IsBoolProperty(p) && LastValue(entries, p).Some?
    ensures AsBool(LastValue(entries, p).value).Some?
    decreases |entries|
  {
    var rest := entries[1..];
    assert forall i | 0 <= i < |rest| :: rest[i] == entries[i + 1];
    assert Accepted(entries[0]);
    if LastValue(rest, p).Some? {
      LastValueAccepted(rest, p);
    }
  }

  // ---------------------------------------------------------------------------
  // Derived properties

  /** `IsStringArray`: not for an `Array`-typed option nor one without a
      description; otherwise whether the lower-cased description mentions
      "comma-separated" or "comma separated". */
  function IsStringArray(o: FastlaneOption): (r: bool)
    ensures r <==>
      && o.optionType != Some("Array")
      && o.description.Some?
      && exists i :: OccursAt(ToLower(o.description.value), "comma-separated", i)
                  || OccursAt(ToLower(o.description.value), "comma separated", i)
  {
    if o.optionType.Some? && o.optionType.value == "Array" then false
    else if o.description.None? then false
    else
      var help := ToLower(o.description.value);
      ContainsIffOccurs(help, "comma-separated");
      ContainsIffOccurs(help, "comma separated");
      Contains(help, "comma-separated") || Contains(help, "comma separated")
  }
}
