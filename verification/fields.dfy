/** The field parser: turns one raw option block into the ordered list of
    `(field, value)` entries the source writes into a JSON object. A value is
    kept as the JSON token the source emits: a string literal, or a bare
    `true`/`false`/integer token. */
module Fields {
  import opened Wrappers
  import opened Text
  import opened Faults
  import Json

  datatype Value =
    | Quoted(lit: string)   // a JSON string literal, quotes included
    | Token(text: string)   // a bare JSON token: `true`, `false` or an integer

  datatype Entry = Entry(field: string, value: Value)

  /** The shape of a value as the parser emits it: a `"`-delimited literal
      (or the empty text the double-quoted branch leaves when it cannot
      match), or a boolean/integer token. */
  predicate WellFormedValue(v: Value) {
    match v
    case Quoted(lit) => lit == "" || (|lit| >= 2 && lit[0] == '"' && lit[|lit| - 1] == '"')
    case Token(t) => IsScalarToken(t)
  }

  /** The entry a `key: :ident,` line contributes. */
  function NameEntry(id: string): Entry {
    Entry("name", Quoted("\"" + id + "\""))
  }

  predicate NoLineFeed(lines: seq<string>) {
    forall k | 0 <= k < |lines| :: '\n' !in lines[k]
  }

  // ---------------------------------------------------------------------------
  // The constructor call on the first line

  const CtorCall: string := "FastlaneCore::ConfigItem.new("

  /** `Regex.Replace(s, "\s*FastlaneCore::ConfigItem\.new\(", "")`: every
      occurrence of the call, with the white space right before it, removed. A
      match can only start where the white space before the call starts. */
  function RemoveCtorCall(s: string): (r: string)
    ensures |r| <= |s|
    decreases |s|
  {
    if |s| == 0 then ""
    else
      var w := CountLeading(s, IsWhite);
      if StartsWith(s[w..], CtorCall) then RemoveCtorCall(s[w + |CtorCall|..])
      else [s[0]] + RemoveCtorCall(s[1..])
  }

  /** Text that does not mention the call is left alone. */
  lemma {:induction false} RemoveCtorCallAbsent(s: string)
    requires !Contains(s, CtorCall)
    ensures RemoveCtorCall(s) == s
    decreases |s|
  {
    if |s| > 0 {
      var w := CountLeading(s, IsWhite);
      assert !StartsWith(s[w..], CtorCall) by {
        if StartsWith(s[w..], CtorCall) {
          ContainsSuffix(s, CtorCall, w);
        }
      }
      RemoveCtorCallAbsent(s[1..]);
      assert s == [s[0]] + s[1..];
    }
  }

  /** The usual first line: indentation, the call, then the rest of the line. */
  lemma RemoveCtorCallLeading(indent: string, rest: string)
    requires forall i | 0 <= i < |indent| :: IsWhite(indent[i])
    requires !Contains(rest, CtorCall)
    ensures RemoveCtorCall(indent + CtorCall + rest) == rest
  {
    var t := CtorCall + rest;
    ThreeParts(indent, CtorCall, rest);
    var s := indent + t;
    CallHead();
    HeadOfConcat(CtorCall, rest);
    LeadingWhiteOfPrefix(indent, t);
    SplitAt(indent, t);
    PrefixStarts(CtorCall, rest);
    RemoveCtorCallAt(s, |indent|);
    RemoveCtorCallAbsent(rest);
  }

  lemma ThreeParts(a: string, b: string, c: string)
    ensures a + b + c == a + (b + c)
    ensures (a + (b + c))[|a| + |b|..] == c
  {
  }

  lemma HeadOfConcat(a: string, b: string)
    requires |a| > 0
    ensures |a + b| > 0 && (a + b)[0] == a[0]
  {
  }

  lemma CallHead()
    ensures |CtorCall| > 0 && !IsWhite(CtorCall[0])
  {
  }

  lemma SplitAt(a: string, b: string)
    ensures (a + b)[|a|..] == b
  {
  }

  lemma PrefixStarts(a: string, b: string)
    ensures StartsWith(a + b, a)
  {
    assert (a + b)[..|a|] == a;
  }

  /** Where the white space at the head is followed by the call, both go. */
  lemma RemoveCtorCallAt(s: string, w: nat)
    requires w == CountLeading(s, IsWhite)
    requires StartsWith(s[w..], CtorCall)
    ensures RemoveCtorCall(s) == RemoveCtorCall(s[w + |CtorCall|..])
  {
  }

  lemma {:induction false} LeadingWhiteOfPrefix(indent: string, t: string)
    requires forall i | 0 <= i < |indent| :: IsWhite(indent[i])
    requires |t| > 0 && !IsWhite(t[0])
    ensures CountLeading(indent + t, IsWhite) == |indent|
    decreases |indent|
  {
    if |indent| > 0 {
      assert (indent + t)[1..] == indent[1..] + t;
      LeadingWhiteOfPrefix(indent[1..], t);
    } else {
      assert indent + t == t;
    }
  }

  // ---------------------------------------------------------------------------
  // The `key: :ident,` rule

  predicate IsIdentChar(c: char) {
    ('a' <= c <= 'z') || c == '_' || ('0' <= c <= '9')
  }

  predicate IsIdent(id: string) {
    |id| > 0 && forall i | 0 <= i < |id| :: IsIdentChar(id[i])
  }

  function KeyPattern(id: string): string {
    "key: :" + id + ","
  }

  /** A match of `key: :([a-z_0-9]+),` starting at the head of `s`: the
      identifier is the longest run of identifier characters after `key: :`,
      and it must be followed by a comma. */
  function KeyAt(s: string): (r: Option<string>)
    ensures r.Some? ==> IsIdent(r.value) && StartsWith(s, KeyPattern(r.value))
  {
    if StartsWith(s, "key: :") then
      var rest := s[6..];
      var n := CountLeading(rest, IsIdentChar);
      if 0 < n < |rest| && rest[n] == ',' then
        assert s[..|KeyPattern(rest[..n])|] == KeyPattern(rest[..n]);
        Some(rest[..n])
      else None
    else None
  }

  /** `Regex.Match(line, @"\s*key: :([a-z_0-9]+),")`: the identifier of the
      leftmost match anywhere in the line (the leading `\s*` never changes
      whether or where the key matches). */
  function KeyIdent(s: string): (r: Option<string>)
    ensures r.Some? ==> IsIdent(r.value) && Contains(s, KeyPattern(r.value))
    decreases |s|
  {
    if |s| == 0 then None
    else if KeyAt(s).Some? then KeyAt(s)
    else KeyIdent(s[1..])
  }

  /** Whenever the line holds `key: :<ident>,` somewhere, the rule fires. */
  lemma {:induction false} KeyIdentFinds(s: string, id: string, i: nat)
    requires IsIdent(id) && OccursAt(s, KeyPattern(id), i)
    ensures KeyIdent(s).Some?
    decreases i
  {
    if KeyAt(s).None? {
      if i == 0 {
        var rest := s[6..];
        assert StartsWith(s, "key: :") by {
          assert s[..6] == KeyPattern(id)[..6];
        }
        assert rest[..|id| + 1] == id + ",";
        IdentRun(rest, id);
        assert false;
      } else {
        assert s[1..][i - 1..i - 1 + |KeyPattern(id)|] == s[i..i + |KeyPattern(id)|];
        KeyIdentFinds(s[1..], id, i - 1);
      }
    }
  }

  lemma IdentRun(rest: string, id: string)
    requires IsIdent(id) && |rest| > |id| && rest[..|id| + 1] == id + ","
    ensures CountLeading(rest, IsIdentChar) == |id|
  {
    forall i | 0 <= i < |id| ensures IsIdentChar(rest[i]) {
      assert rest[i] == rest[..|id| + 1][i] == id[i];
    }
    assert rest[|id|] == rest[..|id| + 1][|id|] == ',';
    CountLeadingIs(rest, IsIdentChar, |id|);
  }

  // ---------------------------------------------------------------------------
  // Indentation and `end` lines

  predicate IsSpace(c: char) {
    c == ' '
  }

  /** Leading spaces, as `^ {n,}` counts them (spaces only). */
  function LeadingSpaces(s: string): nat {
    CountLeading(s, IsSpace)
  }

  /** Leading white space, as `^(\s+)` counts it (tabs included). */
  function LeadingWhite(s: string): nat {
    CountLeading(s, IsWhite)
  }

  /** `Regex.IsMatch(line, @"\s+end")`: somewhere a white-space character is
      directly followed by `end` (not only a bare `end` line). */
  predicate HasSpaceEnd(s: string)
    decreases |s|
  {
    (|s| >= 4 && IsWhite(s[0]) && s[1..4] == "end") || (|s| > 0 && HasSpaceEnd(s[1..]))
  }

  // ---------------------------------------------------------------------------
  // Comment stripping and trimming

  predicate IsQuote(c: char) {
    c == '\'' || c == '"'
  }

  predicate IsHash(c: char) {
    c == '#'
  }

  /** Cuts the line at its last `#` when that `#` comes after the last quote
      character. The cut happens exactly when some `#` has no quote at or after
      it, and it is made at the last `#`. */
  function StripComment(line: string): (r: string)
    ensures |r| <= |line| && r == line[..|r|]
    ensures r != line ==> line[|r|] == '#' && forall j | |r| < j < |line| :: line[j] != '#'
    ensures r != line <==>
      exists k | 0 <= k < |line| :: line[k] == '#' && forall j | k <= j < |line| :: !IsQuote(line[j])
  {
    var h := LastIndexWhere(line, IsHash);
    var q := LastIndexWhere(line, IsQuote);
    if h > q then
      assert forall j | h <= j < |line| :: !IsQuote(line[j]);
      line[..h]
    else
      assert forall k | 0 <= k < |line| && line[k] == '#' :: k <= h && (q >= 0 && IsQuote(line[q]) && k <= q);
      line
  }

  /** `TrimEnd(',', ')', '\r')`. */
  function TrimTail(s: string): string {
    TrimEndChars(s, {',', ')', '\r'})
  }

  /** The line once the comment is gone and the trailing separators trimmed. */
  function CleanLine(line: string): string {
    TrimTail(StripComment(line))
  }

  /** Cleaning only cuts the line short. */
  lemma CleanLineWithin(line: string)
    ensures forall x | x in CleanLine(line) :: x in line
  {
    var s := StripComment(line);
    var c := CleanLine(line);
    assert c == s[..|c|];
    forall x | x in c
      ensures x in line
    {
      var i :| 0 <= i < |c| && c[i] == x;
      assert s[i] == x && line[i] == x;
    }
  }

  // ---------------------------------------------------------------------------
  // Values

  predicate IsDigit(c: char) {
    '0' <= c <= '9'
  }

  predicate AllDigits(s: string) {
    |s| > 0 && forall i | 0 <= i < |s| :: IsDigit(s[i])
  }

  /** `^(true|false|-?\d+)$`. */
  predicate IsScalarToken(v: string) {
    v == "true" || v == "false" || AllDigits(v) || (|v| > 0 && v[0] == '-' && AllDigits(v[1..]))
  }

  /** The single-quoted branch: the first and last characters dropped, every
      `"` escaped, double quotes put around. */
  function SingleQuotedToJson(v: string): Result<string, Fault>
  {
    if |v| < 2 then Failure(ArgumentOutOfRange)
    else Success("\"" + ReplaceChar(v[1..|v| - 1], '"', "\\\"") + "\"")
  }

  /** Lines 335-341: a double-quoted value without its closing quote (or
      ending in `"\`) loses its trailing backslashes and quotes when it ends in
      a backslash, and gets a closing quote. */
  function CloseQuoted(v: string): (r: string)
    requires StartsWith(v, "\"")
    ensures StartsWith(r, "\"") && EndsWith(r, "\"")
  {
    if !EndsWith(v, "\"") || EndsWith(v, "\"\\") then
      var base := if EndsWith(v, "\\") then TrimEndChars(v, {'\\', '"'}) else v;
      base + "\""
    else v
  }

  predicate IsDoubleQuote(c: char) {
    c == '"'
  }

  /** `Regex.Match(v, "(.*?\")(.*)(\".*)")` on a line without line feeds: the
      text up to the first quote, the text between the first and the last
      quote, and the text from the last quote on; no match with fewer than two
      quotes. */
  function QuoteGroups(v: string): (r: Option<(string, string, string)>)
    ensures r.Some? ==> r.value.0 + r.value.1 + r.value.2 == v
  {
    match IndexOf(v, '"')
    case None => None
    case Some(f) =>
      var l := LastIndexWhere(v, IsDoubleQuote);
      if l <= f then None
      else
        assert v[..f + 1] + v[f + 1..l] + v[l..] == v;
        Some((v[..f + 1], v[f + 1..l], v[l..]))
  }

  /** What character `i` of `m` becomes under `Regex.Replace(m,
      "(?<!\\\\)\"", "\\\"")`: a quote not preceded by a backslash gets one. */
  function BareQuotePiece(m: string, i: nat): string
    requires i < |m|
  {
    if m[i] == '"' && (i == 0 || m[i - 1] != '\\') then "\\\"" else [m[i]]
  }

  /** The replacement applied to `m[i..]`, every test looking at the whole of `m`. */
  function EscapeBareQuotesFrom(m: string, i: nat): string
    requires i <= |m|
    decreases |m| - i
  {
    if i == |m| then "" else BareQuotePiece(m, i) + EscapeBareQuotesFrom(m, i + 1)
  }

  function EscapeBareQuotes(m: string): string {
    EscapeBareQuotesFrom(m, 0)
  }

  /** What character `i` of `v` becomes under `Regex.Replace(v,
      @"(?<=[^\\])\\(?![""\\])", "\\\\")`: a backslash that follows a
      non-backslash and is not followed by a quote or a backslash is doubled. */
  function LoneBackslashPiece(v: string, i: nat): string
    requires i < |v|
  {
    if v[i] == '\\' && i > 0 && v[i - 1] != '\\'
       && (i + 1 == |v| || (v[i + 1] != '"' && v[i + 1] != '\\'))
    then "\\\\" else [v[i]]
  }

  function DoubleLoneBackslashesFrom(v: string, i: nat): string
    requires i <= |v|
    decreases |v| - i
  {
    if i == |v| then "" else LoneBackslashPiece(v, i) + DoubleLoneBackslashesFrom(v, i + 1)
  }

  function DoubleLoneBackslashes(v: string): string {
    DoubleLoneBackslashesFrom(v, 0)
  }

  /** The rewrite of a non-empty tail ends with what its last character becomes. */
  lemma {:induction false} LoneBackslashesLast(v: string, i: nat)
    requires i < |v|
    ensures var r := DoubleLoneBackslashesFrom(v, i);
      var p := LoneBackslashPiece(v, |v| - 1);
      |r| >= |p| && r[|r| - |p|..] == p
    decreases |v| - i
  {
    if i + 1 < |v| {
      LoneBackslashesLast(v, i + 1);
    }
  }

  /** The double-quoted branch (lines 335-347). */
  function DoubleQuotedToJson(v: string): string
    requires StartsWith(v, "\"") && '\n' !in v
  {
    match QuoteGroups(CloseQuoted(v))
    case None => ""
    case Some((g1, g2, g3)) => DoubleLoneBackslashes(g1 + EscapeBareQuotes(g2) + g3)
  }

  /** The double-quoted branch yields a `"`-delimited literal, or nothing at
      all when fewer than two quotes are left to match. */
  lemma DoubleQuotedShape(v: string)
    requires StartsWith(v, "\"") && '\n' !in v
    ensures var r := DoubleQuotedToJson(v);
      r == "" || (|r| >= 2 && r[0] == '"' && r[|r| - 1] == '"')
  {
    var c := CloseQuoted(v);
    match QuoteGroups(c)
    case None =>
    case Some((g1, g2, g3)) =>
      GroupsOfClosed(c);
      var x := g1 + EscapeBareQuotes(g2) + g3;
      assert x[0] == '"' && x[|x| - 1] == '"';
      LoneBackslashesDelimited(x);
  }

  /** With a quote at both ends, the first group is the opening quote and the
      last group the closing one. */
  lemma GroupsOfClosed(c: string)
    requires StartsWith(c, "\"") && EndsWith(c, "\"")
    ensures QuoteGroups(c).Some? ==> QuoteGroups(c).value.0 == "\"" && QuoteGroups(c).value.2 == "\""
  {
    assert c[0] == '"' && c[|c| - 1] == '"' by {
      assert c[..1] == "\"" && c[|c| - 1..] == "\"";
    }
    assert IndexOf(c, '"') == Some(0);
    assert LastIndexWhere(c, IsDoubleQuote) == |c| - 1;
  }

  /** The backslash rewrite keeps a quote at both ends. */
  lemma LoneBackslashesDelimited(x: string)
    requires |x| >= 2 && x[0] == '"' && x[|x| - 1] == '"'
    ensures var r := DoubleLoneBackslashes(x);
      |r| >= 2 && r[0] == '"' && r[|r| - 1] == '"'
  {
    assert LoneBackslashPiece(x, 0) == ['"'];
    assert LoneBackslashPiece(x, |x| - 1) == ['"'];
    LoneBackslashesLast(x, 1);
    assert DoubleLoneBackslashes(x) == ['"'] + DoubleLoneBackslashesFrom(x, 1);
  }

  /** A single-quoted Ruby string without backslashes becomes the JSON
      literal of its content, which reads back as that content. */
  lemma SingleQuotedRoundTrip(content: string)
    requires '\\' !in content
    ensures SingleQuotedToJson("'" + content + "'") == Success(Json.Quote(content))
    ensures Json.Unquote(Json.Quote(content)) == Some(content)
  {
    var v := "'" + content + "'";
    assert v[1..|v| - 1] == content;
    QuoteEscapeOnly(content);
    Json.UnquoteQuote(content);
  }

  /** Without backslashes, escaping quotes is all JSON escaping does. */
  lemma {:induction false} QuoteEscapeOnly(s: string)
    requires '\\' !in s
    ensures ReplaceChar(s, '"', "\\\"") == Json.EscapeContent(s)
    decreases |s|
  {
    if |s| > 0 {
      QuoteEscapeOnly(s[1..]);
    }
  }

  /** A double-quoted Ruby string with no quote or backslash inside passes
      through unchanged, and reads back as its content. */
  lemma DoubleQuotedRoundTrip(content: string)
    requires '"' !in content && '\\' !in content && '\n' !in content
    ensures DoubleQuotedToJson("\"" + content + "\"") == Json.Quote(content)
    ensures Json.Unquote(DoubleQuotedToJson("\"" + content + "\"")) == Some(content)
  {
    var v := "\"" + content + "\"";
    assert v[|v| - 1] == '"' && v[0] == '"';
    assert v[|v| - 2..] != "\"\\";
    assert CloseQuoted(v) == v;
    assert IndexOf(v, '"') == Some(0);
    assert forall i | 0 < i < |v| - 1 :: v[i] == content[i - 1];
    assert LastIndexWhere(v, IsDoubleQuote) == |v| - 1;
    assert v[..1] == "\"" && v[1..|v| - 1] == content && v[|v| - 1..] == "\"";
    assert QuoteGroups(v) == Some(("\"", content, "\""));
    PlainUnchanged(content, 0);
    assert '\\' !in v;
    LoneBackslashesAbsent(v, 0);
    PlainEscape(content);
    Json.UnquoteQuote(content);
  }

  /** Text without quotes is left alone by the quote rewrite. */
  lemma {:induction false} PlainUnchanged(m: string, i: nat)
    requires i <= |m| && '"' !in m
    ensures EscapeBareQuotesFrom(m, i) == m[i..]
    decreases |m| - i
  {
    if i < |m| {
      PlainUnchanged(m, i + 1);
      assert m[i..] == [m[i]] + m[i + 1..];
    }
  }

  /** Text without backslashes is left alone by the backslash rewrite. */
  lemma {:induction false} LoneBackslashesAbsent(m: string, i: nat)
    requires i <= |m| && '\\' !in m
    ensures DoubleLoneBackslashesFrom(m, i) == m[i..]
    decreases |m| - i
  {
    if i < |m| {
      LoneBackslashesAbsent(m, i + 1);
      assert m[i..] == [m[i]] + m[i + 1..];
    }
  }

  /** JSON escaping leaves text without quotes or backslashes alone. */
  lemma {:induction false} PlainEscape(s: string)
    requires '"' !in s && '\\' !in s
    ensures Json.EscapeContent(s) == s
    decreases |s|
  {
    if |s| > 0 {
      PlainEscape(s[1..]);
      assert s == [s[0]] + s[1..];
    }
  }

  /** A quoted value: single-quoted values fail only when they are a lone
      `'`; both kinds yield a literal of the expected shape. */
  function DecodeQuoted(v: string): (r: Result<Value, Fault>)
    requires '\n' !in v && (StartsWith(v, "'") || StartsWith(v, "\""))
    ensures r.Failure? <==> v == "'"
    ensures r.Success? ==> r.value.Quoted? && WellFormedValue(r.value)
  {
    if StartsWith(v, "'") then
      assert |v| < 2 <==> v == "'" by {
        if |v| < 2 {
          assert v == [v[0]];
        }
      }
      var lit :- SingleQuotedToJson(v);
      Success(Quoted(lit))
    else
      assert v != "'" by {
        assert v[0] == '"';
      }
      DoubleQuotedShape(v);
      Success(Quoted(DoubleQuotedToJson(v)))
  }

  /** The value decoder. A single-quoted value of one character makes
      `Substring` throw; an unquoted value that is not `nil`, a boolean or an
      integer is dropped (`None`). */
  function DecodeValue(v: string): (r: Result<Option<Value>, Fault>)
    requires '\n' !in v
    ensures r.Failure? <==> v == "'"
    ensures v == "nil" ==> r == Success(Some(Quoted("\"\"")))
    ensures !StartsWith(v, "'") && !StartsWith(v, "\"") && v != "nil" ==>
      r == (if IsScalarToken(v) then Success(Some(Token(v))) else Success(None))
    ensures r.Success? && r.value.Some? ==> WellFormedValue(r.value.value)
  {
    if StartsWith(v, "'") || StartsWith(v, "\"") then
      assert v != "nil" by {
        assert v[0] == '\'' || v[0] == '"';
      }
      var x :- DecodeQuoted(v);
      Success(Some(x))
    else if v == "nil" then
      Success(Some(Quoted("\"\"")))
    else if IsScalarToken(v) then
      Success(Some(Token(v)))
    else
      Success(None)
  }

  // ---------------------------------------------------------------------------
  // One line

  /** The position of the first `:` of a line that has one. */
  function ColonAt(c: string): (i: nat)
    requires ':' in c
    ensures i < |c| && c[i] == ':' && ':' !in c[..i]
  {
    IndexOf(c, ':').value
  }

  /** The field name: the trimmed text before the first `:`. */
  function FieldName(c: string): (name: string)
    requires ':' in c
    ensures ':' !in name
  {
    TrimWithin(c[..ColonAt(c)]);
    Trim(c[..ColonAt(c)])
  }

  /** The value text: the trimmed text after the first `:`, with every
      further `:` deleted. */
  function FieldValue(c: string): (v: string)
    requires ':' in c
    ensures '\n' !in c ==> '\n' !in v
  {
    var rest := RemoveChar(c[ColonAt(c) + 1..], ':');
    TrimWithin(rest);
    Trim(rest)
  }

  /** A cleaned field line: a line without `:` contributes nothing; otherwise
      the decoded value under the field name, or nothing when the value is
      dropped. */
  function FieldEntry(c: string): (r: Result<Option<Entry>, Fault>)
    requires '\n' !in c
    ensures r.Success? && r.value.Some? ==>
      ':' !in r.value.value.field && WellFormedValue(r.value.value.value)
    ensures ':' !in c ==> r == Success(None)
    ensures ':' in c ==>
      r == (match DecodeValue(FieldValue(c))
            case Failure(f) => Failure(f)
            case Success(None) => Success(None)
            case Success(Some(x)) => Success(Some(Entry(FieldName(c), x))))
  {
    var parts := Split(c, ':');
    FieldParts(c);
    if |parts| < 2 then
      Success(None)
    else
      assert Trim(parts[0]) == FieldName(c);
      assert Trim(Flatten(parts[1..])) == FieldValue(c);
      var v :- DecodeValue(FieldValue(c));
      Success(match v case None => None case Some(x) => Some(Entry(FieldName(c), x)))
  }

  /** One field line of the loop body: comment stripped, tail trimmed, then split. */
  function ParseFieldLine(line: string): (r: Result<Option<Entry>, Fault>)
    requires '\n' !in line
    ensures r.Success? && r.value.Some? ==>
      ':' !in r.value.value.field && WellFormedValue(r.value.value.value)
  {
    CleanLineWithin(line);
    FieldEntry(CleanLine(line))
  }

  /** `Split(':')` seen through the first colon: the name part is the text
      before it, and the pieces after it glue back to the rest of the text
      with its colons deleted. */
  lemma FieldParts(c: string)
    ensures |Split(c, ':')| >= 2 <==> ':' in c
    ensures ':' in c ==>
      var i := IndexOf(c, ':').value;
      Split(c, ':')[0] == c[..i] && ':' !in c[..i]
      && Flatten(Split(c, ':')[1..]) == RemoveChar(c[i + 1..], ':')
  {
    SplitHead(c, ':');
    if ':' in c {
      var i := IndexOf(c, ':').value;
      var tail := Split(c[i + 1..], ':');
      assert Split(c, ':') == [c[..i]] + tail;
      assert Split(c, ':')[1..] == tail;
      FlattenSplit(c[i + 1..], ':');
    }
  }

  // ---------------------------------------------------------------------------
  // The block

  /** What a field line contributes: its entry, if any. */
  function FieldStep(line: string): (r: Result<seq<Entry>, Fault>)
    requires '\n' !in line
    ensures r.Success? ==> |r.value| <= 1
    ensures r.Success? ==> forall e | e in r.value :: WellFormedValue(e.value) && ':' !in e.field
  {
    var e :- ParseFieldLine(line);
    match e
    case None => Success([])
    case Some(x) => Success([x])
  }

  /** The tests the loop body applies to a line: the key rule, the two
      indentation counts, the `end` rule and the field parser. */
  datatype LineRules = LineRules(key: string -> Option<string>, spaces: string -> nat,
                                 white: string -> nat, isEnd: string -> bool,
                                 field: string --> Result<seq<Entry>, Fault>)

  /** The rules of `ParseOptionToJson`. */
  const OptionLines: LineRules :=
    LineRules(KeyIdent, LeadingSpaces, LeadingWhite, HasSpaceEnd, FieldStep)

  /** Every line of `lines` from `i` on is one the field parser accepts. */
  ghost predicate Parsable(lines: seq<string>, i: nat, rules: LineRules) {
    forall k | i <= k < |lines| :: rules.field.requires(lines[k])
  }

  /** The loop of lines 298-359 from line `i` on, with the baseline `indent`
      (-1 until it is set): a key line contributes its name; once the baseline
      is set, a line indented by more spaces than the baseline is skipped; an
      `end` line is skipped; the first other line sets the baseline; the line
      is then parsed as a field. */
  function ParseLines(lines: seq<string>, i: nat, indent: int, rules: LineRules): Result<seq<Entry>, Fault>
    requires i <= |lines| && Parsable(lines, i, rules)
    decreases |lines| - i
  {
    if i == |lines| then Success([])
    else
      var line := lines[i];
      match rules.key(line)
      case Some(id) =>
        var rest :- ParseLines(lines, i + 1, indent, rules);
        Success([NameEntry(id)] + rest)
      case None =>
        if indent != -1 && rules.spaces(line) >= indent + 1 then ParseLines(lines, i + 1, indent, rules)
        else if rules.isEnd(line) then ParseLines(lines, i + 1, indent, rules)
        else
          var e :- rules.field(line);
          var rest :- ParseLines(lines, i + 1, if indent == -1 then rules.white(line) else indent, rules);
          Success(e + rest)
  }

  /** The field parser of a fastlane block yields at most one well-formed entry per line. */
  ghost predicate FieldsWellFormed(rules: LineRules) {
    forall line | rules.field.requires(line) ::
      var r := rules.field(line);
      r.Success? ==> |r.value| <= 1 && forall e | e in r.value :: WellFormedValue(e.value) && ':' !in e.field
  }

  lemma OptionLinesWellFormed()
    ensures FieldsWellFormed(OptionLines)
    ensures forall lines: seq<string>, i: nat | NoLineFeed(lines) :: Parsable(lines, i, OptionLines)
  {
  }

  /** Each line contributes at most one entry, and every entry is well formed
      with a colon-free field name. */
  lemma {:induction false} ParseLinesEntries(lines: seq<string>, i: nat, indent: int, rules: LineRules)
    requires i <= |lines| && Parsable(lines, i, rules) && FieldsWellFormed(rules)
    ensures var r := ParseLines(lines, i, indent, rules);
      r.Success? ==> (|r.value| <= |lines| - i
                      && forall e | e in r.value :: WellFormedValue(e.value) && ':' !in e.field)
    decreases |lines| - i
  {
    if i < |lines| {
      var line := lines[i];
      var next := if rules.key(line).None? && indent == -1 then rules.white(line) else indent;
      ParseLinesEntries(lines, i + 1, indent, rules);
      ParseLinesEntries(lines, i + 1, next, rules);
    }
  }

  /** The constructor call removed from the first line never adds characters. */
  lemma {:induction false} RemoveCtorCallWithin(s: string)
    ensures forall x | x in RemoveCtorCall(s) :: x in s
    decreases |s|
  {
    if |s| > 0 {
      var w := CountLeading(s, IsWhite);
      if StartsWith(s[w..], CtorCall) {
        RemoveCtorCallWithin(s[w + |CtorCall|..]);
      } else {
        RemoveCtorCallWithin(s[1..]);
      }
    }
  }

  /** `ParseOptionToJson`: the entries of one option block, `None` for an
      empty block or one where no field survives. Each line contributes at
      most one entry; every field name is free of `:`. */
  function ParseOptionToEntries(block: seq<string>): (r: Result<Option<seq<Entry>>, Fault>)
    requires NoLineFeed(block)
    ensures |block| == 0 ==> r == Success(None)
    ensures r.Success? && r.value.Some? ==> 0 < |r.value.value| <= |block|
    ensures r.Success? && r.value.Some? ==>
      forall e | e in r.value.value :: WellFormedValue(e.value) && ':' !in e.field
  {
    if |block| == 0 then Success(None)
    else
      var lines := FirstLineCleared(block);
      OptionLinesWellFormed();
      ParseLinesEntries(lines, 0, -1, OptionLines);
      var props :- ParseLines(lines, 0, -1, OptionLines);
      if |props| == 0 then Success(None) else Success(Some(props))
  }

  /** Which entries a block yields: after the constructor call is taken off
      its first line, the per-line contributions of `Collect` in order, `None`
      when there are none, and the first fault when a line raises one. */
  lemma EntriesFromReference(block: seq<string>)
    requires NoLineFeed(block)
    ensures |block| > 0 ==> Parsable(FirstLineCleared(block), 0, OptionLines)
    ensures |block| > 0 ==>
      ParseOptionToEntries(block) ==
        match Collect(FirstLineCleared(block), 0, OptionLines)
        case Failure(f) => Failure(f)
        case Success(es) => if es == [] then Success(None) else Success(Some(es))
  {
    if |block| > 0 {
      OptionLinesWellFormed();
      ParseLinesMatchesReference(FirstLineCleared(block), OptionLines);
    }
  }

  /** The block with the constructor call taken off its first line. */
  function FirstLineCleared(block: seq<string>): (lines: seq<string>)
    requires |block| > 0 && NoLineFeed(block)
    ensures |lines| == |block| && NoLineFeed(lines)
  {
    var lines := [RemoveCtorCall(block[0])] + block[1..];
    RemoveCtorCallWithin(block[0]);
    assert forall k | 1 <= k < |lines| :: lines[k] == block[k];
    lines
  }

  // ---------------------------------------------------------------------------
  // Reference: each line judged on its own against a fixed baseline

  /** A line that can set the baseline: neither a key line nor an `end` line. */
  predicate SetsBaseline(line: string, rules: LineRules) {
    rules.key(line).None? && !rules.isEnd(line)
  }

  /** The first line at or after `from` that can set the baseline. */
  function BaselineFrom(lines: seq<string>, from: nat, rules: LineRules): (r: Option<nat>)
    ensures r.Some? ==> from <= r.value < |lines| && SetsBaseline(lines[r.value], rules)
    ensures r.Some? ==> forall k | from <= k < r.value :: !SetsBaseline(lines[k], rules)
    ensures r.None? ==> forall k | from <= k < |lines| :: !SetsBaseline(lines[k], rules)
    decreases |lines| - from
  {
    if from >= |lines| then None
    else if SetsBaseline(lines[from], rules) then Some(from)
    else BaselineFrom(lines, from + 1, rules)
  }

  /** Line `k` sits deeper than the baseline, which an earlier line set. */
  predicate Nested(lines: seq<string>, k: nat, rules: LineRules)
    requires k < |lines|
  {
    match BaselineFrom(lines, 0, rules)
    case None => false
    case Some(b) => b < k && rules.spaces(lines[k]) >= rules.white(lines[b]) + 1
  }

  /** What line `k` contributes: a key line its name; a nested line or an
      `end` line nothing; any other line what the field parser makes of it. */
  function Contribution(lines: seq<string>, k: nat, rules: LineRules): Result<seq<Entry>, Fault>
    requires k < |lines| && rules.field.requires(lines[k])
  {
    match rules.key(lines[k])
    case Some(id) => Success([NameEntry(id)])
    case None =>
      if Nested(lines, k, rules) || rules.isEnd(lines[k]) then Success([])
      else rules.field(lines[k])
  }

  /** The contributions of lines `i..` in order; the first fault wins. */
  function Collect(lines: seq<string>, i: nat, rules: LineRules): Result<seq<Entry>, Fault>
    requires i <= |lines| && Parsable(lines, i, rules)
    decreases |lines| - i
  {
    if i == |lines| then Success([])
    else
      var c :- Contribution(lines, i, rules);
      var rest :- Collect(lines, i + 1, rules);
      Success(c + rest)
  }

  /** The baseline the loop holds when it reaches line `i`. */
  function IndentAt(lines: seq<string>, i: nat, rules: LineRules): int {
    match BaselineFrom(lines, 0, rules)
    case Some(b) => if b < i then rules.white(lines[b]) else -1
    case None => -1
  }

  /** The loop with its mutable baseline computes exactly the per-line
      reference: the baseline is the leading white space of the first line
      that is neither a key line nor an `end` line, and only lines after it
      can be skipped as nested. */
  lemma ParseLinesMatchesReference(lines: seq<string>, rules: LineRules)
    requires Parsable(lines, 0, rules)
    ensures ParseLines(lines, 0, -1, rules) == Collect(lines, 0, rules)
  {
    ParseLinesFrom(lines, 0, rules);
  }

  lemma {:induction false} ParseLinesFrom(lines: seq<string>, i: nat, rules: LineRules)
    requires i <= |lines| && Parsable(lines, i, rules)
    ensures ParseLines(lines, i, IndentAt(lines, i, rules), rules) == Collect(lines, i, rules)
    decreases |lines| - i
  {
    if i < |lines| {
      ParseLinesFrom(lines, i + 1, rules);
      IndentStep(lines, i, rules);
      var line := lines[i];
      if rules.key(line).None? && (Nested(lines, i, rules) || rules.isEnd(line)) {
        if Collect(lines, i + 1, rules).Success? {
          assert [] + Collect(lines, i + 1, rules).value == Collect(lines, i + 1, rules).value;
        }
      }
    }
  }

  /** How the baseline moves past line `i`, and when line `i` is nested. */
  lemma IndentStep(lines: seq<string>, i: nat, rules: LineRules)
    requires i < |lines|
    ensures var ind := IndentAt(lines, i, rules);
      && IndentAt(lines, i + 1, rules) ==
           (if ind == -1 && SetsBaseline(lines[i], rules) then rules.white(lines[i]) else ind)
      && ((ind != -1 && rules.spaces(lines[i]) >= ind + 1) <==> Nested(lines, i, rules))
  {
    var ind := IndentAt(lines, i, rules);
    match BaselineFrom(lines, 0, rules)
    case None =>
    case Some(b) =>
      if b == i {
        assert ind == -1;
      } else if b > i {
        assert !SetsBaseline(lines[i], rules);
      }
  }
}
