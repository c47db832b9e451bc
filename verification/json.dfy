/** The JSON string literals the option builder writes into its field
    entries, and the reader that turns them back into text the way the JSON
    deserialiser does: a literal is `"`-delimited; inside it `\"`, `\\`, `\/`,
    `\'`, `\b`, `\f`, `\n`, `\r`, `\t` and `\uXXXX` are escapes (a high and a
    low surrogate escape in a row make one character), any other escape is an
    error, and every other character stands for itself. */
module Json {
  import opened Wrappers

  /** Escapes `"` and `\` so that the text survives a round trip. */
  function EscapeContent(s: string): string
    decreases |s|
  {
    if |s| == 0 then ""
    else (if s[0] == '"' || s[0] == '\\' then ['\\', s[0]] else [s[0]]) + EscapeContent(s[1..])
  }

  /** The JSON literal for `s`. */
  function Quote(s: string): string {
    "\"" + EscapeContent(s) + "\""
  }

  predicate IsHexDigit(c: char) {
    ('0' <= c <= '9') || ('a' <= c <= 'f') || ('A' <= c <= 'F')
  }

  function HexValue(c: char): (v: nat)
    requires IsHexDigit(c)
    ensures v < 16
  {
    if '0' <= c <= '9' then c as int - '0' as int
    else if 'a' <= c <= 'f' then c as int - 'a' as int + 10
    else c as int - 'A' as int + 10
  }

  /** Four hexadecimal digits, the payload of a `\uXXXX` escape. */
  predicate IsHex4(h: string) {
    |h| == 4 && forall i | 0 <= i < 4 :: IsHexDigit(h[i])
  }

  /** The UTF-16 code unit four hexadecimal digits spell. */
  function UnitValue(h: string): (n: nat)
    requires IsHex4(h)
    ensures n < 0x10000
  {
    var a := HexValue(h[0]) * 16 + HexValue(h[1]);
    var b := a * 16 + HexValue(h[2]);
    assert a < 256 && b < 4096;
    b * 16 + HexValue(h[3])
  }

  predicate IsHighSurrogate(n: nat) { 0xD800 <= n <= 0xDBFF }

  predicate IsLowSurrogate(n: nat) { 0xDC00 <= n <= 0xDFFF }

  /** The character a `\uXXXX` escape stands for on its own; a surrogate
      that is not part of a pair, which is not a character of this model,
      reads as U+FFFD. */
  function CodeUnit(h: string): (c: char)
    requires IsHex4(h)
    ensures !IsHighSurrogate(UnitValue(h)) && !IsLowSurrogate(UnitValue(h)) ==> c as int == UnitValue(h)
  {
    var n := UnitValue(h);
    if 0xD800 <= n <= 0xDFFF then '\U{FFFD}' else n as char
  }

  /** The character above U+FFFF that a high and a low surrogate encode
      together in UTF-16. */
  function PairChar(hi: nat, lo: nat): (c: char)
    requires IsHighSurrogate(hi) && IsLowSurrogate(lo)
    ensures 0x10000 <= c as int <= 0x10FFFF
    ensures (c as int - 0x10000) / 0x400 == hi - 0xD800
    ensures (c as int - 0x10000) % 0x400 == lo - 0xDC00
  {
    (0x10000 + (hi - 0xD800) * 0x400 + (lo - 0xDC00)) as char
  }

  /** After `\u` and a high surrogate: a second escape `\u` holding a low
      surrogate completes the pair. */
  predicate LowFollows(s: string) {
    |s| >= 11 && s[5] == '\\' && s[6] == 'u' && IsHex4(s[7..11]) && IsLowSurrogate(UnitValue(s[7..11]))
  }

  /** The escape that follows a backslash: the character it stands for and
      the number of characters it occupies after the backslash. */
  function ReadEscape(s: string): (r: Option<(char, nat)>)
    requires |s| > 0
    ensures r.Some? ==> 1 <= r.value.1 <= |s|
  {
    match s[0]
    case '"' => Some(('"', 1))
    case '\\' => Some(('\\', 1))
    case '/' => Some(('/', 1))
    case '\'' => Some(('\'', 1))
    case 'b' => Some(('\U{8}', 1))
    case 'f' => Some(('\U{C}', 1))
    case 'n' => Some(('\n', 1))
    case 'r' => Some(('\r', 1))
    case 't' => Some(('\t', 1))
    case 'u' =>
      if |s| >= 5 && IsHex4(s[1..5]) then
        var n := UnitValue(s[1..5]);
        if IsHighSurrogate(n) && LowFollows(s) then Some((PairChar(n, UnitValue(s[7..11])), 11))
        else Some((CodeUnit(s[1..5]), 5))
      else None
    case _ => None
  }

  /** A high-surrogate escape followed by a low-surrogate escape stands for
      the one character the pair encodes, as section 7 of RFC 8259 writes a
      character outside the Basic Multilingual Plane. */
  lemma SurrogatePairEscape(hi: string, lo: string, rest: string)
    requires IsHex4(hi) && IsHighSurrogate(UnitValue(hi))
    requires IsHex4(lo) && IsLowSurrogate(UnitValue(lo))
    ensures ReadEscape("u" + hi + "\\u" + lo + rest) == Some((PairChar(UnitValue(hi), UnitValue(lo)), 11))
  {
  }

  /** A surrogate escape that does not open a pair with the escape after it
      reads as U+FFFD and occupies only its own five characters. */
  lemma LoneSurrogateEscape(h: string, rest: string)
    requires IsHex4(h) && (IsHighSurrogate(UnitValue(h)) || IsLowSurrogate(UnitValue(h)))
    requires !(IsHighSurrogate(UnitValue(h)) && LowFollows("u" + h + rest))
    ensures ReadEscape("u" + h + rest) == Some(('\U{FFFD}', 5))
  {
  }

  /** A literal holding one surrogate pair reads as the single character the
      pair encodes. */
  lemma UnquotePair(hi: string, lo: string)
    requires IsHex4(hi) && IsHighSurrogate(UnitValue(hi))
    requires IsHex4(lo) && IsLowSurrogate(UnitValue(lo))
    ensures Unquote("\"\\u" + hi + "\\u" + lo + "\"") == Some([PairChar(UnitValue(hi), UnitValue(lo))])
  {
    var lit := "\"\\u" + hi + "\\u" + lo + "\"";
    var body := lit[1..];
    assert body == "\\" + ("u" + hi + "\\u" + lo + "\"");
    SurrogatePairEscape(hi, lo, "\"");
    assert body[1..] == "u" + hi + "\\u" + lo + "\"";
    assert body[12..] == "\"";
    var c := PairChar(UnitValue(hi), UnitValue(lo));
    assert ReadBody(body[12..]) == Some("");
    assert ReadBody(body) == Some([c] + "");
    assert [c] + "" == [c];
  }

  /** The pair for U+1F600 reads as that one character, not as two
      replacement characters. */
  lemma UnquoteEmojiPair()
    ensures Unquote("\"\\uD83D\\uDE00\"") == Some("\U{1F600}")
  {
    assert UnitValue("D83D") == 0xD83D && UnitValue("DE00") == 0xDE00;
    UnquotePair("D83D", "DE00");
    assert "\"\\u" + "D83D" + "\\u" + "DE00" + "\"" == "\"\\uD83D\\uDE00\"";
  }

  /** Reads the body of a literal after its opening quote; the closing quote
      must be the last character. */
  function ReadBody(s: string): Option<string>
    decreases |s|
  {
    if |s| == 0 then None
    else if s[0] == '"' then (if |s| == 1 then Some("") else None)
    else if s[0] == '\\' then
      if |s| < 2 then None
      else match ReadEscape(s[1..])
        case None => None
        case Some((c, n)) =>
          match ReadBody(s[1 + n..])
          case None => None
          case Some(rest) => Some([c] + rest)
    else
      match ReadBody(s[1..])
      case None => None
      case Some(rest) => Some([s[0]] + rest)
  }

  /** The text a JSON string literal stands for, or `None` when the reader
      rejects it. An accepted literal is `"`-delimited. */
  function Unquote(lit: string): (r: Option<string>)
    ensures r.Some? ==> |lit| >= 2 && lit[0] == '"' && lit[|lit| - 1] == '"'
  {
    if |lit| >= 1 && lit[0] == '"' then
      BodyEndsWithQuote(lit[1..]);
      ReadBody(lit[1..])
    else None
  }

  lemma {:induction false} BodyEndsWithQuote(s: string)
    ensures ReadBody(s).Some? ==> |s| >= 1 && s[|s| - 1] == '"'
    decreases |s|
  {
    if |s| > 0 && s[0] != '"' {
      if s[0] == '\\' {
        if |s| >= 2 {
          match ReadEscape(s[1..])
          case None =>
          case Some((c, n)) => BodyEndsWithQuote(s[1 + n..]);
        }
      } else {
        BodyEndsWithQuote(s[1..]);
      }
    }
  }

  /** Reading what `Quote` wrote gives the text back. */
  lemma {:induction false} UnquoteQuote(s: string)
    ensures Unquote(Quote(s)) == Some(s)
  {
    assert Quote(s)[1..] == EscapeContent(s) + "\"";
    ReadEscaped(s);
  }

  lemma {:induction false} ReadEscaped(s: string)
    ensures ReadBody(EscapeContent(s) + "\"") == Some(s)
    decreases |s|
  {
    if |s| == 0 {
      assert EscapeContent(s) + "\"" == "\"";
    } else {
      var t := EscapeContent(s) + "\"";
      ReadEscaped(s[1..]);
      if s[0] == '"' || s[0] == '\\' {
        assert t == ['\\', s[0]] + (EscapeContent(s[1..]) + "\"");
        assert t[1..][0] == s[0];
        assert t[2..] == EscapeContent(s[1..]) + "\"";
      } else {
        assert t == [s[0]] + (EscapeContent(s[1..]) + "\"");
        assert t[0] == s[0] && t[1..] == EscapeContent(s[1..]) + "\"";
        assert ReadBody(t) == Some([s[0]] + s[1..]);
      }
      assert s == [s[0]] + s[1..];
    }
  }
}
