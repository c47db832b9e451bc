/** Help text: an option's description made safe for an XML doc comment,
    ended with a period, with backtick spans turned into `<c>` elements. */
module Help {
  import opened Wrappers
  import opened Text

  // ---------------------------------------------------------------------------
  // AppendPeriodIfNeeded

  /** `AppendPeriodIfNeeded`: the shortest extension of `value` that ends with
      a period. */
  function AppendPeriodIfNeeded(value: string): (r: string)
    ensures StartsWith(r, value) && EndsWith(r, ".")
    ensures |r| == (if EndsWith(value, ".") then |value| else |value| + 1)
  {
    if EndsWith(value, ".") then value else value + "."
  }

  /** Appending a period to a text that already gets one is no change. */
  lemma AppendPeriodIdempotent(value: string)
    ensures AppendPeriodIfNeeded(AppendPeriodIfNeeded(value)) == AppendPeriodIfNeeded(value)
  {
  }

  // ---------------------------------------------------------------------------
  // Escaping

  /** Line 232: `&`, then `<`, then `>` replaced by their XML entities, one
      `Replace` after the other. */
  function EscapeMarkup(s: string): (r: string)
    ensures r == EscapeEach(s)
  {
    EscapeMarkupIsEach(s);
    ReplaceChar(ReplaceChar(ReplaceChar(s, '&', "&amp;"), '<', "&lt;"), '>', "&gt;")
  }

  /** The entity a single character is written as. */
  function EscapeChar(c: char): string {
    if c == '&' then "&amp;"
    else if c == '<' then "&lt;"
    else if c == '>' then "&gt;"
    else [c]
  }

  /** Reference: every character escaped on its own. */
  function EscapeEach(s: string): (r: string)
    ensures '<' !in r && '>' !in r
    decreases |s|
  {
    if |s| == 0 then "" else EscapeChar(s[0]) + EscapeEach(s[1..])
  }

  /** The three passes in sequence escape each character once: the `&` the
      later passes introduce is never seen by the first. */
  lemma {:induction false} EscapeMarkupIsEach(s: string)
    ensures ReplaceChar(ReplaceChar(ReplaceChar(s, '&', "&amp;"), '<', "&lt;"), '>', "&gt;")
            == EscapeEach(s)
    decreases |s|
  {
    if |s| > 0 {
      var head, rest := [s[0]], s[1..];
      assert s == head + rest;
      ReplaceCharAppend(head, rest, '&', "&amp;");
      var a1, a2 := ReplaceChar(head, '&', "&amp;"), ReplaceChar(rest, '&', "&amp;");
      ReplaceCharAppend(a1, a2, '<', "&lt;");
      var b1, b2 := ReplaceChar(a1, '<', "&lt;"), ReplaceChar(a2, '<', "&lt;");
      ReplaceCharAppend(b1, b2, '>', "&gt;");
      EscapeOne(s[0]);
      EscapeMarkupIsEach(rest);
    }
  }

  lemma EscapeOne(c: char)
    ensures ReplaceChar(ReplaceChar(ReplaceChar([c], '&', "&amp;"), '<', "&lt;"), '>', "&gt;")
            == EscapeChar(c)
  {
    if c == '&' {
      EscapeOneAmp("&amp;", "&lt;", "&gt;");
    } else if c == '<' {
      EscapeOneLt("&amp;", "&lt;", "&gt;");
    } else if c == '>' {
      EscapeOneGt("&amp;", "&lt;", "&gt;");
    } else {
      EscapeOnePlain(c, "&amp;", "&lt;", "&gt;");
    }
  }

  lemma EscapeOneAmp(amp: string, lt: string, gt: string)
    requires '<' !in amp && '>' !in amp
    ensures ReplaceChar(ReplaceChar(ReplaceChar(['&'], '&', amp), '<', lt), '>', gt) == amp
  {
    ReplaceCharSingle('&', '&', amp);
    ReplaceCharAbsent(amp, '<', lt);
    ReplaceCharAbsent(amp, '>', gt);
  }

  lemma EscapeOneLt(amp: string, lt: string, gt: string)
    requires '>' !in lt
    ensures ReplaceChar(ReplaceChar(ReplaceChar(['<'], '&', amp), '<', lt), '>', gt) == lt
  {
    ReplaceCharSingle('<', '&', amp);
    ReplaceCharSingle('<', '<', lt);
    ReplaceCharAbsent(lt, '>', gt);
  }

  lemma EscapeOneGt(amp: string, lt: string, gt: string)
    ensures ReplaceChar(ReplaceChar(ReplaceChar(['>'], '&', amp), '<', lt), '>', gt) == gt
  {
    ReplaceCharSingle('>', '&', amp);
    ReplaceCharSingle('>', '<', lt);
    ReplaceCharSingle('>', '>', gt);
  }

  lemma EscapeOnePlain(c: char, amp: string, lt: string, gt: string)
    requires c != '&' && c != '<' && c != '>'
    ensures ReplaceChar(ReplaceChar(ReplaceChar([c], '&', amp), '<', lt), '>', gt) == [c]
  {
    ReplaceCharSingle(c, '&', amp);
    ReplaceCharSingle(c, '<', lt);
    ReplaceCharSingle(c, '>', gt);
  }

  /** The inverse of escaping: each entity read back as its character. */
  function UnescapeMarkup(s: string): string
    decreases |s|
  {
    if |s| == 0 then ""
    else if StartsWith(s, "&amp;") then "&" + UnescapeMarkup(s[5..])
    else if StartsWith(s, "&lt;") then "<" + UnescapeMarkup(s[4..])
    else if StartsWith(s, "&gt;") then ">" + UnescapeMarkup(s[4..])
    else [s[0]] + UnescapeMarkup(s[1..])
  }

  /** Escaped text reads back as the original, whatever follows it. */
  lemma {:induction false} UnescapeEscape(a: string, b: string)
    ensures UnescapeMarkup(EscapeEach(a) + b) == a + UnescapeMarkup(b)
    decreases |a|
  {
    if |a| == 0 {
      assert EscapeEach(a) + b == b;
    } else {
      UnescapeEscape(a[1..], b);
      UnescapeEscapeStep(a, b);
    }
  }

  lemma UnescapeEscapeStep(a: string, b: string)
    requires |a| > 0
    requires UnescapeMarkup(EscapeEach(a[1..]) + b) == a[1..] + UnescapeMarkup(b)
    ensures UnescapeMarkup(EscapeEach(a) + b) == a + UnescapeMarkup(b)
  {
    EscapeCons(a, b);
    UnescapeOne(a[0], EscapeEach(a[1..]) + b);
    HeadTail(a, UnescapeMarkup(b));
  }

  lemma EscapeCons(a: string, b: string)
    requires |a| > 0
    ensures EscapeEach(a) + b == EscapeChar(a[0]) + (EscapeEach(a[1..]) + b)
  {
  }

  /** One escaped character reads back as itself. */
  lemma UnescapeOne(c: char, t: string)
    ensures UnescapeMarkup(EscapeChar(c) + t) == [c] + UnescapeMarkup(t)
  {
    var e := EscapeChar(c);
    assert (e + t)[..|e|] == e;
    assert (e + t)[|e|..] == t;
    if c != '&' && c != '<' && c != '>' {
      assert (e + t)[0] == c;
      assert (e + t)[1..] == t;
      NotStartsWithHead(e + t, "&amp;");
      NotStartsWithHead(e + t, "&lt;");
      NotStartsWithHead(e + t, "&gt;");
    } else if c == '&' {
      assert StartsWith(e + t, "&amp;");
    } else if c == '<' {
      assert (e + t)[0] == '&';
      assert !StartsWith(e + t, "&amp;") by {
        assert (e + t)[1] == 'l';
      }
      assert StartsWith(e + t, "&lt;");
    } else {
      assert !StartsWith(e + t, "&amp;") by {
        assert (e + t)[1] == 'g';
      }
      assert !StartsWith(e + t, "&lt;") by {
        assert (e + t)[..4][1] == 'g';
      }
      assert StartsWith(e + t, "&gt;");
    }
  }

  // ---------------------------------------------------------------------------
  // Code spans

  /** The first backtick at or after `j` on the same line. */
  function CloseTick(s: string, j: nat): (r: Option<nat>)
    ensures r.Some? ==> j <= r.value < |s| && s[r.value] == '`'
    decreases |s| - j
  {
    if j >= |s| || s[j] == '\n' then None
    else if s[j] == '`' then Some(j)
    else CloseTick(s, j + 1)
  }

  /** Where the lazy match of `` `(.+?)` `` that starts at the backtick `s[0]`
      ends: the group takes at least one character, none of them a line
      feed, and stops at the first backtick after that. */
  function CodeEnd(s: string): (r: Option<nat>)
    ensures r.Some? ==> 1 < r.value < |s| && s[r.value] == '`'
  {
    if 1 < |s| && s[1] != '\n' then CloseTick(s, 2) else None
  }

  /** `Regex.Replace(s, "`(.+?)`", "<c>$1</c>")`: matches are tried left to
      right and do not overlap. A match only looks ahead, so what follows a
      match or a copied character is processed as a text of its own. */
  function WrapCode(s: string): string
    decreases |s|
  {
    if |s| == 0 then ""
    else if s[0] == '`' && CodeEnd(s).Some? then
      var q := CodeEnd(s).value;
      CodeElement(s[1..q]) + WrapCode(s[q + 1..])
    else [s[0]] + WrapCode(s[1..])
  }

  /** The replacement `<c>$1</c>` for a matched span. */
  function CodeElement(body: string): string {
    "<c>" + body + "</c>"
  }

  /** The inverse of wrapping, for text that held no `<`: each tag read back
      as the backtick it replaced. */
  function UnwrapCode(s: string): string
    decreases |s|
  {
    if |s| == 0 then ""
    else if StartsWith(s, "<c>") then "`" + UnwrapCode(s[3..])
    else if StartsWith(s, "</c>") then "`" + UnwrapCode(s[4..])
    else [s[0]] + UnwrapCode(s[1..])
  }

  /** Text with no `<` is copied by the inverse. */
  lemma {:induction false} UnwrapPlain(u: string, rest: string)
    requires '<' !in u
    ensures UnwrapCode(u + rest) == u + UnwrapCode(rest)
    decreases |u|
  {
    if |u| == 0 {
      assert u + rest == rest;
    } else {
      assert (u + rest)[1..] == u[1..] + rest;
      assert (u + rest)[0] == u[0];
      NotStartsWithHead(u + rest, "<c>");
      NotStartsWithHead(u + rest, "</c>");
      UnwrapPlain(u[1..], rest);
      assert [u[0]] + (u[1..] + UnwrapCode(rest)) == u + UnwrapCode(rest);
    }
  }

  /** A `<c>` element around text without `<` reads back as a backtick span. */
  lemma UnwrapSpan(body: string, tail: string)
    requires '<' !in body
    ensures UnwrapCode(CodeElement(body) + tail) == "`" + body + "`" + UnwrapCode(tail)
  {
    var close := "</c>" + tail;
    assert CodeElement(body) + tail == "<c>" + (body + close);
    UnwrapOpen(body + close);
    UnwrapPlain(body, close);
    UnwrapClose(tail);
    assert "`" + (body + ("`" + UnwrapCode(tail))) == "`" + body + "`" + UnwrapCode(tail);
  }

  lemma UnwrapOpen(x: string)
    ensures UnwrapCode("<c>" + x) == "`" + UnwrapCode(x)
  {
    assert StartsWith("<c>" + x, "<c>");
    assert ("<c>" + x)[3..] == x;
  }

  lemma UnwrapClose(x: string)
    ensures UnwrapCode("</c>" + x) == "`" + UnwrapCode(x)
  {
    var w := "</c>" + x;
    assert !StartsWith(w, "<c>") by {
      assert w[1] == '/';
    }
    assert StartsWith(w, "</c>");
    assert w[4..] == x;
  }

  /** Wrapping loses nothing on text without `<`: the inverse gives the
      text back. */
  lemma {:induction false} UnwrapWrap(s: string)
    requires '<' !in s
    ensures UnwrapCode(WrapCode(s)) == s
    decreases |s|
  {
    if |s| > 0 {
      if s[0] == '`' && CodeEnd(s).Some? {
        var q := CodeEnd(s).value;
        SliceWithout(s, q + 1, |s|, '<');
        UnwrapWrap(s[q + 1..]);
        UnwrapWrapSpan(s, q);
      } else {
        SliceWithout(s, 1, |s|, '<');
        UnwrapWrap(s[1..]);
        UnwrapWrapChar(s);
      }
    }
  }

  /** A matched span: the element reads back as the backticked text. */
  lemma UnwrapWrapSpan(s: string, q: nat)
    requires '<' !in s && |s| > 0 && s[0] == '`' && CodeEnd(s) == Some(q)
    requires UnwrapCode(WrapCode(s[q + 1..])) == s[q + 1..]
    ensures UnwrapCode(WrapCode(s)) == s
  {
    var body := s[1..q];
    var tail := WrapCode(s[q + 1..]);
    WrapSpanStep(s, q);
    assert '<' !in body by {
      SliceWithout(s, 1, q, '<');
    }
    UnwrapSpan(body, tail);
    SliceAround(s, q);
  }

  lemma WrapSpanStep(s: string, q: nat)
    requires |s| > 0 && s[0] == '`' && CodeEnd(s) == Some(q)
    ensures WrapCode(s) == CodeElement(s[1..q]) + WrapCode(s[q + 1..])
  {
  }

  /** A character outside any span is copied. */
  lemma UnwrapWrapChar(s: string)
    requires '<' !in s && |s| > 0 && !(s[0] == '`' && CodeEnd(s).Some?)
    requires UnwrapCode(WrapCode(s[1..])) == s[1..]
    ensures UnwrapCode(WrapCode(s)) == s
  {
    var tail := WrapCode(s[1..]);
    assert WrapCode(s) == [s[0]] + tail;
    UnwrapPlain([s[0]], tail);
    assert s == [s[0]] + s[1..];
  }

  lemma SliceWithout(s: string, i: nat, j: nat, c: char)
    requires i <= j <= |s| && c !in s
    ensures c !in s[i..j]
  {
  }

  /** A text from a backtick to a later one, cut at both. */
  lemma SliceAround(s: string, q: nat)
    requires 0 < q < |s|
    ensures s == [s[0]] + s[1..q] + [s[q]] + s[q + 1..]
  {
    assert s == [s[0]] + s[1..];
    assert s[1..] == s[1..q] + s[q..];
    assert s[q..] == [s[q]] + s[q + 1..];
  }

  // What wrapping does, span by span

  /** Text without backticks is left as it is. */
  lemma {:induction false} WrapCodePlain(s: string)
    requires '`' !in s
    ensures WrapCode(s) == s
  {
    WrapPlainPrefix(s, "");
    assert s + "" == s;
  }

  /** A backticked span of one or more characters on one line becomes a
      `<c>` element; the text before it is kept and the text after it is
      wrapped on its own. */
  lemma WrapCodeSpan(a: string, b: string, c: string)
    requires '`' !in a
    requires |b| > 0 && '`' !in b && '\n' !in b
    ensures WrapCode(a + "`" + b + "`" + c) == a + CodeElement(b) + WrapCode(c)
  {
    var x := "`" + b + "`" + c;
    assert a + "`" + b + "`" + c == a + x;
    WrapPlainPrefix(a, x);
    WrapLeadingSpan(b, c);
  }

  /** A backtick with no closing backtick after it is kept as it is. */
  lemma WrapCodeLoneTick(a: string, c: string)
    requires '`' !in a && '`' !in c
    ensures WrapCode(a + "`" + c) == a + "`" + c
  {
    var x := "`" + c;
    assert a + "`" + c == a + x;
    WrapPlainPrefix(a, x);
    if |c| > 0 && c[0] != '\n' {
      CloseTickNone(x, 2);
    }
    assert CodeEnd(x).None?;
    assert x[1..] == c;
    assert WrapCode(x) == [x[0]] + WrapCode(c);
    WrapCodePlain(c);
  }

  /** A prefix without backticks is copied, and what follows it is wrapped
      as if it stood alone. */
  lemma {:induction false} WrapPlainPrefix(a: string, x: string)
    requires '`' !in a
    ensures WrapCode(a + x) == a + WrapCode(x)
    decreases |a|
  {
    if |a| == 0 {
      assert a + x == x;
    } else {
      WrapPlainPrefix(a[1..], x);
      WrapPlainStep(a, x);
    }
  }

  lemma WrapPlainStep(a: string, x: string)
    requires |a| > 0 && a[0] != '`'
    requires WrapCode(a[1..] + x) == a[1..] + WrapCode(x)
    ensures WrapCode(a + x) == a + WrapCode(x)
  {
    var s := a + x;
    assert s[0] == a[0];
    assert s[1..] == a[1..] + x;
    WrapCharStep(s);
    HeadTail(a, WrapCode(x));
  }

  lemma WrapCharStep(s: string)
    requires |s| > 0 && s[0] != '`'
    ensures WrapCode(s) == [s[0]] + WrapCode(s[1..])
  {
  }

  /** The span at the very start. */
  lemma WrapLeadingSpan(b: string, c: string)
    requires |b| > 0 && '`' !in b && '\n' !in b
    ensures WrapCode("`" + b + "`" + c) == CodeElement(b) + WrapCode(c)
  {
    var s := "`" + b + "`" + c;
    assert s[0] == '`' && s[1] == b[0];
    assert s[|b| + 1] == '`';
    CloseTickScan(s, 2, |b| + 1);
    assert CodeEnd(s) == Some(|b| + 1);
    WrapSpanStep(s, |b| + 1);
    assert s[1..|b| + 1] == b;
    assert s[|b| + 2..] == c;
  }

  /** The scan stops at the first backtick, passing over plain characters. */
  lemma {:induction false} CloseTickScan(s: string, j: nat, q: nat)
    requires j <= q < |s| && s[q] == '`'
    requires forall k | j <= k < q :: s[k] != '`' && s[k] != '\n'
    ensures CloseTick(s, j) == Some(q)
    decreases q - j
  {
    if j < q {
      CloseTickScan(s, j + 1, q);
    }
  }

  /** With no backtick left, the scan finds nothing. */
  lemma {:induction false} CloseTickNone(s: string, j: nat)
    requires forall k | j <= k < |s| :: s[k] != '`'
    ensures CloseTick(s, j).None?
    decreases |s| - j
  {
    if j < |s| {
      CloseTickNone(s, j + 1);
    }
  }

  // ---------------------------------------------------------------------------
  // FormatHelp

  /** `FormatHelp`: no description gives the empty help text; otherwise the
      description escaped, ended with a period, with its code spans marked. */
  function FormatHelp(helpText: Option<string>): (r: string)
    ensures helpText.None? ==> r == ""
    ensures helpText.Some? ==>
              UnescapeMarkup(UnwrapCode(r)) == AppendPeriodIfNeeded(helpText.value)
  {
    match helpText
    case None => ""
    case Some(t) =>
      FormatHelpRecovers(t);
      WrapCode(AppendPeriodIfNeeded(EscapeMarkup(t)))
  }

  /** Undoing the code spans and the entities gives back the description with
      its period: the help text carries exactly the description's content. */
  lemma FormatHelpRecovers(t: string)
    ensures UnescapeMarkup(UnwrapCode(WrapCode(AppendPeriodIfNeeded(EscapeMarkup(t)))))
            == AppendPeriodIfNeeded(t)
  {
    var e := EscapeEach(t);
    var p := AppendPeriodIfNeeded(e);
    assert '<' !in p;
    UnwrapWrap(p);
    EscapedPeriod(t);
    if EndsWith(t, ".") {
      UnescapeEscape(t, "");
      assert e + "" == e;
      assert t + "" == t;
    } else {
      UnescapeEscape(t, ".");
      assert UnescapeMarkup(".") == "." + UnescapeMarkup("") by {
        assert !StartsWith(".", "&amp;") && !StartsWith(".", "&lt;") && !StartsWith(".", "&gt;");
        assert "."[1..] == "";
      }
    }
  }

  /** A description that opens with a backtick span: the text before it is
      escaped, the span becomes a `<c>` element around its escaped text, and
      the rest is formatted as a description of its own. */
  lemma FormatHelpSpan(a: string, b: string, c: string)
    requires '`' !in a
    requires |b| > 0 && '`' !in b && '\n' !in b
    ensures FormatHelp(Some(a + "`" + b + "`" + c))
            == EscapeMarkup(a) + CodeElement(EscapeMarkup(b)) + FormatHelp(Some(c))
  {
    var ea, eb, ec := EscapeEach(a), EscapeEach(b), EscapeEach(c);
    var p := ea + "`" + eb + "`";
    var rest := AppendPeriodIfNeeded(ec);
    FormatHelpEach(a + "`" + b + "`" + c);
    EscapeSpanParts(a, b, c);
    assert AppendPeriodIfNeeded(p + ec) == p + rest by {
      AppendPeriodAfter(p, ec);
    }
    assert WrapCode(p + rest) == ea + CodeElement(eb) + WrapCode(rest) by {
      EscapedSpanPlain(a, b);
      WrapEscapedSpan(ea, eb, rest);
    }
    FormatHelpEach(c);
  }

  lemma FormatHelpEach(t: string)
    ensures FormatHelp(Some(t)) == WrapCode(AppendPeriodIfNeeded(EscapeEach(t)))
  {
  }

  lemma EscapedSpanPlain(a: string, b: string)
    requires '`' !in a
    requires |b| > 0 && '`' !in b && '\n' !in b
    ensures '`' !in EscapeEach(a)
    ensures |EscapeEach(b)| > 0 && '`' !in EscapeEach(b) && '\n' !in EscapeEach(b)
  {
    EscapeWithout(a, '`');
    EscapeWithout(b, '`');
    EscapeWithout(b, '\n');
    EscapeNonEmpty(b);
  }

  lemma EscapeSpanParts(a: string, b: string, c: string)
    ensures EscapeEach(a + "`" + b + "`" + c)
            == EscapeEach(a) + "`" + EscapeEach(b) + "`" + EscapeEach(c)
  {
    var tick := "`";
    EscapeAppend(a + tick + b + tick, c);
    EscapeAppend(a + tick + b, tick);
    EscapeAppend(a + tick, b);
    EscapeAppend(a, tick);
    assert EscapeEach(tick) == tick;
  }

  lemma WrapEscapedSpan(ea: string, eb: string, rest: string)
    requires '`' !in ea
    requires |eb| > 0 && '`' !in eb && '\n' !in eb
    ensures WrapCode((ea + "`" + eb + "`") + rest) == ea + CodeElement(eb) + WrapCode(rest)
  {
    assert (ea + "`" + eb + "`") + rest == ea + "`" + eb + "`" + rest;
    WrapCodeSpan(ea, eb, rest);
  }

  /** A description without backticks gets no `<c>` element: it is only
      escaped and ended with a period. */
  lemma FormatHelpPlain(t: string)
    requires '`' !in t
    ensures FormatHelp(Some(t)) == AppendPeriodIfNeeded(EscapeMarkup(t))
  {
    EscapeWithout(t, '`');
    var e := EscapeEach(t);
    assert '`' !in AppendPeriodIfNeeded(e) by {
      assert '`' !in e + ".";
    }
    WrapCodePlain(AppendPeriodIfNeeded(e));
  }

  lemma {:induction false} EscapeAppend(x: string, y: string)
    ensures EscapeEach(x + y) == EscapeEach(x) + EscapeEach(y)
    decreases |x|
  {
    if |x| == 0 {
      assert x + y == y;
    } else {
      assert (x + y)[0] == x[0];
      assert (x + y)[1..] == x[1..] + y;
      EscapeAppend(x[1..], y);
    }
  }

  /** A character that no entity spells is neither added nor removed. */
  lemma {:induction false} EscapeWithout(t: string, c: char)
    requires c !in t && c !in "&amp;&lt;&gt;"
    ensures c !in EscapeEach(t)
    decreases |t|
  {
    if |t| > 0 {
      EscapeWithout(t[1..], c);
      assert c !in EscapeChar(t[0]);
    }
  }

  /** The period is decided by the last character, so text in front that
      does not end with one is kept as it is. */
  lemma AppendPeriodAfter(p: string, e: string)
    requires |p| > 0 && p[|p| - 1] != '.'
    ensures AppendPeriodIfNeeded(p + e) == p + AppendPeriodIfNeeded(e)
  {
    PeriodLast(p + e);
    PeriodLast(p);
    PeriodLast(e);
    if |e| > 0 {
      LastOfConcat(p, e);
    } else {
      assert p + e == p;
    }
  }

  /** Escaping neither creates nor removes a final period. */
  lemma {:induction false} EscapedPeriod(t: string)
    ensures EndsWith(EscapeEach(t), ".") <==> EndsWith(t, ".")
    decreases |t|
  {
    if |t| > 0 {
      var e := EscapeChar(t[0]);
      var rest := EscapeEach(t[1..]);
      EscapeCons(t, "");
      assert EscapeEach(t) == e + rest by {
        assert EscapeEach(t) + "" == EscapeEach(t);
        assert rest + "" == rest;
      }
      PeriodLast(EscapeEach(t));
      PeriodLast(t);
      if |t| == 1 {
        assert rest == "";
        assert e + rest == e;
        EscapeCharPeriod(t[0]);
        PeriodLast(e);
      } else {
        EscapedPeriod(t[1..]);
        EscapeNonEmpty(t[1..]);
        PeriodLast(rest);
        PeriodLast(t[1..]);
        LastOfConcat(e, rest);
        LastOfConcat([t[0]], t[1..]);
        HeadTail(t, "");
      }
    }
  }

  lemma PeriodLast(s: string)
    ensures EndsWith(s, ".") <==> |s| > 0 && s[|s| - 1] == '.'
  {
    if |s| > 0 {
      assert s[|s| - 1..] == [s[|s| - 1]];
    }
  }

  lemma LastOfConcat(a: string, b: string)
    requires |b| > 0
    ensures (a + b)[|a + b| - 1] == b[|b| - 1]
  {
  }

  lemma EscapeCharPeriod(c: char)
    ensures EndsWith(EscapeChar(c), ".") <==> c == '.'
  {
    var e := EscapeChar(c);
    PeriodLast(e);
    if c == '&' || c == '<' || c == '>' {
      assert |e| > 0 && e[|e| - 1] == ';';
    } else {
      assert e == [c];
    }
  }

  lemma EscapeNonEmpty(t: string)
    requires |t| > 0
    ensures |EscapeEach(t)| >= |t|
    decreases |t|
  {
  }
}
