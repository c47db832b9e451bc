/** The region extractor: isolates the lines of a fastlane `options.rb` that
    lie inside the array literal returned by `def self.available_options`. */
module Region {
  import opened Wrappers
  import opened Text

  /** The method signature that announces the option declarations. */
  const Marker: string := "def self.available_options"

  predicate HasMarker(line: string) {
    Contains(line, Marker)
  }

  /** A line that opens the option array: trimmed, it starts or ends with `[`. */
  predicate OpensArray(line: string) {
    var t := Trim(line);
    StartsWith(t, "[") || EndsWith(t, "[")
  }

  /** A line that closes the option array: trimmed, it starts with `]`. */
  predicate ClosesArray(line: string) {
    StartsWith(Trim(line), "]")
  }

  /** The three line tests the scanner is driven by. */
  datatype LineTests = LineTests(start: string -> bool, open: string -> bool, close: string -> bool)

  /** The tests for a fastlane `options.rb`. */
  const OptionsFile: LineTests := LineTests(HasMarker, OpensArray, ClosesArray)

  /** The two flags of the scanner: `start` unset, `start` set but not
      `optionsStart`, and both set. */
  datatype ScanState = AwaitingMarker | AwaitingBracket | InArray

  /** The scanner run over `lines[i..]` in state `st`, yielding region lines. */
  function Scan(lines: seq<string>, i: nat, st: ScanState, t: LineTests): seq<string>
    decreases |lines| - i
  {
    if i >= |lines| then []
    else match st
      case AwaitingMarker =>
        Scan(lines, i + 1, if t.start(lines[i]) then AwaitingBracket else AwaitingMarker, t)
      case AwaitingBracket =>
        Scan(lines, i + 1, if t.open(lines[i]) then InArray else AwaitingBracket, t)
      case InArray =>
        if t.close(lines[i]) then [] else [lines[i]] + Scan(lines, i + 1, InArray, t)
  }

  /** The first index at or after `from` whose line satisfies `p`. */
  function FirstFrom(lines: seq<string>, p: string -> bool, from: nat): (r: Option<nat>)
    ensures r.Some? ==> from <= r.value < |lines|
    decreases |lines| - from
  {
    if from >= |lines| then None
    else if p(lines[from]) then Some(from)
    else FirstFrom(lines, p, from + 1)
  }

  /** `FirstFrom` finds the first line satisfying `p`, and only it. */
  lemma {:induction false} FirstFromIsFirst(lines: seq<string>, p: string -> bool, from: nat)
    ensures var r := FirstFrom(lines, p, from);
      && (r.Some? ==> p(lines[r.value]) && forall k | from <= k < r.value :: !p(lines[k]))
      && (r.None? ==> forall k | from <= k < |lines| :: !p(lines[k]))
    decreases |lines| - from
  {
    if from < |lines| && !p(lines[from]) {
      FirstFromIsFirst(lines, p, from + 1);
    }
  }

  /** Where the region sits: the first marker line, the first opening line
      after it, and the first closing line after that (`close == |lines|` when
      the array is never closed). */
  datatype Bounds = Bounds(marker: nat, open: nat, close: nat)

  /** The boundaries found by searching for the marker from line `from` on. */
  function BoundsFrom(lines: seq<string>, from: nat, t: LineTests): (r: Option<Bounds>)
    ensures r.Some? ==> r.value.marker < r.value.open < r.value.close <= |lines|
  {
    match FirstFrom(lines, t.start, from)
    case None => None
    case Some(m) =>
      match FirstFrom(lines, t.open, m + 1)
      case None => None
      case Some(b) => Some(Bounds(m, b, CloseAfter(lines, b, t)))
  }

  /** The first closing line after the opening line `b`, or `|lines|`. */
  function CloseAfter(lines: seq<string>, b: nat, t: LineTests): (e: nat)
    requires b < |lines|
    ensures b < e <= |lines|
  {
    match FirstFrom(lines, t.close, b + 1)
    case None => |lines|
    case Some(e) => e
  }

  /** The lines strictly between the opening and the closing line. */
  function Between(lines: seq<string>, bounds: Option<Bounds>): seq<string>
    requires bounds.Some? ==> bounds.value.open < bounds.value.close <= |lines|
  {
    match bounds
    case None => []
    case Some(b) => lines[b.open + 1..b.close]
  }

  /** The boundaries of the option array in a fastlane `options.rb`. */
  function FindBounds(lines: seq<string>): (r: Option<Bounds>)
    ensures r.Some? ==> r.value.marker < r.value.open < r.value.close <= |lines|
  {
    BoundsFrom(lines, 0, OptionsFile)
  }

  /** The region starts after the first opening line that follows the first
      marker line, and ends before the first closing line after it (or at the
      end of the text); there is no region exactly when there is no marker,
      or no opening line after the first one. */
  lemma FindBoundsIsFirst(lines: seq<string>)
    ensures var r := FindBounds(lines);
      && (r.Some? ==>
        var b := r.value;
        && HasMarker(lines[b.marker])
        && (forall k | 0 <= k < b.marker :: !HasMarker(lines[k]))
        && OpensArray(lines[b.open])
        && (forall k | b.marker < k < b.open :: !OpensArray(lines[k]))
        && (b.close < |lines| ==> ClosesArray(lines[b.close]))
        && (forall k | b.open < k < b.close :: !ClosesArray(lines[k])))
      && (r.None? <==>
        || (forall k | 0 <= k < |lines| :: !HasMarker(lines[k]))
        || (exists m | 0 <= m < |lines| :: && HasMarker(lines[m])
                                            && (forall k | 0 <= k < m :: !HasMarker(lines[k]))
                                            && (forall k | m < k < |lines| :: !OpensArray(lines[k]))))
  {
    BoundsSpec(lines, OptionsFile);
  }

  /** The boundaries, for any line tests: the first start line, the first
      opening line after it, and the first closing line after that. */
  lemma BoundsSpec(lines: seq<string>, t: LineTests)
    ensures var r := BoundsFrom(lines, 0, t);
      && (r.Some? ==>
        var b := r.value;
        && b.marker < b.open < b.close <= |lines|
        && t.start(lines[b.marker])
        && (forall k | 0 <= k < b.marker :: !t.start(lines[k]))
        && t.open(lines[b.open])
        && (forall k | b.marker < k < b.open :: !t.open(lines[k]))
        && (b.close < |lines| ==> t.close(lines[b.close]))
        && (forall k | b.open < k < b.close :: !t.close(lines[k])))
      && (r.None? <==>
        || (forall k | 0 <= k < |lines| :: !t.start(lines[k]))
        || (exists m | 0 <= m < |lines| :: && t.start(lines[m])
                                            && (forall k | 0 <= k < m :: !t.start(lines[k]))
                                            && (forall k | m < k < |lines| :: !t.open(lines[k]))))
  {
    FirstFromIsFirst(lines, t.start, 0);
    match FirstFrom(lines, t.start, 0)
    case None =>
    case Some(m) =>
      FirstFromIsFirst(lines, t.open, m + 1);
      match FirstFrom(lines, t.open, m + 1)
      case None =>
      case Some(b) =>
        FirstFromIsFirst(lines, t.close, b + 1);
  }

  /** The lines of the option array: empty when there is no marker (or no
      opening line after it); otherwise exactly the lines strictly between the
      opening line and the first closing line, so neither the marker line, the
      `[` line nor the `]` line is ever yielded. */
  function GetOptionRegion(lines: seq<string>): (r: seq<string>)
    ensures r == Between(lines, FindBounds(lines))
  {
    ScanFromMarker(lines, 0, OptionsFile);
    Scan(lines, 0, AwaitingMarker, OptionsFile)
  }

  /** Inside the array the scanner yields every line up to the first closing line. */
  lemma {:induction false} ScanInArray(lines: seq<string>, i: nat, t: LineTests)
    requires i <= |lines|
    ensures Scan(lines, i, InArray, t) ==
      (match FirstFrom(lines, t.close, i)
       case None => lines[i..|lines|]
       case Some(e) => lines[i..e])
    decreases |lines| - i
  {
    if i < |lines| && !t.close(lines[i]) {
      ScanInArray(lines, i + 1, t);
      match FirstFrom(lines, t.close, i + 1)
      case None =>
        assert lines[i..|lines|] == [lines[i]] + lines[i + 1..|lines|];
      case Some(e) =>
        assert lines[i..e] == [lines[i]] + lines[i + 1..e];
    }
  }

  /** Before the opening line the scanner discards lines, then behaves as inside the array. */
  lemma {:induction false} ScanToBracket(lines: seq<string>, i: nat, t: LineTests)
    requires i <= |lines|
    ensures Scan(lines, i, AwaitingBracket, t) ==
      (match FirstFrom(lines, t.open, i)
       case None => []
       case Some(b) => Scan(lines, b + 1, InArray, t))
    decreases |lines| - i
  {
    if i < |lines| && !t.open(lines[i]) {
      ScanToBracket(lines, i + 1, t);
    }
  }

  /** Before the marker the scanner discards lines, then waits for the opening line. */
  lemma {:induction false} ScanFromMarker(lines: seq<string>, i: nat, t: LineTests)
    requires i <= |lines|
    ensures Scan(lines, i, AwaitingMarker, t) == Between(lines, BoundsFrom(lines, i, t))
    decreases |lines| - i
  {
    if i == |lines| {
      assert FirstFrom(lines, t.start, i) == None;
    } else if t.start(lines[i]) {
      assert Scan(lines, i, AwaitingMarker, t) == Scan(lines, i + 1, AwaitingBracket, t);
      ScanAfterMarker(lines, i, t);
    } else {
      assert FirstFrom(lines, t.start, i) == FirstFrom(lines, t.start, i + 1);
      assert BoundsFrom(lines, i, t) == BoundsFrom(lines, i + 1, t);
      ScanFromMarker(lines, i + 1, t);
    }
  }

  /** Once the marker is seen on line `i`, the rest of the scan yields the region. */
  lemma ScanAfterMarker(lines: seq<string>, i: nat, t: LineTests)
    requires i < |lines| && t.start(lines[i])
    ensures Scan(lines, i + 1, AwaitingBracket, t) == Between(lines, BoundsFrom(lines, i, t))
  {
    assert FirstFrom(lines, t.start, i) == Some(i);
    ScanPastMarker(lines, i, t);
  }

  /** After the marker line: nothing until the opening line, then the lines up
      to the closing line. */
  lemma ScanPastMarker(lines: seq<string>, i: nat, t: LineTests)
    requires i < |lines|
    ensures Scan(lines, i + 1, AwaitingBracket, t) ==
      (match FirstFrom(lines, t.open, i + 1)
       case None => []
       case Some(b) => lines[b + 1..CloseAfter(lines, b, t)])
  {
    ScanToBracket(lines, i + 1, t);
    match FirstFrom(lines, t.open, i + 1)
    case None =>
    case Some(b) =>
      ScanInArray(lines, b + 1, t);
  }

  /** Text after the closing line never reaches the region, whatever it holds. */
  lemma RegionIgnoresTrailingText(lines: seq<string>, extra: seq<string>)
    requires FindBounds(lines).Some? && FindBounds(lines).value.close < |lines|
    ensures GetOptionRegion(lines + extra) == GetOptionRegion(lines)
  {
    var b := FindBounds(lines).value;
    BoundsIgnoreTrailing(lines, extra, OptionsFile);
    assert (lines + extra)[b.open + 1..b.close] == lines[b.open + 1..b.close];
  }

  lemma BoundsIgnoreTrailing(lines: seq<string>, extra: seq<string>, t: LineTests)
    requires BoundsFrom(lines, 0, t).Some? && BoundsFrom(lines, 0, t).value.close < |lines|
    ensures BoundsFrom(lines + extra, 0, t) == BoundsFrom(lines, 0, t)
  {
    var b := BoundsFrom(lines, 0, t).value;
    FirstFromPrefix(lines, extra, t.start, 0, b.marker);
    FirstFromPrefix(lines, extra, t.open, b.marker + 1, b.open);
    FirstFromPrefix(lines, extra, t.close, b.open + 1, b.close);
  }

  /** A line found in a prefix is still the first one once more lines are appended. */
  lemma {:induction false} FirstFromPrefix(lines: seq<string>, extra: seq<string>, p: string -> bool,
                                            from: nat, found: nat)
    requires FirstFrom(lines, p, from) == Some(found)
    ensures FirstFrom(lines + extra, p, from) == Some(found)
    decreases |lines| - from
  {
    var all := lines + extra;
    assert all[from] == lines[from];
    if !p(lines[from]) {
      FirstFromPrefix(lines, extra, p, from + 1, found);
    }
  }
}
