/** The block splitter: partitions the region into one raw block of lines per
    `FastlaneCore::ConfigItem.new` option declaration. */
module Blocks {
  import opened Text

  /** The constructor call that opens an option declaration. */
  const CtorMarker: string := "FastlaneCore::ConfigItem.new"

  /** Lines the splitter keeps: not exactly empty, and not starting with `#`
      (untrimmed, so an indented comment is kept). */
  predicate Kept(line: string) {
    line != "" && !StartsWith(line, "#")
  }

  /** A line that opens a new declaration: trimmed, it starts with the constructor. */
  predicate IsCtorLine(line: string) {
    StartsWith(Trim(line), CtorMarker)
  }

  /** The two line tests the splitter is driven by. */
  datatype Splitter = Splitter(kept: string -> bool, isStart: string -> bool)

  const OptionBlocks: Splitter := Splitter(Kept, IsCtorLine)

  /** The splitter's loop over `lines`, with the closed `blocks`, the open
      `current` block and the `inBlock` flag. */
  function SplitFrom(lines: seq<string>, blocks: seq<seq<string>>, current: seq<string>,
                     inBlock: bool, sp: Splitter): seq<seq<string>>
    decreases |lines|
  {
    if |lines| == 0 then blocks + [current]
    else if !sp.kept(lines[0]) then SplitFrom(lines[1..], blocks, current, inBlock, sp)
    else if sp.isStart(lines[0]) && inBlock then
      SplitFrom(lines[1..], blocks + [current], [lines[0]], true, sp)
    else
      SplitFrom(lines[1..], blocks, current + [lines[0]], inBlock || sp.isStart(lines[0]), sp)
  }

  predicate HasStart(block: seq<string>, isStart: string -> bool) {
    exists j | 0 <= j < |block| :: isStart(block[j])
  }

  /** No declaration line among the first `j` lines of `block`. */
  predicate NoStartBefore(block: seq<string>, j: nat, isStart: string -> bool)
    requires j <= |block|
  {
    forall i | 0 <= i < j :: !isStart(block[i])
  }

  /** A declaration line inside block `k`, not at its head, is block 0's first. */
  predicate InnerStartOk(bs: seq<seq<string>>, k: nat, j: nat, isStart: string -> bool)
    requires k < |bs| && j < |bs[k]|
  {
    isStart(bs[k][j]) ==> k == 0 && NoStartBefore(bs[0], j, isStart)
  }

  /** The shape of a partition: every block after the first is non-empty and
      starts with a declaration line; a declaration line anywhere but at the
      head of a block can only be the first declaration line of block 0 (which
      may be preceded by stray lines); and block 0 holds a declaration line
      whenever there is more than one block. */
  predicate WellSplit(bs: seq<seq<string>>, isStart: string -> bool) {
    && |bs| >= 1
    && (forall k | 1 <= k < |bs| :: |bs[k]| > 0 && isStart(bs[k][0]))
    && (forall k, j | 0 <= k < |bs| && 1 <= j < |bs[k]| :: InnerStartOk(bs, k, j, isStart))
    && (|bs| > 1 ==> HasStart(bs[0], isStart))
  }

  /** Splits the region into blocks. There is always at least one block (the
      last one is closed even when empty); the blocks concatenate to the region
      minus its `""` and `#` lines, in order; and every block after the first
      starts with a `FastlaneCore::ConfigItem.new` line, the only declaration
      line it holds. */
  function ParseOptionsFromRegion(region: seq<string>): (r: seq<seq<string>>)
    ensures Flatten(r) == Filter(region, Kept)
    ensures WellSplit(r, IsCtorLine)
  {
    SplitKeepsShape(region, [], [], false, OptionBlocks);
    SplitKeepsLines(region, [], [], false, OptionBlocks);
    assert Flatten<string>([]) == [];
    SplitFrom(region, [], [], false, OptionBlocks)
  }

  /** The loop keeps the shape of the partition built so far. */
  lemma {:induction false} SplitKeepsShape(lines: seq<string>, blocks: seq<seq<string>>,
                                           current: seq<string>, inBlock: bool, sp: Splitter)
    requires WellSplit(blocks + [current], sp.isStart)
    requires inBlock <==> HasStart((blocks + [current])[0], sp.isStart)
    ensures WellSplit(SplitFrom(lines, blocks, current, inBlock, sp), sp.isStart)
    decreases |lines|
  {
    if |lines| > 0 {
      var l := lines[0];
      if !sp.kept(l) {
        SplitKeepsShape(lines[1..], blocks, current, inBlock, sp);
      } else if sp.isStart(l) && inBlock {
        OpenBlockKeepsShape(blocks, current, l, sp.isStart);
        SplitKeepsShape(lines[1..], blocks + [current], [l], true, sp);
      } else {
        ExtendBlockKeepsShape(blocks, current, l, inBlock, sp.isStart);
        SplitKeepsShape(lines[1..], blocks, current + [l], inBlock || sp.isStart(l), sp);
      }
    }
  }

  /** A declaration line, once block 0 holds one, opens a new block. */
  lemma OpenBlockKeepsShape(blocks: seq<seq<string>>, current: seq<string>, l: string,
                            isStart: string -> bool)
    requires WellSplit(blocks + [current], isStart)
    requires HasStart((blocks + [current])[0], isStart) && isStart(l)
    ensures WellSplit((blocks + [current]) + [[l]], isStart)
    ensures HasStart(((blocks + [current]) + [[l]])[0], isStart)
  {
    var s := blocks + [current];
    var s' := s + [[l]];
    assert s'[0] == s[0];
    assert forall k | 0 <= k < |s| :: s'[k] == s[k];
    forall k, j | 0 <= k < |s'| && 1 <= j < |s'[k]|
      ensures InnerStartOk(s', k, j, isStart)
    {
      assert k < |s| && InnerStartOk(s, k, j, isStart);
    }
  }

  /** Any other kept line joins the open block. */
  lemma ExtendBlockKeepsShape(blocks: seq<seq<string>>, current: seq<string>, l: string,
                              inBlock: bool, isStart: string -> bool)
    requires WellSplit(blocks + [current], isStart)
    requires inBlock <==> HasStart((blocks + [current])[0], isStart)
    requires !(isStart(l) && inBlock)
    ensures WellSplit(blocks + [current + [l]], isStart)
    ensures (inBlock || isStart(l)) <==> HasStart((blocks + [current + [l]])[0], isStart)
  {
    if |blocks| > 0 {
      ExtendLaterBlock(blocks, current, l, isStart);
    } else {
      assert blocks + [current] == [current];
      assert blocks + [current + [l]] == [current + [l]];
      ExtendFirstBlock(current, l, inBlock, isStart);
    }
  }

  lemma ExtendLaterBlock(blocks: seq<seq<string>>, current: seq<string>, l: string,
                         isStart: string -> bool)
    requires |blocks| > 0 && WellSplit(blocks + [current], isStart) && !isStart(l)
    ensures WellSplit(blocks + [current + [l]], isStart)
    ensures (blocks + [current + [l]])[0] == (blocks + [current])[0]
  {
    var s := blocks + [current];
    var s' := blocks + [current + [l]];
    var n := |blocks|;
    var c' := current + [l];
    assert s[n] == current && s'[n] == c';
    assert forall k | 0 <= k < n :: s'[k] == s[k] == blocks[k];
    assert |current| > 0 && isStart(current[0]);
    assert c'[0] == current[0];
    forall k, j | 0 <= k < |s'| && 1 <= j < |s'[k]|
      ensures InnerStartOk(s', k, j, isStart)
    {
      if k < n {
        assert InnerStartOk(s, k, j, isStart);
      } else if j < |current| {
        assert c'[j] == current[j];
        assert InnerStartOk(s, k, j, isStart);
      } else {
        assert c'[j] == l;
      }
    }
  }

  lemma ExtendFirstBlock(current: seq<string>, l: string, inBlock: bool, isStart: string -> bool)
    requires WellSplit([current], isStart)
    requires inBlock <==> HasStart(current, isStart)
    requires !(isStart(l) && inBlock)
    ensures WellSplit([current + [l]], isStart)
    ensures (inBlock || isStart(l)) <==> HasStart(current + [l], isStart)
  {
    var c' := current + [l];
    var s := [current];
    var s' := [c'];
    assert forall j | 0 <= j < |current| :: c'[j] == current[j];
    assert c'[|current|] == l;
    forall k, j | 0 <= k < |s'| && 1 <= j < |s'[k]|
      ensures InnerStartOk(s', k, j, isStart)
    {
      if j < |current| {
        assert InnerStartOk(s, k, j, isStart);
        if isStart(c'[j]) {
          assert forall i | 0 <= i < j :: c'[i] == current[i];
        }
      } else if isStart(l) {
        assert !HasStart(current, isStart);
        assert forall i | 0 <= i < j :: c'[i] == current[i];
      }
    }
    if inBlock {
      var j :| 0 <= j < |current| && isStart(current[j]);
      assert c'[j] == current[j];
    }
    if HasStart(c', isStart) && !isStart(l) {
      var j :| 0 <= j < |c'| && isStart(c'[j]);
      assert j < |current| && current[j] == c'[j];
    }
  }

  /** The loop loses no kept line and adds none. */
  lemma {:induction false} SplitKeepsLines(lines: seq<string>, blocks: seq<seq<string>>,
                                           current: seq<string>, inBlock: bool, sp: Splitter)
    ensures Flatten(SplitFrom(lines, blocks, current, inBlock, sp))
            == Flatten(blocks) + current + Filter(lines, sp.kept)
    decreases |lines|
  {
    if |lines| == 0 {
      FlattenAppend(blocks, [current]);
      assert Flatten([current]) == current + Flatten<string>([]);
    } else {
      var l := lines[0];
      assert Filter(lines, sp.kept) ==
        (if sp.kept(l) then [l] else []) + Filter(lines[1..], sp.kept);
      if !sp.kept(l) {
        SplitKeepsLines(lines[1..], blocks, current, inBlock, sp);
      } else if sp.isStart(l) && inBlock {
        SplitKeepsLines(lines[1..], blocks + [current], [l], true, sp);
        FlattenAppend(blocks, [current]);
        assert Flatten([current]) == current + Flatten<string>([]);
      } else {
        SplitKeepsLines(lines[1..], blocks, current + [l], inBlock || sp.isStart(l), sp);
      }
    }
  }
}
