/** The per-tool pipeline (options file → options → task) and the assembly of
    the metadata document from all tools, plus the decision of where the
    serialized document is written. */
module Metadata {
  import opened Wrappers
  import opened Text
  import opened Faults
  import Region
  import Blocks
  import Fields
  import opened Options
  import opened Arguments
  import Naming

  // ---------------------------------------------------------------------------
  // ParseOptions

  /** Every line of the option blocks of a text is free of line feeds, since
      the text was split on them. */
  lemma BlocksHaveNoLineFeed(text: string, region: seq<string>, blocks: seq<seq<string>>)
    requires region == Region.GetOptionRegion(Split(text, '\n'))
    requires blocks == Blocks.ParseOptionsFromRegion(region)
    ensures forall k | 0 <= k < |blocks| :: Fields.NoLineFeed(blocks[k])
  {
    var lines := Split(text, '\n');
    assert forall x | x in region :: x in lines;
    forall k, j | 0 <= k < |blocks| && 0 <= j < |blocks[k]|
      ensures '\n' !in blocks[k][j]
    {
      InFlatten(blocks, k, j);
    }
  }

  /** Lines 202-223 after the split: each block read into entries (a fault
      aborts), empty blocks dropped, and each entry list decoded into an
      option, a rejected one dropped. */
  function DecodeBlocks(blocks: seq<seq<string>>, isAction: bool): (r: Result<seq<FastlaneOption>, Fault>)
    requires forall k | 0 <= k < |blocks| :: Fields.NoLineFeed(blocks[k])
    ensures r.Success? ==> |r.value| <= |blocks|
    ensures r.Success? ==> forall k | 0 <= k < |r.value| :: r.value[k].isAction == isAction
    decreases |blocks|
  {
    if |blocks| == 0 then Success([])
    else
      var entries :- Fields.ParseOptionToEntries(blocks[0]);
      var rest :- DecodeBlocks(blocks[1..], isAction);
      match entries
      case None => Success(rest)
      case Some(es) =>
        match Decode(es, isAction)
        case None => Success(rest)
        case Some(o) => Success([o] + rest)
  }

  /** A fault in any block aborts the whole parse: the source catches only
      the reader's errors. */
  lemma {:induction false} DecodeBlocksFaults(blocks: seq<seq<string>>, isAction: bool)
    requires forall k | 0 <= k < |blocks| :: Fields.NoLineFeed(blocks[k])
    ensures DecodeBlocks(blocks, isAction).Success? <==>
              forall k | 0 <= k < |blocks| :: Fields.ParseOptionToEntries(blocks[k]).Success?
    decreases |blocks|
  {
    if |blocks| > 0 {
      var rest := blocks[1..];
      assert forall k | 0 <= k < |rest| :: rest[k] == blocks[k + 1];
      DecodeBlocksFaults(rest, isAction);
    }
  }

  /** Option `o` is what the reader makes of `block`'s entries. */
  predicate DecodedFrom(o: FastlaneOption, block: seq<string>, isAction: bool) {
    && Fields.NoLineFeed(block)
    && match Fields.ParseOptionToEntries(block)
       case Success(Some(es)) => Decode(es, isAction) == Some(o)
       case _ => false
  }

  function DecodedBy(isAction: bool): (FastlaneOption, seq<string>) -> bool {
    (o, block) => DecodedFrom(o, block, isAction)
  }

  /** What one block contributes to the options: the option its entries
      decode to, or nothing when it has no entries or they are rejected. */
  function OptionOfBlock(block: seq<string>, isAction: bool): (r: seq<FastlaneOption>)
    ensures forall k | 0 <= k < |r| :: DecodedBy(isAction)(r[k], block)
  {
    if !Fields.NoLineFeed(block) then []
    else
      match Fields.ParseOptionToEntries(block)
      case Success(Some(es)) =>
        (match Decode(es, isAction)
         case Some(o) => [o]
         case None => [])
      case _ => []
  }

  /** Reference for the parse: the contributions of the blocks, each block
      on its own, concatenated in block order. */
  function KeptOptions(blocks: seq<seq<string>>, isAction: bool): seq<FastlaneOption> {
    Flatten(PerBlock(blocks, isAction))
  }

  function PerBlock(blocks: seq<seq<string>>, isAction: bool): (r: seq<seq<FastlaneOption>>)
    ensures |r| == |blocks|
    ensures forall k | 0 <= k < |blocks| :: r[k] == OptionOfBlock(blocks[k], isAction)
  {
    seq(|blocks|, k requires 0 <= k < |blocks| => OptionOfBlock(blocks[k], isAction))
  }

  /** When no block faults, the parse keeps exactly the options the blocks
      contribute one by one, in block order: no option is lost, added,
      duplicated or reordered. */
  lemma {:induction false} DecodeBlocksKept(blocks: seq<seq<string>>, isAction: bool)
    requires forall k | 0 <= k < |blocks| :: Fields.NoLineFeed(blocks[k])
    ensures DecodeBlocks(blocks, isAction).Success? ==>
              DecodeBlocks(blocks, isAction).value == KeptOptions(blocks, isAction)
    decreases |blocks|
  {
    if |blocks| > 0 && DecodeBlocks(blocks, isAction).Success? {
      var rest := blocks[1..];
      assert forall k | 0 <= k < |rest| :: rest[k] == blocks[k + 1];
      DecodeBlocksHead(blocks, isAction);
      DecodeBlocksKept(rest, isAction);
      KeptCons(blocks, isAction);
    }
  }

  lemma KeptCons(blocks: seq<seq<string>>, isAction: bool)
    requires |blocks| > 0
    ensures KeptOptions(blocks, isAction) ==
              OptionOfBlock(blocks[0], isAction) + KeptOptions(blocks[1..], isAction)
  {
    var all, rest := PerBlock(blocks, isAction), PerBlock(blocks[1..], isAction);
    assert all[1..] == rest;
  }

  lemma DecodeBlocksHead(blocks: seq<seq<string>>, isAction: bool)
    requires |blocks| > 0 && forall k | 0 <= k < |blocks| :: Fields.NoLineFeed(blocks[k])
    requires DecodeBlocks(blocks, isAction).Success?
    ensures DecodeBlocks(blocks[1..], isAction).Success?
    ensures DecodeBlocks(blocks, isAction).value ==
              OptionOfBlock(blocks[0], isAction) + DecodeBlocks(blocks[1..], isAction).value
  {
    var tail := DecodeBlocks(blocks[1..], isAction);
    match Fields.ParseOptionToEntries(blocks[0])
    case Failure(_) =>
    case Success(None) =>
      assert OptionOfBlock(blocks[0], isAction) == [];
    case Success(Some(es)) =>
      match Decode(es, isAction)
      case None =>
        assert OptionOfBlock(blocks[0], isAction) == [];
      case Some(o) =>
        assert OptionOfBlock(blocks[0], isAction) == [o];
  }

  /** Every option parsed is the decoding of one of the blocks; nothing else
      enters the list. */
  lemma {:induction false} DecodeBlocksFrom(blocks: seq<seq<string>>, isAction: bool)
    requires forall k | 0 <= k < |blocks| :: Fields.NoLineFeed(blocks[k])
    ensures DecodeBlocks(blocks, isAction).Success? ==>
              AllFrom(DecodeBlocks(blocks, isAction).value, blocks, DecodedBy(isAction))
    decreases |blocks|
  {
    if |blocks| > 0 && DecodeBlocks(blocks, isAction).Success? {
      var rest := blocks[1..];
      assert forall k | 0 <= k < |rest| :: rest[k] == blocks[k + 1];
      DecodeBlocksHead(blocks, isAction);
      DecodeBlocksFrom(rest, isAction);
      ConsFrom(OptionOfBlock(blocks[0], isAction), DecodeBlocks(rest, isAction).value, blocks, DecodedBy(isAction));
    }
  }

  /** Each element of `xs` stands in relation `p` to some element of `bs`. */
  predicate AllFrom<T, B>(xs: seq<T>, bs: seq<B>, p: (T, B) -> bool) {
    forall k | 0 <= k < |xs| :: SomeSource(xs[k], bs, p)
  }

  predicate SomeSource<T, B>(x: T, bs: seq<B>, p: (T, B) -> bool) {
    exists j | 0 <= j < |bs| :: p(x, bs[j])
  }

  lemma ConsFrom<T, B>(head: seq<T>, tail: seq<T>, bs: seq<B>, p: (T, B) -> bool)
    requires |bs| > 0 && forall k | 0 <= k < |head| :: p(head[k], bs[0])
    requires AllFrom(tail, bs[1..], p)
    ensures AllFrom(head + tail, bs, p)
  {
    var xs := head + tail;
    forall k | 0 <= k < |xs|
      ensures SomeSource(xs[k], bs, p)
    {
      if k < |head| {
        assert xs[k] == head[k];
        assert p(xs[k], bs[0]);
      } else {
        assert xs[k] == tail[k - |head|];
        assert SomeSource(tail[k - |head|], bs[1..], p);
        var j :| 0 <= j < |bs[1..]| && p(tail[k - |head|], bs[1..][j]);
        assert bs[1..][j] == bs[j + 1];
        assert p(xs[k], bs[j + 1]);
      }
    }
  }

  /** The option blocks of a text: its lines, cut to the option region, split
      into blocks. */
  function OptionBlocks(optionsFile: string): (blocks: seq<seq<string>>)
    ensures forall k | 0 <= k < |blocks| :: Fields.NoLineFeed(blocks[k])
  {
    var region := Region.GetOptionRegion(Split(optionsFile, '\n'));
    var blocks := Blocks.ParseOptionsFromRegion(region);
    BlocksHaveNoLineFeed(optionsFile, region, blocks);
    blocks
  }

  /** `ParseOptions`: `None` (the source's `null`) when the text has no
      option region; otherwise the options of its blocks, in order. */
  function ParseOptions(optionsFile: string, isAction: bool): (r: Result<Option<seq<FastlaneOption>>, Fault>)
    ensures r.Success? ==>
              (r.value.None? <==> Region.GetOptionRegion(Split(optionsFile, '\n')) == [])
    ensures r.Failure? <==>
              && Region.GetOptionRegion(Split(optionsFile, '\n')) != []
              && exists k | 0 <= k < |OptionBlocks(optionsFile)| ::
                   Fields.ParseOptionToEntries(OptionBlocks(optionsFile)[k]).Failure?
    ensures r.Success? && r.value.Some? ==>
              r.value.value == KeptOptions(OptionBlocks(optionsFile), isAction)
    ensures r.Success? && r.value.Some? ==>
              forall k | 0 <= k < |r.value.value| :: r.value.value[k].isAction == isAction
  {
    var region := Region.GetOptionRegion(Split(optionsFile, '\n'));
    if |region| == 0 then Success(None)
    else
      var blocks := OptionBlocks(optionsFile);
      DecodeBlocksFaults(blocks, isAction);
      DecodeBlocksKept(blocks, isAction);
      var options :- DecodeBlocks(blocks, isAction);
      Success(Some(options))
  }

  /** A text without the declaring method has no options at all. */
  lemma NoMarkerNoOptions(optionsFile: string, isAction: bool)
    requires forall k | 0 <= k < |Split(optionsFile, '\n')| :: !Region.HasMarker(Split(optionsFile, '\n')[k])
    ensures ParseOptions(optionsFile, isAction) == Success(None)
  {
    var lines := Split(optionsFile, '\n');
    Region.FindBoundsIsFirst(lines);
  }

  // ---------------------------------------------------------------------------
  // GetTaskMetadata

  /** The settings class of a task: its base class and its properties. */
  datatype SettingsClass = SettingsClass(baseClass: string, properties: seq<TaskArgument>)

  /** A task of the metadata document. */
  datatype TaskEntry = TaskEntry(postfix: string, definiteArgument: string, settingsClass: SettingsClass)

  /** What one tool contributes: the address its options were read from, and
      its task. */
  datatype ToolMetadata = ToolMetadata(toolName: string, references: seq<string>, task: TaskEntry)

  /** One tool to describe: its name, the address of its options file and
      the text found there (the download is not modelled), and whether it is
      an action. */
  datatype ToolSource = ToolSource(name: string, url: string, optionsFile: string, isAction: bool)

  const BaseClass := "FastlaneBaseSettings"

  /** `m` is the task of `tool` built from `options`: its only reference is
      the tool's address, its properties are the options' arguments in order,
      its postfix and definite argument come from the tool's name, and its
      settings derive from `FastlaneBaseSettings`. */
  ghost predicate Describes(m: ToolMetadata, tool: ToolSource, options: seq<FastlaneOption>) {
    && m.toolName == tool.name
    && m.references == [tool.url]
    && |m.task.settingsClass.properties| == |options|
    && (forall k | 0 <= k < |options| ::
          CreateArgument(options[k]) == Success(m.task.settingsClass.properties[k]))
    && m.task.settingsClass.baseClass == BaseClass
    && Naming.CreateTask(tool.name, tool.isAction) ==
         Success(Naming.Task(m.task.postfix, m.task.definiteArgument))
  }

  /** A tool has options: its text parses, has an option region, and at least
      one option survives. */
  predicate HasOptions(tool: ToolSource) {
    match ParseOptions(tool.optionsFile, tool.isAction)
    case Success(Some(options)) => |options| > 0
    case _ => false
  }

  /** `m` is the task of `tool` built from the options its text parses to. */
  ghost predicate MetadataFor(m: ToolMetadata, tool: ToolSource) {
    match ParseOptions(tool.optionsFile, tool.isAction)
    case Success(Some(options)) => Describes(m, tool, options)
    case _ => false
  }

  /** Building the task from `options` faults: some option's name cannot be
      converted, or the tool's name cannot. */
  predicate BuildFails(tool: ToolSource, options: seq<FastlaneOption>) {
    || (exists k | 0 <= k < |options| :: CreateArgument(options[k]).Failure?)
    || Naming.CreateTask(tool.name, tool.isAction).Failure?
  }

  /** A tool faults: its text does not parse, or it has options and building
      its task faults. A tool without options never reaches the build. */
  predicate ToolFails(tool: ToolSource) {
    match ParseOptions(tool.optionsFile, tool.isAction)
    case Failure(_) => true
    case Success(None) => false
    case Success(Some(options)) => |options| > 0 && BuildFails(tool, options)
  }

  /** `GetTaskMetadata`: `None` (the source's `null`) for a tool with no
      options; otherwise its task built from its options. A fault anywhere
      propagates, and only then is there a fault. */
  method GetTaskMetadata(tool: ToolSource) returns (r: Result<Option<ToolMetadata>, Fault>)
    ensures r.Failure? <==> ToolFails(tool)
    ensures r.Success? ==> (r.value.Some? <==> HasOptions(tool))
    ensures r.Success? && r.value.Some? ==> MetadataFor(r.value.value, tool)
  {
    var parsed := ParseOptions(tool.optionsFile, tool.isAction);
    if parsed.Failure? {
      return Failure(parsed.error);
    }
    if parsed.value.None? || |parsed.value.value| == 0 {
      return Success(None);
    }
    var built := BuildTask(tool, parsed.value.value);
    if built.Failure? {
      return Failure(built.error);
    }
    return Success(Some(built.value));
  }

  /** Lines 107-117 for a tool with options: the arguments first, then the
      task; a fault in either propagates, and only then is there a fault. */
  method BuildTask(tool: ToolSource, options: seq<FastlaneOption>) returns (r: Result<ToolMetadata, Fault>)
    ensures r.Success? ==> Describes(r.value, tool, options)
    ensures r.Failure? <==> BuildFails(tool, options)
  {
    var arguments := CreateTaskArguments(options);
    if arguments.Failure? {
      return Failure(arguments.error);
    }
    var task := Naming.CreateTask(tool.name, tool.isAction);
    if task.Failure? {
      return Failure(task.error);
    }
    var entry := TaskEntry(task.value.postfix, task.value.definiteArgument,
                           SettingsClass(BaseClass, arguments.value));
    return Success(ToolMetadata(tool.name, [tool.url], entry));
  }

  // ---------------------------------------------------------------------------
  // CreateMetadataAsync

  /** The metadata document before serialization. */
  datatype MetadataDocument = MetadataDocument(
    schema: string,
    license: seq<string>,
    references: seq<string>,
    customExecutable: bool,
    name: string,
    tasks: seq<TaskEntry>)

  const License: seq<string> := [
    "Copyright Sebastian Karasek 2017.",
    "Distributed under the MIT License.",
    "https://github.com/Arodus/nuke-tools-fastlane/blob/master/LICENSE"]

  /** The present values, in order: `result.Where(x => x != null)`. */
  function Produced<T>(results: seq<Option<T>>): (r: seq<T>)
    ensures |r| <= |results|
    decreases |results|
  {
    if |results| == 0 then []
    else (if results[0].Some? then [results[0].value] else []) + Produced(results[1..])
  }

  /** The references of all tools, concatenated in order; nothing removes a
      repeated address. */
  function AllReferences(tools: seq<ToolMetadata>): seq<string>
    decreases |tools|
  {
    if |tools| == 0 then [] else tools[0].references + AllReferences(tools[1..])
  }

  /** Lines 49-62: the document assembled from the tools' results. The
      tools without a task are dropped; the references of the others are
      concatenated and their tasks listed, both in the tools' order. */
  function Assemble(results: seq<Option<ToolMetadata>>): (d: MetadataDocument)
    ensures d.schema == "./_schema.json" && d.name == "Fastlane" && d.customExecutable
    ensures d.license == License
    ensures d.references == AllReferences(Produced(results))
    ensures |d.tasks| == |Produced(results)|
    ensures forall k | 0 <= k < |d.tasks| :: d.tasks[k] == Produced(results)[k].task
  {
    var produced := Produced(results);
    MetadataDocument("./_schema.json", License, AllReferences(produced), true, "Fastlane",
                     seq(|produced|, k requires 0 <= k < |produced| => produced[k].task))
  }

  /** With one address per tool, the k-th reference is the address of the
      tool whose task is the k-th task, so addresses repeat as often as the
      tools that use them. */
  lemma {:induction false} ReferencesMatchTasks(tools: seq<ToolMetadata>)
    requires forall k | 0 <= k < |tools| :: |tools[k].references| == 1
    ensures |AllReferences(tools)| == |tools|
    ensures forall k | 0 <= k < |tools| :: AllReferences(tools)[k] == tools[k].references[0]
    decreases |tools|
  {
    if |tools| > 0 {
      ReferencesMatchTasks(tools[1..]);
      assert tools[0].references == [tools[0].references[0]];
    }
  }

  /** `CreateMetadataAsync` without the download and the write: every tool's
      metadata in order (tools before actions, as the caller lists them); a
      fault in any tool aborts the whole run; tools without options are
      left out. */
  method CreateMetadata(tools: seq<ToolSource>) returns (r: Result<MetadataDocument, Fault>)
    ensures r.Success? ==>
              && r.value.schema == "./_schema.json" && r.value.name == "Fastlane"
              && r.value.customExecutable && r.value.license == License
    ensures r.Success? ==> DocumentOf(r.value, tools)
    ensures r.Failure? <==> exists i | 0 <= i < |tools| :: ToolFails(tools[i])
    ensures r.Failure? ==> FirstFault(tools)
  {
    var results: seq<Option<ToolMetadata>> := [];
    var i := 0;
    while i < |tools|
      invariant 0 <= i <= |tools|
      invariant Paired(results, tools[..i], HasOptions, MetadataRel())
      invariant NoneOf(tools[..i], ToolFails)
    {
      var one := GetTaskMetadata(tools[i]);
      if one.Failure? {
        FirstAtFrom(tools, i, ToolFails);
        return Failure(one.error);
      }
      PairedAppend(results, tools[..i], one.value, tools[i], HasOptions, MetadataRel());
      NoneOfAppend(tools[..i], tools[i], ToolFails);
      TakeOneMore(tools, i);
      results := results + [one.value];
      i := i + 1;
    }
    TakeAll(tools);
    NoneOfAll(tools, ToolFails);
    AssembleFrom(results, tools);
    r := Success(Assemble(results));
  }

  lemma TakeOneMore<S>(xs: seq<S>, i: nat)
    requires i < |xs|
    ensures xs[..i] + [xs[i]] == xs[..i + 1]
  {
  }

  lemma TakeAll<S>(xs: seq<S>)
    ensures xs[..|xs|] == xs
  {
  }

  /** No element of `xs` satisfies `f`. */
  ghost predicate NoneOf<S>(xs: seq<S>, f: S -> bool)
    decreases |xs|
  {
    |xs| == 0 || (NoneOf(xs[..|xs| - 1], f) && !f(xs[|xs| - 1]))
  }

  lemma NoneOfAppend<S>(xs: seq<S>, x: S, f: S -> bool)
    requires NoneOf(xs, f) && !f(x)
    ensures NoneOf(xs + [x], f)
  {
    assert (xs + [x])[..|xs|] == xs;
  }

  lemma {:induction false} NoneOfIndex<S>(xs: seq<S>, f: S -> bool)
    requires NoneOf(xs, f)
    ensures forall k | 0 <= k < |xs| :: !f(xs[k])
    decreases |xs|
  {
    if |xs| > 0 {
      var init := xs[..|xs| - 1];
      NoneOfIndex(init, f);
      assert forall k | 0 <= k < |init| :: init[k] == xs[k];
    }
  }

  lemma NoneOfAll(tools: seq<ToolSource>, f: ToolSource -> bool)
    requires NoneOf(tools, f)
    ensures !exists i | 0 <= i < |tools| :: f(tools[i])
  {
    NoneOfIndex(tools, f);
  }

  /** An element that satisfies `f` after a prefix where none does is the
      first such element. */
  lemma FirstAtFrom<S>(xs: seq<S>, i: nat, f: S -> bool)
    requires i < |xs| && NoneOf(xs[..i], f) && f(xs[i])
    ensures exists j | 0 <= j < |xs| :: FirstAt(xs, j, f)
    ensures exists j | 0 <= j < |xs| :: f(xs[j])
  {
    NoneOfIndex(xs[..i], f);
    forall j | 0 <= j < i
      ensures !f(xs[j])
    {
      assert xs[..i][j] == xs[j];
    }
    assert FirstAt(xs, i, f);
  }

  /** `xs[i]` is the first element that satisfies `f`. */
  predicate FirstAt<S>(xs: seq<S>, i: int, f: S -> bool) {
    0 <= i < |xs| && f(xs[i]) && forall j | 0 <= j < i :: !f(xs[j])
  }

  /** Some tool is the first to fault: the run stops with its fault. */
  predicate FirstFault(tools: seq<ToolSource>) {
    exists i | 0 <= i < |tools| :: FirstAt(tools, i, ToolFails)
  }

  /** `task` is the task `tool` yields. */
  ghost predicate TaskFor(task: TaskEntry, tool: ToolSource) {
    MetadataFor(ToolMetadata(tool.name, [tool.url], task), tool)
  }

  /** The document lists one task per tool that has options, in the order of
      the tools, each built from that tool's options, and beside it, at the
      same place, that tool's address. */
  ghost predicate DocumentOf(d: MetadataDocument, tools: seq<ToolSource>) {
    var contributing := Filter(tools, HasOptions);
    && |d.tasks| == |contributing|
    && |d.references| == |contributing|
    && forall k | 0 <= k < |contributing| ::
         && d.references[k] == contributing[k].url
         && TaskFor(d.tasks[k], contributing[k])
  }

  ghost function MetadataRel(): (ToolMetadata, ToolSource) -> bool {
    (m, tool) => MetadataFor(m, tool)
  }

  /** `results[k]` is present exactly when `p` holds of `sources[k]`, and then
      stands in relation `q` to it. */
  ghost predicate Paired<T, S>(results: seq<Option<T>>, sources: seq<S>, p: S -> bool, q: (T, S) -> bool)
    decreases |results|
  {
    && |results| == |sources|
    && (|results| == 0 ||
        (Paired(results[..|results| - 1], sources[..|sources| - 1], p, q)
         && PairedAt(results[|results| - 1], sources[|sources| - 1], p, q)))
  }

  ghost predicate PairedAt<T, S>(result: Option<T>, source: S, p: S -> bool, q: (T, S) -> bool) {
    && (result.Some? <==> p(source))
    && (result.Some? ==> q(result.value, source))
  }

  lemma PairedAppend<T, S>(results: seq<Option<T>>, sources: seq<S>, one: Option<T>, source: S,
                           p: S -> bool, q: (T, S) -> bool)
    requires Paired(results, sources, p, q)
    requires (one.Some? <==> p(source)) && (one.Some? ==> q(one.value, source))
    ensures Paired(results + [one], sources + [source], p, q)
  {
    assert (results + [one])[..|results|] == results;
    assert (sources + [source])[..|sources|] == sources;
  }

  /** The pairing place by place. */
  lemma {:induction false} PairedIndex<T, S>(results: seq<Option<T>>, sources: seq<S>,
                                             p: S -> bool, q: (T, S) -> bool)
    requires Paired(results, sources, p, q)
    ensures |results| == |sources|
    ensures forall k | 0 <= k < |results| :: PairedAt(results[k], sources[k], p, q)
    decreases |results|
  {
    if |results| > 0 {
      var rs, ss := results[..|results| - 1], sources[..|sources| - 1];
      PairedIndex(rs, ss, p, q);
      assert forall k | 0 <= k < |rs| :: rs[k] == results[k] && ss[k] == sources[k];
    }
  }

  /** The pairing place by place, from the front. */
  ghost predicate PairedEach<T, S>(results: seq<Option<T>>, sources: seq<S>, p: S -> bool, q: (T, S) -> bool) {
    && |results| == |sources|
    && forall k | 0 <= k < |results| :: PairedAt(results[k], sources[k], p, q)
  }

  /** Dropping the absent results lines the present ones up with the sources
      that satisfy `p`, place by place. */
  lemma {:induction false} ProducedMatches<T, S>(results: seq<Option<T>>, sources: seq<S>,
                                                 p: S -> bool, q: (T, S) -> bool)
    requires PairedEach(results, sources, p, q)
    ensures |Produced(results)| == |Filter(sources, p)|
    ensures forall k | 0 <= k < |Produced(results)| :: q(Produced(results)[k], Filter(sources, p)[k])
    decreases |results|
  {
    if |results| > 0 {
      var rest, tail := results[1..], sources[1..];
      assert PairedEach(rest, tail, p, q) by {
        forall k | 0 <= k < |rest|
          ensures PairedAt(rest[k], tail[k], p, q)
        {
          assert rest[k] == results[k + 1] && tail[k] == sources[k + 1];
        }
      }
      ProducedMatches(rest, tail, p, q);
      ProducedMatchesStep(results, sources, p, q);
    }
  }

  lemma ProducedMatchesStep<T, S>(results: seq<Option<T>>, sources: seq<S>, p: S -> bool, q: (T, S) -> bool)
    requires |results| == |sources| > 0
    requires PairedAt(results[0], sources[0], p, q)
    requires |Produced(results[1..])| == |Filter(sources[1..], p)|
    requires forall k | 0 <= k < |Produced(results[1..])| ::
               q(Produced(results[1..])[k], Filter(sources[1..], p)[k])
    ensures |Produced(results)| == |Filter(sources, p)|
    ensures forall k | 0 <= k < |Produced(results)| :: q(Produced(results)[k], Filter(sources, p)[k])
  {
    var rest, tail := Produced(results[1..]), Filter(sources[1..], p);
    if results[0].Some? {
      assert Produced(results) == [results[0].value] + rest;
      assert Filter(sources, p) == [sources[0]] + tail;
      ConsPaired(results[0].value, rest, sources[0], tail, q);
    } else {
      assert Produced(results) == rest by {
        assert [] + rest == rest;
      }
      assert Filter(sources, p) == tail;
    }
  }

  lemma ConsPaired<T, S>(x: T, xs: seq<T>, y: S, ys: seq<S>, q: (T, S) -> bool)
    requires q(x, y) && |xs| == |ys|
    requires forall k | 0 <= k < |xs| :: q(xs[k], ys[k])
    ensures forall k | 0 <= k < |xs| + 1 :: q(([x] + xs)[k], ([y] + ys)[k])
  {
    forall k | 0 <= k < |xs| + 1
      ensures q(([x] + xs)[k], ([y] + ys)[k])
    {
      if k > 0 {
        assert ([x] + xs)[k] == xs[k - 1] && ([y] + ys)[k] == ys[k - 1];
      }
    }
  }

  /** The assembled document pairs each task with its tool's address, tool by
      tool, for the tools that have options. */
  lemma AssembleFrom(results: seq<Option<ToolMetadata>>, tools: seq<ToolSource>)
    requires Paired(results, tools, HasOptions, MetadataRel())
    ensures DocumentOf(Assemble(results), tools)
  {
    PairedIndex(results, tools, HasOptions, MetadataRel());
    ProducedMatches(results, tools, HasOptions, MetadataRel());
    forall m, tool | MetadataRel()(m, tool)
      ensures m == ToolMetadata(tool.name, [tool.url], m.task)
    {
      assert MetadataFor(m, tool);
    }
    DocumentFromPairs(Assemble(results), Produced(results), Filter(tools, HasOptions), MetadataRel());
  }

  /** Results of the shape a tool yields, lined up with their tools, give a
      document whose k-th address and k-th task belong to the k-th tool. */
  lemma DocumentFromPairs(d: MetadataDocument, produced: seq<ToolMetadata>, contributing: seq<ToolSource>,
                          q: (ToolMetadata, ToolSource) -> bool)
    requires forall m, tool | q(m, tool) :: m == ToolMetadata(tool.name, [tool.url], m.task)
    requires |produced| == |contributing|
    requires forall k | 0 <= k < |produced| :: q(produced[k], contributing[k])
    requires d.references == AllReferences(produced)
    requires |d.tasks| == |produced| && forall k | 0 <= k < |d.tasks| :: d.tasks[k] == produced[k].task
    ensures |d.tasks| == |contributing| && |d.references| == |contributing|
    ensures forall k | 0 <= k < |contributing| ::
              && d.references[k] == contributing[k].url
              && q(ToolMetadata(contributing[k].name, [contributing[k].url], d.tasks[k]), contributing[k])
  {
    forall k | 0 <= k < |produced|
      ensures produced[k].references == [contributing[k].url]
    {
      assert q(produced[k], contributing[k]);
    }
    ReferencesMatchTasks(produced);
  }

  // ---------------------------------------------------------------------------
  // Writing

  /** What the end of the run does with the serialized document. */
  datatype WriteAction =
    | UpToDate                                         // the file already holds this text
    | WriteFile(path: string, createDirectory: bool)

  const OutputName := "Fastlane.json"

  /** Lines 72-94: a missing directory is created and the file written; an
      existing file with the same text is left alone; an existing file with
      other text is kept and the text goes to a `.new` file beside it. */
  function DecideWrite(targetDir: string, separator: char, directoryExists: bool,
                       existing: Option<string>, text: string): (r: WriteAction)
    ensures r.WriteFile? ==> StartsWith(r.path, targetDir + [separator] + OutputName)
  {
    var outputFile := targetDir + [separator] + OutputName;
    if !directoryExists then WriteFile(outputFile, true)
    else if existing.Some? && existing.value == text then UpToDate
    else if existing.Some? then WriteFile(outputFile + ".new", false)
    else WriteFile(outputFile, false)
  }

  /** The decision never replaces a file with different text, writes only
      when something would change, and creates the directory only when it is
      missing. */
  lemma DecideWriteSafe(targetDir: string, separator: char, directoryExists: bool,
                        existing: Option<string>, text: string)
    requires !directoryExists ==> existing.None?
    ensures var r := DecideWrite(targetDir, separator, directoryExists, existing, text);
      && (r.UpToDate? <==> existing == Some(text))
      && (r.WriteFile? && existing.Some? ==> r.path == targetDir + [separator] + OutputName + ".new")
      && (r.WriteFile? && existing.None? ==> r.path == targetDir + [separator] + OutputName)
      && (r.WriteFile? ==> (r.createDirectory <==> !directoryExists))
  {
  }
}
