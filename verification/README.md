# Fastlane metadata generator: a Dafny model

This project models the core of the build-time generator in
`build/FastlaneMetadataCreator.cs`. For each fastlane tool and action, the
generator reads the tool's Ruby `options.rb`. It finds the array literal
returned by `def self.available_options` and splits it into one block per
`FastlaneCore::ConfigItem.new(...)` declaration. Each block becomes a small
JSON object, which the JSON reader turns into a `FastlaneOption` record. The
generator then emits one task description per tool: a task with a postfix and
a definite argument, and a settings class whose properties carry a PascalCase
name, a command-line format, a secret flag, an escaped help text and a type.

The model is pure Dafny: functions for the text passes, `Result` values for
the exceptions that abort the run, and lemmas for the properties.

| module | file | what it holds |
|---|---|---|
| `Wrappers`, `Faults` | `wrappers.dfy`, `faults.dfy` | `Option`, `Result`, and the three .NET exceptions the run can raise |
| `Text` | `text.dfy` | string helpers with .NET semantics: `Trim`, `Split`, `StartsWith`, `Contains`, `ToLower`, ... |
| `Region` | `region.dfy` | `GetOptionRegion`: the lines inside the options array |
| `Blocks` | `blocks.dfy` | `ParseOptionsFromRegion`: one block of lines per declaration |
| `Fields` | `fields.dfy` | `ParseOptionToJson`: the field entries of one block |
| `Json` | `json.dfy` | the JSON string literals the entries carry, and the reader for them |
| `Options` | `options.dfy` | `FastlaneOption`, its defaults, the reader's merge of entries, `IsStringArray` |
| `Naming` | `naming.dfy` | `ConvertPascalToCamelCase`, the reserved-word renaming, `CreateTask` |
| `Help` | `help.dfy` | `AppendPeriodIfNeeded` and `FormatHelp` |
| `Arguments` | `arguments.dfy` | `CreateTaskArguments` |
| `Metadata` | `metadata.dfy` | `ParseOptions`, `GetTaskMetadata`, the assembled document and the write decision |

`ParseOptionToJson` builds the text of a JSON object, and the JSON reader then
deserialises that text. The model keeps the object as its list of field entries
(`Fields.Entry`). Each entry holds the literal the source would write: a
`"`-delimited JSON string, or a `true`/`false`/integer token. The reader is
modelled entry by entry:
- A literal it rejects drops the whole option, as the caught
  `JsonReaderException` does.
- Names match properties without regard to case.
- The last value given for a property wins.
- Unknown names are ignored.
- `is_string` defaults to `true`.

## Model

| member | source | states |
|---|---|---|
| Region.GetOptionRegion | build/FastlaneMetadataCreator.cs:368-391 | The lines yielded by the two-flag loop are exactly the lines strictly between the opening-bracket line and the first closing line after it (or the end of the text). The opening-bracket line is the first one after the first line mentioning `def self.available_options`. |
| Region.FindBoundsIsFirst | build/FastlaneMetadataCreator.cs:374-389 | The bounds are the first marker line, the first line after it that opens the array (trimmed, starts or ends with `[`), and the first later line that closes it (trimmed, starts with `]`). There is no region exactly when no line has the marker, or no line after the first marker opens the array. |
| Region.ScanFromMarker | build/FastlaneMetadataCreator.cs:370-390 | The loop with its mutable `start`/`optionsStart` flags yields the same lines as the slice between the bounds, from any position on. |
| Region.RegionIgnoresTrailingText | build/FastlaneMetadataCreator.cs:387 | Once the closing line is found the loop stops: appending lines after it does not change the region. |
| Blocks.ParseOptionsFromRegion | build/FastlaneMetadataCreator.cs:393-416 | The blocks concatenate to the region minus its empty lines and lines starting with `#`, in order. There is always at least one block. Every block after the first starts with a `FastlaneCore::ConfigItem.new` line, and a declaration line can appear elsewhere only as block 0's first. |
| Blocks.SplitKeepsLines | build/FastlaneMetadataCreator.cs:398-414 | The splitting loop, from any state, loses no kept line and adds none. |
| Blocks.SplitKeepsShape | build/FastlaneMetadataCreator.cs:403-412 | The loop preserves the block shape: a declaration line closes the open block only when one is open. |
| Json.UnquoteQuote | build/FastlaneMetadataCreator.cs:210 | A JSON string literal written with `"` and `\` escaped reads back as its text. |
| Json.Unquote | build/FastlaneMetadataCreator.cs:210 | A literal the reader accepts is `"`-delimited; anything else is rejected. |
| Json.SurrogatePairEscape | build/FastlaneMetadataCreator.cs:210 | A `\u` escape holding a high surrogate followed by one holding a low surrogate reads as the single character above U+FFFF that the pair encodes, and the pair occupies eleven characters. |
| Json.LoneSurrogateEscape | build/FastlaneMetadataCreator.cs:210 | A surrogate escape that does not open a high-low pair reads as U+FFFD and occupies only its own escape. |
| Json.UnquotePair | build/FastlaneMetadataCreator.cs:210 | A literal holding exactly one surrogate pair reads as a one-character text. |
| Json.UnquoteEmojiPair | build/FastlaneMetadataCreator.cs:210 | `"\uD83D\uDE00"` reads as U+1F600, not as two replacement characters. |
| Fields.ParseOptionToEntries | build/FastlaneMetadataCreator.cs:287-366 | An empty block gives no object. Otherwise the object has between one entry and one entry per line. Every entry is well formed, with a field name free of `:`. Which entries come out is the partner lemma `EntriesFromReference`. |
| Fields.EntriesFromReference | build/FastlaneMetadataCreator.cs:287-366 | A non-empty block yields, after the constructor call is removed from its first line, exactly the per-line contributions of `Collect` in line order: no object when there are none, and the first fault when a line raises one. |
| Fields.ParseLinesMatchesReference | build/FastlaneMetadataCreator.cs:297-322 | The loop with its mutable indentation baseline equals a per-line definition. The baseline is the leading white space of the first line that is neither a key line nor an `end` line. Only lines after it, indented by more spaces than the baseline, are skipped as nested. |
| Fields.ParseLinesEntries | build/FastlaneMetadataCreator.cs:298-359 | Each line contributes at most one entry, and every entry is well formed. |
| Fields.KeyIdentFinds | build/FastlaneMetadataCreator.cs:303-308 | Any line holding `key: :<ident>,` somewhere is taken as the option's name. |
| Fields.RemoveCtorCallLeading | build/FastlaneMetadataCreator.cs:294-295 | On the usual first line (indentation, the call, the rest), removing the constructor call leaves exactly the rest of the line. |
| Fields.RemoveCtorCallAbsent | build/FastlaneMetadataCreator.cs:294 | A first line without the call is left alone. |
| Fields.StripComment | build/FastlaneMetadataCreator.cs:317-319 | The line is cut exactly when some `#` has no quote character at or after it, and the cut is made at the last `#`. The result is a prefix of the line. |
| Fields.FieldParts | build/FastlaneMetadataCreator.cs:321-326 | `Split(':')` has two parts exactly when the line has a colon. The name is the text before the first colon, and the value glues the remaining parts back with their colons deleted. |
| Fields.FieldEntry | build/FastlaneMetadataCreator.cs:321-358 | A line without a colon contributes nothing. Otherwise the entry is the decoded value under the trimmed name, nothing when the value is dropped, or the fault the decoding raises. |
| Fields.DecodeValue | build/FastlaneMetadataCreator.cs:327-356 | The decoding fails (`Substring` out of range) exactly for the lone value `'`. `nil` becomes `""`. An unquoted value survives only as a `true`/`false`/integer token. Every value kept is well formed. |
| Fields.DecodeQuoted | build/FastlaneMetadataCreator.cs:327-348 | A quoted value fails only as a lone `'`; otherwise it is a `"`-delimited literal, or empty when the pattern cannot match. |
| Fields.CloseQuoted | build/FastlaneMetadataCreator.cs:335-341 | A double-quoted value always ends with a quote after the closing step. |
| Fields.QuoteGroups | build/FastlaneMetadataCreator.cs:343 | The three groups of `(.*?")(.*)(".*)` concatenate back to the value. |
| Fields.DoubleQuotedShape | build/FastlaneMetadataCreator.cs:331-348 | The double-quoted branch yields a `"`-delimited literal, or the empty text when fewer than two quotes remain. |
| Fields.SingleQuotedRoundTrip | build/FastlaneMetadataCreator.cs:327-330 | A single-quoted Ruby string without backslashes becomes the JSON literal of its content, which reads back as that content. |
| Fields.DoubleQuotedRoundTrip | build/FastlaneMetadataCreator.cs:331-348 | A double-quoted Ruby string without quotes, backslashes or line feeds inside passes through unchanged and reads back as its content. |
| Options.Decode | build/FastlaneMetadataCreator.cs:207-215 | An option exists exactly when the reader accepts every entry. It then equals the defaults overwritten, per property, by the last value any entry gives. `IsAction` is the caller's flag. With no value given, `is_string` is true, `optional` and `sensitive` are false, and the name is absent. A string property given a bare token holds the token as written (`TokenTextKept`). |
| Options.PopulateIsMerge | build/FastlaneMetadataCreator.cs:210 | The reader's pass over the entries in order agrees with the per-property reference: it fails exactly when some entry is rejected, and otherwise it gives the merge. |
| Options.LastValueAccepted | build/FastlaneMetadataCreator.cs:443-468 | When every entry is accepted, the last value of a bool property is one it can take. |
| Options.IsStringArray | build/FastlaneMetadataCreator.cs:447-459 | True exactly when the type is not `Array`, a description exists, and its lower-cased text contains `comma-separated` or `comma separated` at some position. |
| Options.ReadValue | build/FastlaneMetadataCreator.cs:210 | A quoted value is readable exactly when its literal is. A bare token is rejected exactly when it is a number of more than one digit with a leading `0` whose digits are not all octal or whose base-8 value needs more than 64 bits. |
| Options.TokenTextKept | build/FastlaneMetadataCreator.cs:210 | A bare token the reader accepts reaches a string property as written: `true` and `false` in lower case, numbers with their leading zeros. |
| Options.OctalTokens | build/FastlaneMetadataCreator.cs:210 | `017` is read and kept as written, `08` and `019` are rejected (dropping the option), and `0` and `80` are ordinary numbers. |
| Naming.ConvertPascalToCamelCase | build/FastlaneMetadataCreator.cs:177-183 | A null name raises `ArgumentNullException`. Any other failure is the `IndexOutOfRangeException` of an empty segment's missing first character. A converted name has no `_`. |
| Naming.ConvertMatchesReference | build/FastlaneMetadataCreator.cs:181-182 | Splitting on `_` and aggregating the capitalised segments equals a single character pass that drops each `_` and upper-cases the character after it (and the first). Both fail on the same names. |
| Naming.RemapReservedName | build/FastlaneMetadataCreator.cs:249-252 | The four case-insensitive renamings in a row act as one lookup of the lower-cased name: `readonly`, `private`, `params` and `base` map to their replacements, and every other name is kept. |
| Naming.RemapIdempotent | build/FastlaneMetadataCreator.cs:249-252 | A renamed name is no longer reserved, so renaming twice changes nothing. |
| Naming.CreateTask | build/FastlaneMetadataCreator.cs:126-135 | The empty tool name raises `IndexOutOfRangeException`. The definite argument is the lower-cased name, after `run ` for an action. |
| Naming.CreateTaskPostfix | build/FastlaneMetadataCreator.cs:130-131 | For a non-empty name the postfix exists exactly when the character pass succeeds, and it equals the pass's result. Upper-casing the first character beforehand changes nothing. |
| Help.AppendPeriodIfNeeded | build/FastlaneMetadataCreator.cs:185-188 | The result starts with the value and ends with `.`, and is at most one character longer. |
| Help.AppendPeriodIdempotent | build/FastlaneMetadataCreator.cs:185-188 | Appending twice is appending once, and a value that already ends with `.` is unchanged. |
| Help.EscapeMarkup | build/FastlaneMetadataCreator.cs:232 | The three replacements in a row escape each character on its own. |
| Help.EscapeEach | build/FastlaneMetadataCreator.cs:232 | The escaped text holds no `<` and no `>`. |
| Help.UnescapeEscape | build/FastlaneMetadataCreator.cs:232 | Undoing the entities gives the text back, whatever follows it. |
| Help.EscapedPeriod | build/FastlaneMetadataCreator.cs:232-234 | Escaping neither creates nor removes a final period. |
| Help.UnwrapWrap | build/FastlaneMetadataCreator.cs:235 | On text without `<`, reading each `<c>`/`</c>` tag back as a backtick undoes the lazy `` `(.+?)` `` replacement. |
| Help.FormatHelp | build/FastlaneMetadataCreator.cs:229-238 | No description gives `""`. Otherwise, undoing the code tags and then the entities gives exactly the description with its period appended if needed, so no content is lost or invented. |
| Help.FormatHelpSpan | build/FastlaneMetadataCreator.cs:232-235 | A description `a`, backtick, `b`, backtick, `c` (no backtick in `a`; `b` non-empty, on one line, without backticks) formats as escaped `a`, then `<c>` around escaped `b`, then the help text `c` alone would get. |
| Help.FormatHelpPlain | build/FastlaneMetadataCreator.cs:232-235 | A description without backticks gets no `<c>` element: it is only escaped and ended with a period. |
| Help.WrapCodeSpan | build/FastlaneMetadataCreator.cs:235 | The first backticked span of one or more characters on one line becomes `<c>` around its text; the text before it is kept and the text after it is wrapped on its own. |
| Help.WrapCodePlain | build/FastlaneMetadataCreator.cs:235 | Text without backticks is unchanged. |
| Help.WrapCodeLoneTick | build/FastlaneMetadataCreator.cs:235 | A backtick with no other backtick anywhere in the text is kept as it is. |
| Help.WrapPlainPrefix | build/FastlaneMetadataCreator.cs:235 | A prefix without backticks is copied, and what follows it is wrapped as if it stood alone. |
| Arguments.SelectTypeCases | build/FastlaneMetadataCreator.cs:263-281 | The property is a comma-separated `List<string>` exactly when `IsStringArray` holds, or the option takes a string and is `Array`-typed. It is `bool` exactly when it is not a string array and takes no string, and `string` otherwise. It has a separator exactly when it is a list. |
| Arguments.ParseFormatInverse | build/FastlaneMetadataCreator.cs:256-258 | The format `name:{value}` / `--name={value}` loses nothing: the raw name and the kind of call read back from it. |
| Arguments.CreateArgument | build/FastlaneMetadataCreator.cs:246-282 | A nameless option raises `ArgumentNullException`. A created argument has a name without `_`, a format that reads back as the option's raw name and kind, the option's `Sensitive` flag as secret, a separator exactly when it is a list, and the type and separator of `SelectType`, whose outcomes `SelectTypeCases` characterises. |
| Arguments.CreateArgumentName | build/FastlaneMetadataCreator.cs:248-260 | The argument name is the character pass over the option name, renamed when reserved, and the help text is the formatted description. |
| Arguments.CreateTaskArguments | build/FastlaneMetadataCreator.cs:240-285 | The arguments succeed exactly when every option converts, and then there is one argument per option, in order. A failure carries the first failing option's fault. |
| Arguments.MapUntilFailure | build/FastlaneMetadataCreator.cs:244-284 | Applying a fallible step to each element in turn: all results in order, or the first failure. |
| Metadata.ParseOptions | build/FastlaneMetadataCreator.cs:190-227 | The result is `null` (`None`) exactly when the option region is empty. It is a fault exactly when the region is not empty and some block raises one while building its entries. Otherwise the options are `KeptOptions` of the blocks: block by block, in order, the option each block's entries decode to, or nothing for a block without entries or with a rejected literal. Every option carries the caller's `IsAction`. |
| Metadata.NoMarkerNoOptions | build/FastlaneMetadataCreator.cs:195-198 | A text with no `def self.available_options` line has no options. |
| Metadata.BlocksHaveNoLineFeed | build/FastlaneMetadataCreator.cs:192-201 | No line of any block holds a line feed, since the text was split on them. |
| Metadata.DecodeBlocks | build/FastlaneMetadataCreator.cs:202-223 | There are no more options than blocks, and each has the caller's `IsAction`. Which options come out, and in what order, is the partner lemma `DecodeBlocksKept`. |
| Metadata.DecodeBlocksKept | build/FastlaneMetadataCreator.cs:202-223 | When no block faults, the options are exactly the blocks' contributions taken one block at a time and concatenated in block order (`KeptOptions`): none is lost, added, duplicated or reordered. |
| Metadata.DecodeBlocksFaults | build/FastlaneMetadataCreator.cs:202-216 | The parse succeeds exactly when no block raises a fault while building its entries: only the reader's exception is caught. |
| Metadata.DecodeBlocksFrom | build/FastlaneMetadataCreator.cs:202-214 | Every option in the list is what the reader makes of some block's entries. |
| Metadata.GetTaskMetadata | build/FastlaneMetadataCreator.cs:98-124 | It faults exactly when the options file does not parse, or the tool has options and building its task faults (`ToolFails`). Otherwise it gives `null` exactly when the options are `null` or empty. The metadata it gives has the tool's name and address, one property per parsed option in order, the base class `FastlaneBaseSettings` and the task built from the tool's name (`MetadataFor`). |
| Metadata.BuildTask | build/FastlaneMetadataCreator.cs:107-117 | The task is built as described. A fault is raised exactly when some option's name cannot be converted or the tool name cannot. |
| Metadata.Assemble | build/FastlaneMetadataCreator.cs:49-62 | The document has the schema `./_schema.json`, the three-line license, a custom executable and the name `Fastlane`. Its references are the concatenated references of the non-null results, and its tasks are their tasks, in the same order. |
| Metadata.ReferencesMatchTasks | build/FastlaneMetadataCreator.cs:58-61 | With one address per tool, the k-th reference is the address of the tool behind the k-th task, and repeated addresses are all kept. |
| Metadata.CreateMetadata | build/FastlaneMetadataCreator.cs:38-62 | The run faults exactly when some tool faults, and then some tool is the first to fault. Otherwise the document lists one task per tool that has options, in the tools' order. Each task is built from that tool's options, and beside it, at the same place in the references, is that tool's address. |
| Metadata.AssembleFrom | build/FastlaneMetadataCreator.cs:49-61 | When each result is present exactly for the tools with options and is then that tool's metadata, the assembled document pairs the k-th task with the k-th tool that has options and its address. |
| Metadata.ProducedMatches | build/FastlaneMetadataCreator.cs:49 | Dropping the null results lines the others up, place by place, with the sources whose result is present. |
| Metadata.DecideWrite | build/FastlaneMetadataCreator.cs:72-94 | Any file written is `Fastlane.json` in the target directory, or the same name with `.new` appended. |
| Metadata.DecideWriteSafe | build/FastlaneMetadataCreator.cs:72-94 | Nothing is written exactly when the file exists with the same text. An existing file with other text is kept, and the text goes to `.new`. The directory is created only when it is missing. |

## Code behaviour the model follows

- A nameless option is not skipped. `ConvertPascalToCamelCase(null)` throws
  (lines 179-180), and `GetTaskMetadata` rethrows (line 122), so the whole run
  aborts.
- References are concatenated with `SelectMany` (line 58). Nothing removes an
  address that two tools share.
- A tool whose options come out `null` or empty returns `null` (line 107). Its
  reference is dropped together with it (line 49), not listed.
- The indentation baseline in `ParseOptionToJson` counts leading white space
  (`^(\s+)`, tabs included). The nesting test counts spaces only (`^ {n,}`).
- An `end` line is recognised by white space followed by `end` anywhere in the
  line (`\s+end`), not only by a bare `end`.
- A value that is the lone character `'` makes `Substring(1, -1)` throw
  (line 329). That exception is not a `JsonReaderException`, so it aborts the
  run.

## Left out

- Downloading the option files, listing the fastlane actions and filling in
  the URL template (lines 21-22, 40-46, 138-175). `ToolSource` carries a
  tool's name, address and file text, and `CreateMetadata` takes the tools in
  the order the caller builds them (tools first, then actions).
- The asynchronous fan-out and `Task.WhenAll` (line 48). Every tool's result is
  computed in order, which gives the same array.
- The default tool list and `CreateMetadata`'s null handling (lines 25-36): a
  constant and an argument check with nothing to prove.
- Logging and console output (lines 51, 84, 95, 121, 218-221): no effect on
  the result.
- Serialising the document with Newtonsoft's camel-case resolver and its
  default-value and null-value handling (lines 65-70). `Metadata.MetadataDocument`
  is the dictionary before serialisation.
- File-system effects (lines 72-94). `DecideWrite` is the decision they carry
  out; whether the directory and the file exist and what the file holds are
  parameters.
- The null check on a block line (line 301). Lines come from `Split` and are
  never null.
- The null filter after deserialising (lines 224-226). The JSON text is always
  an object, so the reader never yields null.
- Json.Unquote: models the escapes of section 7 of RFC 8259, surrogate pairs
  included, plus Newtonsoft's `\'`. A surrogate escape outside a high-low
  pair reads as U+FFFD, the replacement Newtonsoft writes for it; Dafny strings
  hold Unicode scalar values, so a lone UTF-16 code unit could not be kept
  anyway.
- Options.AsBool: a number sets a bool property by whether it is non-zero,
  however many digits it has, as Newtonsoft's big-integer reading does. The
  reader's rejection of an integer token longer than 380 characters, when it
  is read as a number (for a bool property, or skipped for an unknown one),
  is not modelled: such a token is kept.
- Options.ReadValue: the base-8 reading of a token with a leading `0` is
  modelled only as far as it accepts or rejects the token. A string property
  receives the token as written, which is what `ReadAsString` returns.
- Text.ToLower: case mapping (`ToLowerInvariant`, `char.ToUpper`,
  `InvariantCultureIgnoreCase`, and the `OrdinalIgnoreCase` comparisons the
  reader uses to match property names in `Options.PropertyNamed`/`ReadEntry`
  and to parse `true`/`false` in `Options.AsBool`) is modelled for ASCII
  letters only.
- Text.StartsWith: `StartsWith`/`EndsWith` with a string argument are
  culture-sensitive in .NET and are modelled as ordinal comparisons.
- Metadata.CreateMetadata: the contract says that a run faults exactly when
  some tool faults, and that some tool is then the first to fault. It does not
  say which fault value comes back. The model returns the first faulting
  tool's fault, which is what awaiting `Task.WhenAll` rethrows.
- Options.AsBool: `nil` becomes an empty string. Given to a bool property,
  Newtonsoft reads it as a null that cannot be converted to `bool`. The
  resulting `JsonSerializationException` is not caught (line 216), so it
  aborts the run. The model treats the empty string as a rejected literal and
  drops only that option.
- Fields.IsScalarToken: `\d` (line 355) is modelled as ASCII digits only. .NET
  also matches other Unicode decimal digits. The source writes such a value
  as a bare token, and the JSON reader rejects it, dropping the whole option;
  the model drops only that field.
- Fields.SingleQuotedToJson: `Substring` and `Length` (line 329) count UTF-16
  code units, while the model counts Unicode scalar values. They differ only
  when the value's last character lies outside the Basic Multilingual Plane:
  the source then cuts that character in half, leaving a lone surrogate the
  model cannot represent, where the model drops the whole character.
