# tfvars toolchain of `load_terraform_config.py`, modelled in Dafny

`scripts/load_terraform_config.py` holds a small tfvars (HCL subset) toolchain,
and this project models its three algorithmic parts:

- **`TfvarsParser`** is a recursive-descent parser with a cursor. It handles:
  - trivia: white space, `#` and `//` line comments, and nested block comments;
  - double-quoted strings with JSON-style escapes;
  - integer and float literals;
  - `true`/`false`/`null` with a word-boundary check;
  - arrays, objects and `<<`/`<<-` heredocs.

  It has two entry points:
  - `parse_assignments`: a list of `key = value` bindings, in which the last binding of a key wins.
  - `parse_value`: exactly one value, with only trivia around it.
- **Workflow directives** (`_parse_metadata`, `_metadata_set`). Comment lines
  `# workflow.<dotted.path> = <value>` (or `//`) are parsed with `parse_value`.
  Each value is stored under its dotted path in a nested map, which creates
  intermediate maps on demand.
- **The canonical formatter** (`_needs_quotes` … `_dump_tfvars`) renders a value tree:
  - two-space indentation per level;
  - a comma after every list element but the last;
  - the `=` signs of a map aligned;
  - `[]`/`{}` for empty containers;
  - exactly one trailing line feed.

The modules follow the program's structure:

| file | module | contents |
|---|---|---|
| `values.dfy` | `Values` | The value datatype: string, integer, float (kept as its literal text), boolean, null, list and dict. A dict is an ordered sequence of pairs with Python's assign-in-place semantics (`Put`). The module also holds the text helpers: `strip`, `split`, `splitlines`, `"\n".join`. |
| `grammar.dfy` | `Grammar` | The reference definition of the accepted grammar, one function per parser method. Each function gives the value and the new cursor, or the exact `TfvarsParseError` message. |
| `parser.dfy` | `Parser` | The class `TfvarsParser`, whose field `index` its methods advance step by step with `while` loops. Each method is proved to compute its `Grammar` function. |
| `grammar_properties.dfy` | `GrammarProperties` | What the grammar accepts and rejects: trivia, keywords, numbers, escapes, heredocs, separators, duplicate keys, trailing input. |
| `directives.dfy` | `Directives` | `_metadata_set` as the function `SetPath`. Its specification says when a store succeeds: exactly when no intermediate segment is blocked by a value other than a map or null (`SetPathSucceeds`). It also says which segment a failure names: the first blocked one, at any depth (`SetPathConflictAt`, `SetPathFails`). Further lemmas give what a store reaches and what it keeps (`SetPathStores`, `SetPathKeepsOthers`), and the maps it creates at any depth (`SetPathCreatesAt`). `_parse_metadata` as a method with a `for` loop, proved against the line-by-line reference function `Metadata`. `DirectiveStores` states what one directive line does with that function: it stores its parsed value under its dotted path. `OnlyDirective` states what a whole text with one directive yields. |
| `formatter.dfy` | `Formatter` | The formatter as recursive functions over the `lines` lists the source builds. It has independent text-level definitions and lemmas on key quoting, escapes, commas, brackets, alignment and the trailing newline. |
| `round_trip.dfy` | `RoundTrip` | What the formatter writes is read back by the parser: scalars, and lists and maps nested to any depth. |

Every `TfvarsParseError` and every `_error` + `SystemExit` becomes an `Err`
carrying the message the source raises or prints.

## Model

| member | source | states |
|---|---|---|
| Values.Put | scripts/load_terraform_config.py:48-50 | `d[k] = v`: afterwards `k` maps to `v`, every other key keeps its value, and the key set gains `k` |
| Values.PutNewKey | scripts/load_terraform_config.py:269 | binding a new key appends the pair at the end (dict insertion order) |
| Values.PutExistingKey | scripts/load_terraform_config.py:269 | binding a key that is present replaces its pair where it stands, so a later duplicate overwrites the earlier binding |
| Values.PutKeepsKeysUnique | scripts/load_terraform_config.py:48-50 | assignment keeps the keys of a dict unique |
| Values.Get | scripts/load_terraform_config.py:362 | the lookup of `d.get(k)`, keeping apart what Python's `None` result conflates: `None` exactly when `k` is not a key, and `Some(Null)` when `k` is bound to `None` (`NextLevel` treats the two alike, as `existing is None` does) |
| Values.Split | scripts/load_terraform_config.py:355 | `str.split('.')` yields at least one part, and no part holds the separator |
| Values.JoinSplit | scripts/load_terraform_config.py:355 | joining the parts of a split by the separator gives back the text |
| Values.SplitJoin | scripts/load_terraform_config.py:355 | splitting a join of separator-free parts gives back the parts |
| Values.SplitLines | scripts/load_terraform_config.py:335 | no line of `splitlines()` holds a line feed, and there are no lines exactly for the empty text |
| Values.JoinSplitLines | scripts/load_terraform_config.py:457 | `"\n".join(s.splitlines())` is `s` for a text that does not end in a line feed |
| Values.SplitLinesJoinLines | scripts/load_terraform_config.py:457 | splitting a join of line-feed-free lines, the last non-empty, gives back the lines |
| Values.Strip | scripts/load_terraform_config.py:336 | `strip()` is the slice between the leading and trailing white space, and the result neither starts nor ends with white space |
| Parser.TfvarsParser.constructor | scripts/load_terraform_config.py:36-37 | a new parser holds the text with the cursor at 0 |
| Parser.TfvarsParser.Peek | scripts/load_terraform_config.py:66-69 | `_peek` gives nothing exactly at the end of input, and the character at the cursor otherwise |
| Parser.TfvarsParser.Advance | scripts/load_terraform_config.py:71-72 | `_advance` moves the cursor by `count` |
| Parser.TfvarsParser.Match | scripts/load_terraform_config.py:74-78 | `_match` returns whether the text continues with `value` at the cursor, and consumes exactly `value` then and nothing otherwise |
| Parser.TfvarsParser.SkipIgnored | scripts/load_terraform_config.py:80-95 | the cursor ends where `SkipTrivia` says, or the method fails with its message |
| Parser.TfvarsParser.SkipIgnoredPiece | scripts/load_terraform_config.py:82-95 | one round of the loop either passes one piece of trivia, leaving the end point unchanged, or stops, agreeing with `SkipTrivia` |
| Parser.TfvarsParser.SkipUntilNewline | scripts/load_terraform_config.py:97-101 | the cursor ends just after the next line feed, or at the end of input |
| Parser.TfvarsParser.ScanToLineEnd | scripts/load_terraform_config.py:98-99 | the cursor ends at the next line feed or at the end of input |
| Parser.TfvarsParser.SkipBlockComment | scripts/load_terraform_config.py:103-114 | the cursor ends where the depth-counting `BlockComment` says, or the method fails with "Unterminated block comment" |
| Parser.TfvarsParser.ParseKey | scripts/load_terraform_config.py:116-123 | returns the key and position of `KeyAt`, or its error |
| Parser.TfvarsParser.ParseIdentifier | scripts/load_terraform_config.py:125-135 | returns the identifier and position of `IdentifierAt`, or "Expected identifier" |
| Parser.TfvarsParser.ExpectAssignment | scripts/load_terraform_config.py:137-141 | consumes trivia and one `=` as `AssignmentSignAt` says, or fails |
| Parser.TfvarsParser.ParseNextValue | scripts/load_terraform_config.py:143-165 | returns the value and position of `ValueAt`, or its error |
| Parser.TfvarsParser.ParseKeyword | scripts/load_terraform_config.py:158-165 | the keyword loop returns what `KeywordValueAt` gives |
| Parser.TfvarsParser.ParseString | scripts/load_terraform_config.py:167-207 | returns the decoded string and position of `StringAt`, or its error |
| Parser.TfvarsParser.ReadStringPiece | scripts/load_terraform_config.py:172-206 | one round of the string loop yields `StringPieceAt` and moves the cursor past that piece |
| Parser.TfvarsParser.ParseNumber | scripts/load_terraform_config.py:209-236 | returns the number and position of `NumberAt`, or its error |
| Parser.TfvarsParser.ScanFraction | scripts/load_terraform_config.py:219-224 | the optional fraction moves the cursor as `FractionEnd` says, or fails |
| Parser.TfvarsParser.ScanExponent | scripts/load_terraform_config.py:225-232 | the optional exponent moves the cursor as `ExponentEnd` says, or fails |
| Parser.TfvarsParser.ScanDigits | scripts/load_terraform_config.py:223-224 | a digit loop ends at the end of the run of digits |
| Parser.TfvarsParser.ParseArray | scripts/load_terraform_config.py:238-252 | returns the list and position of `ArrayAt`, or its error |
| Parser.TfvarsParser.ParseArraySeparator | scripts/load_terraform_config.py:247-252 | after an element, the method continues exactly where `ArraySeparator` continues with `ArrayItems`, and otherwise ends as it does |
| Parser.TfvarsParser.ParseObject | scripts/load_terraform_config.py:254-275 | returns the dict and position of `ObjectAt`, or its error |
| Parser.TfvarsParser.ParseEntryValue | scripts/load_terraform_config.py:263-268 | `=` or `:` and then the value, as `EntryValueAt` says |
| Parser.TfvarsParser.ParseObjectSeparator | scripts/load_terraform_config.py:270-275 | after an entry, the method continues exactly where `ObjectSeparator` continues with `ObjectEntries`, and otherwise ends as it does |
| Parser.TfvarsParser.ParseHeredoc | scripts/load_terraform_config.py:277-309 | returns the heredoc text and position of `HeredocAt`, or its error |
| Parser.TfvarsParser.ParseHeredocLines | scripts/load_terraform_config.py:292-308 | the line loop returns what `HeredocBody` gives |
| Parser.TfvarsParser.ParseAssignments | scripts/load_terraform_config.py:40-52 | returns the bindings of `AssignmentsFrom`, or its error |
| Parser.TfvarsParser.ParseValue | scripts/load_terraform_config.py:54-60 | returns the value of `SingleValueFrom`, or its error |
| Grammar.SkipTrivia | scripts/load_terraform_config.py:80-95 | skipping trivia only moves the cursor forward, and can fail only with "Unterminated block comment" |
| Grammar.IdentifierAt | scripts/load_terraform_config.py:125-135 | an identifier is the non-empty slice consumed, and the only error is "Expected identifier" |
| Grammar.HeredocBody | scripts/load_terraform_config.py:292-308 | the line loop can only fail with "Unterminated heredoc" |
| GrammarProperties.SkipTriviaStops | scripts/load_terraform_config.py:80-95 | skipping stops at a position that starts no trivia, and skipping again from there does not move |
| GrammarProperties.UnclosedBlockComment | scripts/load_terraform_config.py:103-114 | inside a block comment with no star-slash ahead, skipping fails with "Unterminated block comment" |
| GrammarProperties.BlockCommentPlain | scripts/load_terraform_config.py:105-112 | characters other than `/` and `*` inside a block comment are passed one by one at the same depth |
| GrammarProperties.BlockCommentOpens | scripts/load_terraform_config.py:106-108 | a slash-star inside a block comment increases the depth |
| GrammarProperties.BlockCommentCloses | scripts/load_terraform_config.py:109-111 | a star-slash inside a block comment decreases the depth |
| GrammarProperties.NestedBlockComment | scripts/load_terraform_config.py:80-114 | block comments nest, so skipping `/* a /* b */ c */ x` stops exactly before `x` |
| GrammarProperties.KeywordValues | scripts/load_terraform_config.py:158-165 | `true`, `false` and `null` are tried in this order, a match counts only before the end of input or a boundary character, and otherwise the result is "Unsupported expression in tfvars value" |
| GrammarProperties.KeywordNeedsBoundary | scripts/load_terraform_config.py:158-165 | `truex` is an unsupported expression |
| GrammarProperties.NumberKinds | scripts/load_terraform_config.py:233-236 | a number is an integer exactly when its literal has none of `.`, `e`, `E`, and then it has the literal's value; otherwise it is a float with that literal |
| GrammarProperties.NumberNeedsDigits | scripts/load_terraform_config.py:211-218 | no digit after the optional `-` is "Invalid number literal" |
| GrammarProperties.NumberFractionNeedsDigit | scripts/load_terraform_config.py:219-222 | a `.` not followed by a digit is "Invalid number literal" |
| GrammarProperties.NumberExponentNeedsDigit | scripts/load_terraform_config.py:225-230 | an `e`/`E` and optional sign not followed by a digit is "Invalid exponent in number literal" |
| GrammarProperties.Escapes | scripts/load_terraform_config.py:176-204 | each of the eight short escapes decodes to its character. `\u` needs four hex digits and gives that code point. Any other escape, or a backslash at the end of input, fails with the source's message |
| GrammarProperties.UnclosedString | scripts/load_terraform_config.py:171-207 | a string without a closing quote fails |
| GrammarProperties.HeredocNeedsTag | scripts/load_terraform_config.py:278-285 | `<<` or `<<-` without a tag is "Expected identifier" |
| GrammarProperties.HeredocIntroducer | scripts/load_terraform_config.py:278-291 | the tag is the identifier after the introducer, the rest of its line is discarded, and the trimmed comparison is chosen by `<<-` |
| GrammarProperties.HeredocTerminated | scripts/load_terraform_config.py:292-308 | the line loop succeeds with text `s` and next position `n` exactly when some line from the start on closes the heredoc (it equals the tag, after `lstrip('\t ')` for `<<-`), no earlier line does, `n` is just after that line's line feed, and `s` is the text from the start up to the line feed before that line (empty when the first line closes it) |
| GrammarProperties.HeredocUnterminated | scripts/load_terraform_config.py:292-308 | the line loop fails with "Unterminated heredoc" exactly when no line from the start on closes the heredoc |
| GrammarProperties.HeredocClosedAt | scripts/load_terraform_config.py:292-308 | with the lines read so far in hand, the loop ends at the first closing line with those lines and the text before the closing line joined by line feeds |
| GrammarProperties.HeredocClosingFound | scripts/load_terraform_config.py:292-308 | a loop that succeeds stopped at the first closing line |
| GrammarProperties.HeredocWithoutTerminator | scripts/load_terraform_config.py:292-308 | without an occurrence of the tag ahead, the heredoc fails with "Unterminated heredoc" |
| GrammarProperties.HeredocLines | scripts/load_terraform_config.py:292-309 | the heredoc text is the body lines joined by line feeds, and every body line holds no line feed and is not the terminator, compared after `lstrip` only for `<<-` |
| GrammarProperties.LStripSuffix | scripts/load_terraform_config.py:301-302 | `lstrip('\t ')` gives a suffix of the line |
| GrammarProperties.ArrayItemsClose | scripts/load_terraform_config.py:243-245 | a `]` where an element could start closes the array, so `[]` and a trailing comma are accepted |
| GrammarProperties.ArraySeparators | scripts/load_terraform_config.py:247-252 | after an element, a comma continues and `]` closes; anything else is "Expected ',' or ']' in array literal" |
| GrammarProperties.ArrayItemsList | scripts/load_terraform_config.py:241-252 | the array's list starts with the elements read so far |
| GrammarProperties.EntrySigns | scripts/load_terraform_config.py:263-268 | after a key and trivia, `=` or `:` leads to the value read just after it, and anything else is "Expected '=' or ':' inside object literal" |
| GrammarProperties.ObjectSeparators | scripts/load_terraform_config.py:270-275 | between entries a comma is optional: a comma continues, `}` closes, and anything else starts the next entry |
| GrammarProperties.ObjectEntriesUnique | scripts/load_terraform_config.py:257-275 | a parsed object is a dict with unique keys that keeps every key read so far |
| GrammarProperties.AssignmentsUnique | scripts/load_terraform_config.py:40-52 | the bindings of `parse_assignments` have unique keys |
| GrammarProperties.SingleValueAlone | scripts/load_terraform_config.py:54-60 | a successful `parse_value` read one value with only trivia before it and only trivia after it up to the end of input |
| Directives.SetPath | scripts/load_terraform_config.py:359-372 | a successful store has the first segment as a key, and exactly the old keys plus it |
| Directives.NextLevel | scripts/load_terraform_config.py:362-371 | an absent or null entry gives a new empty map. An existing dict gives its own entries. The walk stops exactly when the entry is neither a dict nor null. |
| Directives.SetPathStores | scripts/load_terraform_config.py:359-372 | after a store, the path leads to the stored value |
| Directives.SetPathKeepsOthers | scripts/load_terraform_config.py:359-372 | a store leaves every path that diverges from it as it was, including sibling keys inside existing intermediate maps |
| Directives.SetPathCreates | scripts/load_terraform_config.py:362-367 | at the first segment, an absent or null entry is replaced by a new map holding the rest of the path, and nothing else changes |
| Directives.SetPathCreatesAt | scripts/load_terraform_config.py:362-367 | at any depth, an intermediate that is absent or null before a successful store holds, afterwards, new maps with only the rest of the path |
| Directives.SetPathIntoEmpty | scripts/load_terraform_config.py:359-372 | storing into an empty map builds the nested maps of the path |
| Directives.SetPathConflict | scripts/load_terraform_config.py:368-370 | at the first segment, an entry that is neither a dict nor null fails with that segment's path-conflict message |
| Directives.SetPathSucceeds | scripts/load_terraform_config.py:359-372 | a store succeeds exactly when no intermediate segment `k` is blocked, where blocked means that what the first `k` segments reach is neither a dict nor null. A store through existing dicts therefore succeeds. |
| Directives.SetPathConflictAt | scripts/load_terraform_config.py:360-370 | when segment `k` is the first blocked one, at any depth, the store fails with the path-conflict message naming that segment, `parts[k-1]` |
| Directives.SetPathFails | scripts/load_terraform_config.py:360-370 | every failing store has a first blocked segment, and fails with the path conflict naming it |
| Directives.StoreOutcome | scripts/load_terraform_config.py:359-372 | a store, as a result: success exactly when nothing is blocked; then the value lies under the path and every diverging path keeps its lookup |
| Directives.SetPathKeepsKeysUnique | scripts/load_terraform_config.py:359-372 | a store keeps the keys of every map unique |
| Directives.SplitAtEquals | scripts/load_terraform_config.py:347 | `split("=", 1)` gives the text before the first `=` and the text after it |
| Directives.SplitAtFirstEquals | scripts/load_terraform_config.py:347 | a text `key + "=" + rest` with no `=` in `key` splits into exactly `key` and `rest` |
| Directives.OrdinaryLinesIgnored | scripts/load_terraform_config.py:336-343 | lines that are not directives leave the map as it is |
| Directives.NoDirectivesNoMetadata | scripts/load_terraform_config.py:333-356 | a text without directives yields the empty map |
| Directives.DirectiveLine | scripts/load_terraform_config.py:336-355 | a directive line with key path `keyPath` and value text `valueRaw` stores the parsed value under the parts of the stripped key path. If the stripped value does not parse, it fails with the unparsable-directive message for the stripped line and the parser's reason. |
| Directives.DirectiveStores | scripts/load_terraform_config.py:347-355 | a directive whose value parses to `v` succeeds exactly when no segment of its path is blocked. It then puts `v` under its dotted path and leaves every diverging path as it was. |
| Directives.DirectiveAhead | scripts/load_terraform_config.py:335-356 | from any line on, when the one directive ahead is well formed, the run from the empty map ends with the nested maps holding its value under its path |
| Directives.OnlyDirective | scripts/load_terraform_config.py:333-356 | a text whose one directive line is well formed yields exactly the nested maps holding its value under its path |
| Directives.DirectiveWithoutEquals | scripts/load_terraform_config.py:344-346 | a directive whose body lacks `=` fails with the missing-`=` message for the stripped line |
| Directives.FailingLineStops | scripts/load_terraform_config.py:335-355 | the first failing line ends the scan with its error |
| Directives.MetadataUnique | scripts/load_terraform_config.py:333-356 | the resulting map has unique keys |
| Directives.ParseMetadata | scripts/load_terraform_config.py:333-356 | the loop returns what the line-by-line reference `Metadata` gives |
| Directives.ReadDirectiveLine | scripts/load_terraform_config.py:336-355 | one round of the loop returns what `MetadataLine` gives |
| Formatter.NeedsQuotes | scripts/load_terraform_config.py:420-428 | a key needs quotes exactly when it is not non-empty with a letter or `_` first and only letters, digits and `_` |
| Formatter.FormatKeyBare | scripts/load_terraform_config.py:431-432 | a key is written as it is exactly when it is a bare key |
| Formatter.FormatKeyReadsBack | scripts/load_terraform_config.py:431-432 | a formatted key is read back by `_parse_key` as the original key |
| Formatter.BareKeyReadsBack | scripts/load_terraform_config.py:431-432 | a bare key followed by a non-identifier character is read as that identifier |
| Formatter.QuotedKeyReadsBack | scripts/load_terraform_config.py:431-432 | a quoted key is read back as the original text |
| Formatter.ShortEscape | scripts/load_terraform_config.py:443 | every short escape the quoting writes is one the parser decodes back to the same character |
| Formatter.HexEscape | scripts/load_terraform_config.py:443 | a `\u` escape is a backslash, `u` and four hex digits |
| Formatter.HexEscapeValue | scripts/load_terraform_config.py:443 | the four digits of a `\u` escape read back as its code |
| Formatter.QuoteReadsBack | scripts/load_terraform_config.py:443 | a quoted basic-plane string is read back by `_parse_string` as that string, whatever follows |
| Formatter.IntToStringValue | scripts/load_terraform_config.py:441 | the rendering of an integer has that integer as its value |
| Formatter.Indent | scripts/load_terraform_config.py:447-448 | `_indent(level)` is 2·level spaces |
| Formatter.FormatValueEnds | scripts/load_terraform_config.py:495-500 | a rendering is never empty and ends with neither a line feed nor a comma |
| Formatter.FormatList | scripts/load_terraform_config.py:451-468 | a rendered list ends with `]` |
| Formatter.FormatListText | scripts/load_terraform_config.py:451-468 | an empty list is `[]`; otherwise `[`, then the elements one per line, then `]` at the list's indentation |
| Formatter.ElementLinesText | scripts/load_terraform_config.py:457-466 | an element's lines join to its rendering, indented one level deeper and followed by a comma unless it is the last element |
| Formatter.ElementCommas | scripts/load_terraform_config.py:459-466 | an element's last line ends with `,` exactly when the element is not the last |
| Formatter.ListLinesText | scripts/load_terraform_config.py:456-466 | the element lines join to the element texts on successive lines |
| Formatter.KeyWidth | scripts/load_terraform_config.py:476-479 | the padding is the length of the longest formatted key: no key is longer and some key has it |
| Formatter.FormatObject | scripts/load_terraform_config.py:471-492 | a rendered map ends with `}` |
| Formatter.FormatObjectText | scripts/load_terraform_config.py:471-492 | an empty map is `{}`; otherwise `{`, then the entries one per line, then `}` at the map's indentation |
| Formatter.EntryLinesText | scripts/load_terraform_config.py:480-490 | the entry lines join to the entry texts on successive lines |
| Formatter.EntryPrefixColumns | scripts/load_terraform_config.py:482-484 | an entry's prefix is the indentation, then the formatted key, then spaces up to the padding, then `= ` |
| Formatter.EqualsAligned | scripts/load_terraform_config.py:476-486 | every entry of a map has its `=` at column indent + longest formatted key + 1, preceded by a space |
| Formatter.DumpTfvarsText | scripts/load_terraform_config.py:503-512 | the document is the `key = value` texts one after the other, each ending with a line feed, and a lone line feed when empty |
| Formatter.AssignmentLinesText | scripts/load_terraform_config.py:505-511 | a top-level entry's lines join to its raw key, ` = ` and its rendering |
| Formatter.DumpEndsWithOneNewline | scripts/load_terraform_config.py:503-512 | the document ends with exactly one line feed, and is just a line feed exactly when there is nothing to dump |
| RoundTrip.IntReadsBack | scripts/load_terraform_config.py:441 | a rendered integer followed by a boundary reads back as that integer and no more |
| RoundTrip.KeywordReadsBack | scripts/load_terraform_config.py:437-439 | `true`, `false` and `null` followed by a boundary read back as their values |
| RoundTrip.ScalarReadsBack | scripts/load_terraform_config.py:435-444 | every rendered scalar but a float, strings of the basic plane, reads back by `_parse_value` as that scalar, consuming exactly its rendering |
| RoundTrip.FormatValueReadsBack | scripts/load_terraform_config.py:451-500 | what `_format_value` writes for a value without floats, with basic-plane strings and keys and no key twice in a map, followed by nothing or by a boundary character, `_parse_value` reads back as the same value and stops right after it |
| RoundTrip.ValueReadsBackAt | scripts/load_terraform_config.py:143-156 | such a rendering anywhere in a text, after trivia and before a boundary, is read as that value, ending right after it |
| RoundTrip.ListReadsBack | scripts/load_terraform_config.py:238-252 | a rendered list (`[]`, or one element per line with commas between) is read by `_parse_array` as the same list, ending after its `]` |
| RoundTrip.ListItemsReadBack | scripts/load_terraform_config.py:241-252 | the element lines from the `k`-th on and the closing line are read as the whole list, with the elements before the `k`-th already taken |
| RoundTrip.ObjectReadsBack | scripts/load_terraform_config.py:254-275 | a rendered map (`{}`, or one aligned `key = value` line per entry) is read by `_parse_object` as the same map, in the same order, ending after its `}` |
| RoundTrip.EntriesReadBack | scripts/load_terraform_config.py:257-275 | the entry lines from the `k`-th on and the closing line are read as the whole map, with the entries before the `k`-th already bound |
| RoundTrip.EntryReadsBack | scripts/load_terraform_config.py:261-268 | an entry line is read as its key, and then its value after the aligned `=` |

## Left out

- `main`, `_load_secret`, `_append_env`, `_ensure_parent`, `_serialize_for_env` and `_parse_tfvars` are environment, file and GitHub Actions glue outside this model. So are `_format_with_terraform`, which runs the `terraform` binary, and the printing side of `_error`; its `SystemExit` is an `Err` result.
- `float(raw)` and `repr(float)`: floating point is not modelled. A float keeps the literal text it was parsed from, the formatter writes that text, and `Renderable` states that it is number text. There is therefore no round trip for floats.
- `json.dumps` is written out as its default `ensure_ascii` escaping (`Formatter.EscapeChar`), not taken from the library.
- Formatter.QuoteReadsBack: the read-back is stated only for strings whose characters are all in the basic multilingual plane (`BasicPlane`). Above it, `json.dumps` writes a surrogate pair of `\u` escapes. The source decodes those into two lone surrogates, not into the original character, and a Dafny `char` cannot hold a lone surrogate.
- Formatter.FormatKeyReadsBack: restricted to basic-plane keys for the same reason.
- RoundTrip.ScalarReadsBack: restricted to basic-plane strings for the same reason, and floats are excluded.
- RoundTrip.FormatValueReadsBack: restricted, through `Readable`, to basic-plane strings and keys for the same reason, with floats excluded at any depth. Maps must have unique keys, which every Python dict has but a Dafny sequence of pairs need not.
- Grammar.StringPieceAt: a `\u` escape of a surrogate code (`D800`–`DFFF`) fails with "Invalid unicode escape in string". The source builds a lone surrogate with `chr`, which a Dafny `char` cannot represent.
- Character classes are ASCII only. This covers `isalpha`, `isalnum` and `isdigit` in keys, identifiers and numbers, and the white space of `strip()`. `splitlines()` splits on line feeds only.
- Parser: after an error the parser's cursor is unspecified, because the source abandons the parser once the exception propagates.
- `ParseState.length` and `ParseState.remaining` are not modelled. `length` is `|text|` and `remaining` is not used by the parser.
- Directives.SetPath: `_metadata_set` updates the nested dicts in place through a `cursor` and aliasing. The model rebuilds the nested maps along the path as values. An existing intermediate dict is therefore not shared with any other reference.
- Several loop bodies of the source are split into helper methods: `SkipIgnoredPiece`, `ReadStringPiece`, `ScanFraction`, `ScanExponent`, `ScanDigits`, `ScanToLineEnd`, `ParseKeyword`, `ParseArraySeparator`, `ParseEntryValue`, `ParseObjectSeparator`, `ParseHeredocLines` and `ReadDirectiveLine`. They run the same steps in the same order.
- `_format_list`, `_format_object` and `_dump_tfvars` build their `lines` lists in `for` loops. The model builds the same lists with recursive functions.
- `_format_scalar` raises `TypeError` for a value of another type, which the closed value datatype cannot hold.
- The `if not rendered: continue` guard of `_dump_tfvars` is never taken, because a rendering is never empty (`Formatter.FormatValueEnds`). The model leaves it out.
- `_dump_tfvars` writes top-level keys raw, not through `_format_key`. So no document-level round trip is claimed. The round trip stops at `_format_value`.
- Grammar.NumberAt: CPython's `int(raw)` refuses a literal of more than 4300 digits (`sys.set_int_max_str_digits`), with a `ValueError` that is not a `TfvarsParseError`. The model reads integer literals of any length.
- Formatter.IntToString: `repr` of an integer above the same 4300-digit limit raises `ValueError` in CPython. The model renders integers of any size.
