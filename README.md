# OpcodeGUI text core in Dafny

OpcodeGUI is a small WPF editor for protocol-buffer schema files. Apart from
its dialogs, settings and the `protoc` subprocess, its main window holds four
text algorithms over the document and the caret. This project models those
four algorithms and proves what they promise:

1. **The reformatter.** `Format` normalises the layout of one piece of code
   and re-indents it with a tab-string depth tracker. `AutoFormat` hides
   escaped backslashes and quotes behind control characters, cuts the buffer
   at its quotes, copies string literals through, formats the code between
   them and carries the caret into the new text.
2. **The completion classifier and auto-indent.** These are the reaction to a
   typed character (`ContentText_TextArea_TextEntered`), the quantities it
   reads (`CurrentLineText`, `CurrentLineContent`, `CurrentLineParse`) and
   `CurrentWrite`, which inserts at the caret.
3. **The brace-fold extractor.** `BraceFoldingStrategy.CreateNewFoldings`
   matches braces with a stack and emits the pairs that span a line break,
   sorted by start. The model proves the folds are exactly the matched brace
   pairs (balanced inside, never closing early) that hold a line break,
   whenever the two braces differ and neither is a line break.
4. **The opcode generator.** `GenerateOpcode` derives a base index, a
   namespace and the declared messages from the lines of a `.proto` file. It
   renders a C# file with one wrapper class and one numbered `ushort`
   constant per message.

The modules are:

- `Strings` (`strings.dfy`): .NET string operations on `seq<char>`.
  - `Replace`: leftmost, non-overlapping, left to right.
  - `Split`: always at least one piece.
  - `Join`.
  - `Erase`: deletes layout (space, tab, CR, LF) and reads the full-width
    semicolon as `;`. It is the yardstick for "changes only layout".
- `Formatter` (`formatter.dfy`):
  - `FormatSpec`: what `Format` computes. It is the twelve normalisation
    passes, then a left fold of `EmitLine` over the lines.
  - The method `Format`, with its `while (Contains)` loops and line loop.
- `AutoFormatting` (`autoformat.dfy`):
  - `Protect` and `Restore`, the sentinel substitutions.
  - The segment pass as a left fold (`FormatSegments`).
  - `AutoFormatSpec`.
  - The literal, layout and caret lemmas.
- `Completion` (`completion.dfy`): the decision of `TextEntered` as a total
  function `React`.
- `Editing` (`editor.dfy`): the class `Editor` with the fields `text` and
  `caret`, holding the editor's members and the imperative `AutoFormat` and
  `TextEntered`.
- `Folding` (`folding.dfy`):
  - `Scan`, the character pass as a function.
  - The class `BraceFoldingStrategy` with its brace fields and the method
    `CreateNewFoldings`.
- `Opcodes` (`opcode.dfy`):
  - Header discovery.
  - The two message patterns, as hand-written matchers.
  - The rendering functions.
  - The method `GenerateOpcode`, region by region.

Two facts about the code that the model follows:

- On a line break the top-level keywords are offered when
  `CurrentLineParse` is empty, that is when the brace depth before the caret
  is zero (MainWindow.xaml.cs:337), whatever the previous line holds.
  `Completion.React` states this case.
- `CurrentLineParse` (MainWindow.xaml.cs:469-471) counts every `{` and `}`
  in the whole prefix, literals and comments included, and clamps only the
  final balance at zero. `Format`'s depth tracker clamps at each step, so on
  `}{` the first gives no tab and the second gives one. `Editing.BraceDepth`
  follows the code.

## Model

All source cells refer to `MainWindow.xaml.cs`.

| member | source | states |
|---|---|---|
| Strings.Replace | MainWindow.xaml.cs:509-511 | `String.Replace` leaves a text without the pattern unchanged |
| Strings.ReplaceKeepsLength | MainWindow.xaml.cs:509-511 | a replacement as long as its pattern keeps the length of the text |
| Strings.ReplaceRoundTrip | MainWindow.xaml.cs:554-556 | replacing back restores the text when the replacement's first character did not occur in it |
| Strings.ReplaceAvoids | MainWindow.xaml.cs:509-511 | a character in neither the text nor the replacement is not in the result |
| Strings.Split | MainWindow.xaml.cs:455 | `Split(c)` gives one piece more than there are separators, and no piece holds `c` |
| Strings.JoinSplit | MainWindow.xaml.cs:513 | joining the pieces of a split at the quotes gives the text back |
| Strings.SplitJoin | MainWindow.xaml.cs:513 | splitting the join of separator-free pieces gives the pieces back |
| Strings.SplitLast | MainWindow.xaml.cs:455-456 | the last piece ends the text and, unless it is the whole text, comes right after a separator |
| Strings.EraseReplace | MainWindow.xaml.cs:566-572 | a replacement whose pattern and replacement differ only in layout changes only layout |
| Strings.ReplaceCharLength | MainWindow.xaml.cs:469 | replacing one character changes the length by its count times the growth |
| Strings.ReplaceCharCount | MainWindow.xaml.cs:469 | replacing one character by text free of another keeps that other character's count |
| Formatter.Collapse | MainWindow.xaml.cs:573-575 | after a `while (Contains) Replace` loop with a shorter replacement, the pattern no longer occurs |
| Formatter.NormalizeRewrite | MainWindow.xaml.cs:566-577 | every normalisation pass has a non-empty pattern, and every collapse loop a shorter replacement, so each loop ends |
| Formatter.NormalizeIsPasses | MainWindow.xaml.cs:566-577 | the normalisation is exactly the twelve passes in the order the code runs them |
| Formatter.NormalizeText | MainWindow.xaml.cs:566-577 | the statements and three collapse loops compute the normalisation |
| Formatter.EmitLine | MainWindow.xaml.cs:582-602 | after every line the output is non-empty and ends in a line break |
| Formatter.EmitLines | MainWindow.xaml.cs:580-603 | after a non-empty line list the output ends in a line break, so the final trim at 605 never underflows |
| Formatter.IndentLines | MainWindow.xaml.cs:579-603 | the line loop computes the fold of `EmitLine` over the lines, with the tracker threaded through |
| Formatter.IndentLine | MainWindow.xaml.cs:582-602 | one iteration of the line loop performs the step `EmitLine` folds, including the join of a comment line to the previous one |
| Formatter.Format | MainWindow.xaml.cs:564-608 | the method returns the text and leaves the tracker as `FormatSpec` says |
| Formatter.FormatEmpty | MainWindow.xaml.cs:564-608 | formatting an empty piece gives nothing and keeps the tracker |
| Formatter.CommentMarkersArePadded | MainWindow.xaml.cs:570 | once comment markers are padded, the text does not start with `//` |
| Formatter.FirstLineIsNotComment | MainWindow.xaml.cs:570-596 | the first normalised line never starts with `//`, so the trim at 596 always has a previous line |
| Formatter.NormalizedHasNoTabs | MainWindow.xaml.cs:566-567 | the normalised text holds no carriage return and no tab |
| Formatter.RewriteIsLayout | MainWindow.xaml.cs:566-577 | each pass trades layout for layout: pattern and replacement erase to the same text |
| Formatter.NormalizeChangesOnlyLayout | MainWindow.xaml.cs:566-577 | the normalisation changes only layout |
| Formatter.EmitLinesChangesOnlyLayout | MainWindow.xaml.cs:580-603 | the line loop adds exactly the non-layout text of its lines, and the tracker stays made of tabs |
| Formatter.FormatChangesOnlyLayout | MainWindow.xaml.cs:564-608 | `Format` changes only whitespace, and reads the full-width semicolon as `;` |
| Formatter.DropFinalBreak | MainWindow.xaml.cs:605 | dropping the final line break changes only layout |
| Formatter.EmitLinesTracksDepth | MainWindow.xaml.cs:582-593 | the tracker is always one tab per open `{` line, never below zero |
| Formatter.FormatTracksDepth | MainWindow.xaml.cs:564-608 | after `Format` the tracker is the tab string of the nesting depth of the normalised lines |
| Formatter.EmitLineIndent | MainWindow.xaml.cs:584-601 | a line not joined to the previous one is written after one tab per enclosing block, with the depth taken after the brace on a `}` line and before the line otherwise |
| Formatter.FormatWithoutBracesKeepsDepth | MainWindow.xaml.cs:582-593 | a piece without braces leaves the tracker unchanged |
| AutoFormatting.ProtectKeepsLength | MainWindow.xaml.cs:506-511 | hiding the escapes keeps every offset, so the caret needs no adjustment |
| AutoFormatting.RestoreKeepsLength | MainWindow.xaml.cs:554-556 | restoring the escapes keeps every offset |
| AutoFormatting.RestoreProtect | MainWindow.xaml.cs:509-511 | restoring after protecting is the identity on text without the three sentinels |
| AutoFormatting.ProtectHidesBackslashes | MainWindow.xaml.cs:509 | no backslash is left to escape a quote when the text is split |
| AutoFormatting.SpliceCaretBetweenHalves | MainWindow.xaml.cs:531-546 | the caret lands after the formatted first half, less one suppressed line break, and right before the formatted second half |
| AutoFormatting.LiteralStepTracks | MainWindow.xaml.cs:517-520 | a literal is copied, and a caret inside it stays on the same character |
| AutoFormatting.AheadStepTracks | MainWindow.xaml.cs:523-528 | a segment before the caret shifts it by exactly the segment's change in length |
| AutoFormatting.SplitStepTracks | MainWindow.xaml.cs:529-547 | in the segment that holds it, the caret is placed after the same non-layout text as in the input |
| AutoFormatting.BehindStepTracks | MainWindow.xaml.cs:548-551 | later segments do not move the caret |
| AutoFormatting.SegmentsTrack | MainWindow.xaml.cs:515-553 | the segment loop keeps output and caret in step with the input consumed |
| AutoFormatting.ConsumedAll | MainWindow.xaml.cs:513-520 | the input the loop consumes is the text, with a closing quote added to a literal left open |
| AutoFormatting.FormatProtectedKeepsCaret | MainWindow.xaml.cs:503-553 | the loop changes only layout, apart from that added quote, and ends with the caret inside the output, after the same non-layout text |
| AutoFormatting.SegmentStepKeeps | MainWindow.xaml.cs:515-552 | each step keeps every earlier literal verbatim and every earlier code segment up to layout |
| AutoFormatting.FormatProtectedKeepsLiterals | MainWindow.xaml.cs:513-553 | every literal is kept verbatim and every code segment up to layout; the output holds an even number of quotes |
| AutoFormatting.AutoFormatCaretInBounds | MainWindow.xaml.cs:558-560 | the caret written back lies within the new text |
| AutoFormatting.AutoFormatKeepsMeaning | MainWindow.xaml.cs:501-562 | on text without backslashes: literals are kept, code changes only in layout, an open literal is closed, and the caret stays on the same text |
| Completion.Stripped | MainWindow.xaml.cs:442 | the characters of the current line other than tabs and spaces, in their order |
| Completion.RemoveBlanks | MainWindow.xaml.cs:442 | removing every tab and then every space keeps exactly the other characters, in their order |
| Completion.React | MainWindow.xaml.cs:334-389 | each typed text maps to its reaction (see the table below), both directions of each case, including the member-field offer after a line break |
| Editing.FormatSegment | MainWindow.xaml.cs:517-551 | one iteration of the segment loop performs the step `FormatSegments` folds |
| Editing.FormatAtCaret | MainWindow.xaml.cs:529-547 | the caret branch, with its two trims, performs the caret step |
| Editing.Editor.CurrentLineText | MainWindow.xaml.cs:449-458 | the text after the last line break before the caret: no line break in it, a suffix of the prefix, preceded by a line break unless it starts the text |
| Editing.Editor.CurrentLineContent | MainWindow.xaml.cs:438-444 | the current line without spaces, tabs and line breaks: the other characters, in their order |
| Editing.Editor.CurrentLineParse | MainWindow.xaml.cs:463-474 | one tab per `{` before the caret less one per `}`, never below zero, with literals and comments counted too |
| Editing.BraceLengthIsDepth | MainWindow.xaml.cs:469 | doubling each `{` and dropping each `}` changes the length by the brace balance |
| Editing.Editor.CurrentWrite | MainWindow.xaml.cs:480-489 | the text becomes prefix, insert, suffix; the caret moves past the insert; without a line break in the insert, the current line grows by it |
| Editing.Editor.AutoFormat | MainWindow.xaml.cs:501-562 | the new text and caret are the ones `AutoFormatSpec` describes, so the `AutoFormatting` lemmas apply to them |
| Editing.Editor.TextEntered | MainWindow.xaml.cs:332-390 | the editor carries out `React`'s decision: offer a list, insert the missing indent then offer, reformat, or change nothing |
| Editing.Editor.BreakLine | MainWindow.xaml.cs:336-360 | a line break at depth 0 offers the top-level words; otherwise the tabs missing from the line are inserted and the field types offered |
| Folding.SortByStart | MainWindow.xaml.cs:1037 | the folds sorted by start: sorted, and a permutation of the input |
| Folding.InsertByStart | MainWindow.xaml.cs:1037 | insertion into a sorted list stays sorted and adds exactly that fold |
| Folding.ScanStepKeepsInvariant | MainWindow.xaml.cs:1016-1036 | one character keeps the open-brace stack increasing and on opening braces, the line start just after a line break, every fold starting at an opening brace and spanning a line break, and any two folds nested or disjoint with distinct starts |
| Folding.ScanHasInvariant | MainWindow.xaml.cs:1012-1036 | that invariant holds after every prefix, and the pass never makes more folds than it has seen opening or closing braces |
| Folding.SortingKeepsFolds | MainWindow.xaml.cs:1037 | sorting keeps every fold a fold, and any two folds nested or disjoint |
| Folding.FoldsUseBraces | MainWindow.xaml.cs:1019-1031 | there are no more folds than opening braces, nor than closing braces |
| Folding.BalanceCounts | MainWindow.xaml.cs:1019-1031 | the running balance of a stretch is its opening braces minus its closing braces |
| Folding.NeverBelowPrefixes | MainWindow.xaml.cs:1019-1031 | a stretch never closes more braces than it opened exactly when every prefix has a non-negative balance |
| Folding.ScanPairs | MainWindow.xaml.cs:1012-1036 | with distinct braces, after every prefix each stacked brace is still unclosed with as many braces open after it as lie above it, every unclosed opening brace is on the stack, and every fold is a matched pair |
| Folding.SameBracesFoldNothing | MainWindow.xaml.cs:1019-1031 | when the two braces are the same character, the pass makes no fold |
| Folding.ScanSeesBreaks | MainWindow.xaml.cs:1032-1035 | when neither brace is a line break, the recorded line start lies past every line break read so far |
| Folding.FoldingsGrow | MainWindow.xaml.cs:1028 | a fold made after a prefix is still there after any longer prefix |
| Folding.MatchedOnTop | MainWindow.xaml.cs:1022-1024 | just before the closing brace of a matched pair, its opening brace is on top of the stack |
| Folding.PopFolds | MainWindow.xaml.cs:1022-1029 | a closing brace whose opening brace is on top of the stack and lies before the last line break makes that fold |
| Folding.FoldedPairIsMatched | MainWindow.xaml.cs:1016-1036 | every fold the pass makes is a matched brace pair over a line break |
| Folding.MatchedPairIsFolded | MainWindow.xaml.cs:1016-1036 | with distinct braces that are not line breaks, every matched brace pair over a line break is folded |
| Folding.ScanFoldsMatchedPairs | MainWindow.xaml.cs:1012-1036 | with distinct braces that are not line breaks, the pass folds a span exactly when it is a matched brace pair over a line break |
| Folding.BraceFoldingStrategy.constructor | MainWindow.xaml.cs:983-987 | the braces default to `{` and `}` |
| Folding.BraceFoldingStrategy.CreateNewFoldings | MainWindow.xaml.cs:1008-1039 | the folds of the pass, sorted by start: each is a matched brace pair (balanced inside, never closing early) over a line break, and with two distinct braces that are not line breaks every such pair is folded |
| Folding.BraceFoldingStrategy.CreateNewFoldingsWithError | MainWindow.xaml.cs:999-1003 | the same folds with the same soundness and completeness, and the error offset is always -1 |
| Opcodes.ParseDecimalString | MainWindow.xaml.cs:851 | `int.Parse` reads back the decimal text of a number |
| Opcodes.IndexLineValue | MainWindow.xaml.cs:848-851 | a line has a value exactly when it holds a character other than `/` and space, and every such character is a digit |
| Opcodes.IndexLineShape | MainWindow.xaml.cs:848-849 | deleting `/` and spaces leaves a non-empty run of digits exactly when some character is neither and all such are digits |
| Opcodes.BaseIndex | MainWindow.xaml.cs:840-854 | the value of the first index line, and 0 when there is none |
| Opcodes.FindBaseIndex | MainWindow.xaml.cs:845-854 | the scan, which stops at the first match, computes `BaseIndex` |
| Opcodes.IndexOf | MainWindow.xaml.cs:859 | the first offset where a pattern occurs, or none when it occurs nowhere |
| Opcodes.PackageNameIsFirstMatch | MainWindow.xaml.cs:859-865 | the name taken is the group of the leftmost, shortest match of `package (.*?);`, and there is none when the pattern matches nowhere |
| Opcodes.ShortestGroup | MainWindow.xaml.cs:859 | at a `package ` keyword the group ends at the first `;` after it |
| Opcodes.Namespace | MainWindow.xaml.cs:841-868 | the group of the first line that matches, or `Secode.Network` |
| Opcodes.FindNamespace | MainWindow.xaml.cs:857-868 | the scan, which stops at the first match, computes `Namespace` |
| Opcodes.SkipWs | MainWindow.xaml.cs:882-883 | a greedy `\s*`: it skips exactly a run of whitespace |
| Opcodes.TrimEndWs | MainWindow.xaml.cs:882-883 | a lazy group before `\s*`: a prefix with nothing but whitespace after it and no whitespace at its end |
| Opcodes.ParseEntity | MainWindow.xaml.cs:882-890 | a line declares a message exactly when it starts with `message` and whitespace; the name is trimmed, and so is the start of the supertype |
| Opcodes.SupertypeNamedWhenNotBlank | MainWindow.xaml.cs:890-893 | the supertype is blank exactly when it is empty |
| Opcodes.ParseMessageLine | MainWindow.xaml.cs:882-890 | parsing a written declaration gives back its entity |
| Opcodes.PlainLineParses | MainWindow.xaml.cs:883-889 | `message Name` declares `Name` without a supertype |
| Opcodes.CommentLineParses | MainWindow.xaml.cs:882-890 | `message Name // Super` declares `Name` with supertype `Super` |
| Opcodes.FirstComment | MainWindow.xaml.cs:882 | after a plain name, the comment marker found is the one after it |
| Opcodes.Entities | MainWindow.xaml.cs:884-889 | at most one message per line |
| Opcodes.EntitiesAppend | MainWindow.xaml.cs:884-889 | the messages of two runs of lines follow each other in file order |
| Opcodes.EntitiesAreMessageLines | MainWindow.xaml.cs:884-889 | the k-th message is the one parsed from the k-th line that starts with `message` and whitespace |
| Opcodes.MessageLines | MainWindow.xaml.cs:882-888 | only lines starting with `message` and whitespace are kept, so indented messages are not picked up |
| Opcodes.OpcodeClassName | MainWindow.xaml.cs:842 | a name without `Message` is kept as it is |
| Opcodes.OpcodeClassOfMessageFile | MainWindow.xaml.cs:842 | a message file `XMessage`, where `X` does not hold `Message`, gets the opcode class `XOpcode` |
| Opcodes.NotMessageAtStart | MainWindow.xaml.cs:842 | appending `Message` to a non-empty name without `Message` does not put `Message` at the start |
| Opcodes.RenderFrame | MainWindow.xaml.cs:873-942 | the file opens with `namespace NS` and `{`, and closes with `    }` and `}` |
| Opcodes.WrappersPrefix | MainWindow.xaml.cs:884-903 | the wrappers of the first k messages start the wrapper block |
| Opcodes.ConstantsPrefix | MainWindow.xaml.cs:925-934 | the constants of the first k messages start the constant block |
| Opcodes.MessagesInOrder | MainWindow.xaml.cs:884-934 | both blocks list the messages in the same order; the (k+1)-th constant is `base + k + 1`, so the values are consecutive and increasing |
| Opcodes.ConstantValue | MainWindow.xaml.cs:932 | a constant declares the name with the decimal text of its value, which reads back as that value |
| Opcodes.DeclaredWrapper | MainWindow.xaml.cs:891-902 | each message gets its `[Message]` attribute and a partial class, which extends the supertype exactly when one was named |
| Opcodes.DecimalIndexLine | MainWindow.xaml.cs:848-851 | a line holding the decimal text of a number is an index line with that value |
| Opcodes.NumberingExample | MainWindow.xaml.cs:840-934 | below base line `n`, a plain declaration and one with a supertype become constants `n + 1` and `n + 2`, and only the second wrapper extends a supertype |
| Opcodes.AppendWrapper | MainWindow.xaml.cs:891-902 | one message's attribute and partial class are appended |
| Opcodes.AppendWrappers | MainWindow.xaml.cs:884-903 | the loop appends the wrappers of all messages in file order |
| Opcodes.AppendConstant | MainWindow.xaml.cs:932-933 | one constant declaration and a line break are appended |
| Opcodes.AppendConstants | MainWindow.xaml.cs:925-934 | the loop appends the constants of all messages, and ends with the index at base plus the number of messages |
| Opcodes.GenerateOpcode | MainWindow.xaml.cs:838-944 | the generated text is `OpcodeFile` of the lines: base index, namespace, class name, both blocks and the frame |

`Completion.React` states, for a typed text, the current line and the brace
indent `parse`:

- `{`, `;` and `}`, and only these, reformat.
- A line break offers the top-level words `syntax`, `message` and `package`
  exactly when `parse` is empty.
- Otherwise a line break offers the six field types. When the line is
  shorter than `parse`, it first inserts enough tabs to make the line as
  long as `parse`; an all-tab line then equals `parse` exactly.
- `=` offers the two syntax versions exactly when the stripped line is
  `syntax=`.
- A space offers the five types exactly when the stripped line is
  `repeated`.
- Anything else does nothing.

## Left out

- The WPF and AvalonEdit surface is not modelled: the completion window and
  its entries, `TextEntering`, highlighting, the folding timer and manager,
  and focus. `TextEntered` returns the list it would show.
- `UpdateFoldings` is not modelled; it only hands the folds to the folding
  manager.
- File and process I/O is not modelled:
  - reading the `.proto` file (`GenerateOpcode` takes its lines);
  - `LoadList`, `LoadContent`, `New`, `Delete`, `Save`, `SaveContent`,
    `OpenProtocPath` and `Log`;
  - the path properties;
  - `Run`, with its `cmd.exe`/`protoc` call and the `Google.Protobuf` rewrite
    of the generated code.
- `Setting.xaml.cs` and `TextInput.xaml.cs` are not modelled; they are
  dialogs and a settings store.
- `Environment.NewLine` is a parameter of the generator.
- The generator takes `CurrentOption`'s file name as a parameter. The "name
  ends with `Message`" check and the `Message`→`Opcode` rename on save are
  not modelled, as they are file handling.
- Lines contain no line breaks, as `File.ReadAllLines`
  (MainWindow.xaml.cs:843) guarantees. The matchers are faithful only on
  such lines, where .NET's `.` and `$` cannot meet a line break.
- The general regular-expression engine is not modelled. The three fixed
  patterns are hand-written matchers:
  - `\d` is ASCII digits only;
  - `\s` is the .NET whitespace set.
- `int.Parse` overflow is not modelled: indices are unbounded `nat`. The
  `ushort` range of the emitted constants is not checked, as in the code.
- `List.Sort` is not stable. The pass never produces two folds with the
  same start (`Folding.ScanInvariant`), so the sorted order is unique and
  stability does not matter. `Folding.SortByStart` is an insertion sort
  that promises sortedness and a permutation.
- `String.EndsWith` and `StartsWith` are culture-sensitive in .NET; the
  model compares characters ordinally.
- AutoFormatting.AutoFormatKeepsMeaning is proved for text without
  backslashes and without the three sentinel characters. With backslashes,
  the model still computes the code's output (`Editing.Editor.AutoFormat`
  ensures `AutoFormatSpec`). The lemmas about the protected text
  (`FormatProtectedKeepsLiterals`, `FormatProtectedKeepsCaret`) hold for
  every text, but are stated in the coordinates of the protected text.
- Idempotence of the reformatter (formatting its own output again changes
  nothing outside literals) is not stated. It needs a fixpoint argument over
  the twelve passes and the tracker that the model does not make.
