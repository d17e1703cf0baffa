# A verified model of a Bash language server

gols-bash is a language server for Bash, written in Go. It keeps open buffers, an index of parsed
files and a cache of diagnostics consistent while a client, a background scanner and the disk all
change things at once, and it answers queries about symbols with positions that a client can apply as
edits. This project is a model of that logic in Dafny: byte strings and trees, the operations as
functions and as methods of classes that change state, and runs as sequences of small steps. The results
are about every text, every tree that the parser may return, and every run.

The modules follow the program.

- **Positions.** `Bytes`, `Utf8`, `LspPosition`, `Positions`, `ShellCheckPosition` and `ShellCheckUtf16`
  model the three converters between byte offsets and line/character pairs. `Positions.Locates` is the
  server's count, against which the converters are proved. `ClientPosition.Denotes` is the meaning that
  LSP 3.17 ("Position", "Text Documents") gives a position, with its line ends `\n`, `\r\n` and `\r`, and
  `ClientPosition` says exactly when the two agree; what is said below of a client is said with it.
- **Symbols.** `Syntax` is the part of the parse tree the analyser looks at, `Analyser` the two walkers,
  `SourceGraph` the breadth-first search over `source` edges, and `Index` the queries over a component.
  `Traversal`, `Occurrences` and `SourceCommands` say what these find without the walkers: by paths in the
  tree, by nodes, and by the bytes of the commands. `Selection` is about items picked from a list.
- **Rename, definition, references, completion.** `Edits` says what it means to apply LSP edits at once.
  `RenameTree` renames a tree, `RenameText` shows that the edits sent produce exactly the text of that
  tree, `RenameMeaning` what a rename does to a component, and `SourceRename` when it takes the component
  apart. `Rename`, `Definition`, `References` and `Completion` are the requests. `DefinitionAnswers` and
  `CompletionItems` say what is answered in terms of the files alone. `DefinitionRename` shows that
  definition commutes with rename.
- **The workspace as a cache.** `Scanner`, `Documents` and `Workspace` model the operations.
  `Coherence` interleaves the message handler, the background scanner, the disk and the watcher in small
  steps and proves an invariant over every run; `ShebangRace` and `SkippedDirectories` give the runs in
  which the cache is not what one would expect, and the exact conditions that exclude them; `RenameInRun`
  and `DefinitionInRun` carry the results about rename and definition into every reachable state in which
  the handler can answer a query.
- **The server.** `Server` handles messages in a class that owns documents, index and caches; `ServerRuns`
  proves what was published and cached after any run, and `ClientView` what that means to a client, message
  by message; `Lifecycle` and `ExitStatus` cover shutdown, exit
  and the result of `Run` over every schedule.

Imperative code is modelled by classes and methods with loops, each proved equal to a function of its
inputs or its old state; the theorems are lemmas about those functions and about runs. Inductions are
written out: automatic induction is off wherever it would apply.

## Places where a simple claim is false

- The server ends lines at `\n` only, a client also at a lone `\r`. The server's positions mean to the
  client what the server meant exactly where no lone `\r` comes before:
  `ClientPosition.ServerPositionReadIff`, `ClientPositionReadIff`, and `LoneReturnMisread` as the input.
- The range of a usage is not always that of its name: in a file with `\r\n` line ends the parser ends the
  last literal of a line after the `\r` (vendor/mvdan.cc/sh/v3/syntax/lexer.go:85-89), and the server sends
  that end. A client reads it as the end of the line (`ClientPosition.LineEndClamped`), so its edit is that
  of the name alone (`RenameText.ReturnKept`), and the results about rename hold for such usages as well.
- The UTF-8 converter does not clamp at the line end, as the UTF-16 converter and LSP 3.17 ("Position")
  do: `LspPosition.OffsetUtf8OnLine` gives the exact condition, `OffsetUtf8DoesNotClamp` an input.
- A rune cut short by the end of the text makes the UTF-16 converter return an offset beyond the text,
  by three bytes at most: `OffsetUtf16WithinIff`, `OffsetUtf16Overshoots`, `AdvanceOvershoot`.
- The ShellCheck converter counts a replaced byte as three under UTF-8: `ShellCheckUtf8Exact` gives the
  exact answer for any bytes, `ShellCheckDiffersOnInvalid` an input. Under UTF-16 it counts it as one, and
  `ShellCheckUtf16.ShellCheckUtf16Iff` says for which lines that agrees with `posForOffset`. These lemmas
  are about the function alone: the server lints only texts without a parse error, and the parser accepts
  no invalid UTF-8.
- Renaming from `source`, or from another name to it, changes the source graph:
  `SourceRename.SourceKeptIff` is the condition, and in `RenamingSourceDisconnects` a component of two
  files comes apart. (`.` is a source command too, but no valid new name.)
- The word under a cursor may extend beyond the name used there: `DefinitionRename.CursorOnUseIff` is the
  condition, `CursorBeyondName` the input `$foo-bar`.
- A file without an extension can stay indexed after it has lost its shebang, unless no scan visits it:
  `ShebangRace.IndexedOnlyScriptsIff`.
- A scan does not enter some directories, while a watched change or a close indexes files in them, so a
  finished scan is complete for a file exactly if it lies in none: `SkippedDirectories.ScanCompleteIff`.
- A save that carries a text changes the buffer without linting it: `ServerRuns.ActionsCurrentIff`,
  `ServerRuns.SavedTextNotLinted`.
- `completion` means to answer nothing inside a comment, but its test looks at a prefix that never
  contains `#`: `Completion.CommentGuardNeverFires`.
- `Run` does not always return. The connection keeps its last error in a cell that takes values of one
  type only (vendor/go.lsp.dev/jsonrpc2/conn.go:72, 242-245). If a reply has failed and the read loop then
  ends on a cancelled context, a line that is no header, or a message with neither method nor id, recording
  the second error panics: `ExitStatus.CrashIff` is the exact condition, `ExitAfterFailedReply` and
  `CancelledRequest` are two such schedules.
- A file that is not indexed finds its neighbours but is not found by them: `SourceGraph.NeighbourSymmetric`
  and `FoundBackIff` give the conditions, `NotIndexedNotFound` the consequence.

## Assumptions

- The parser is any function from texts to an optional tree and an optional error. Two things are assumed
  of a tree, only where a result names them, and only for the texts that the request consults.
  `Syntax.Placed`: the literals lie inside the text and do not overlap; they may be empty, and may cover
  more than they say. `Analyser.Spelled`: the usages of the one name in question spell it, with line and
  column; the span of a usage ends with the name, or after the `\r` of a line end, and then no other usage
  of the name starts at the `\n`. So a name with a line continuation inside, a name before a null byte, and
  a usage in a column that overflowed are excluded, but other words of the same file may be such.
  `Definition.DeclarationsPlaced` adds that a declared name is not empty. Literals other than the one a
  node carries itself are children.
- The watcher is faithful: every change of a file below a workspace root queues one event, in order.
- A path names one file and one URI; resolving a source target (a join and a file check) is one function
  for the duration of a query, and a query sees one snapshot of the disk.
- The connection's read loop calls the handler for one message at a time, looks at its context before each
  read, and closes `Done` after its last read; a read that has begun may still deliver a message that was
  buffered. Closing the stream ends a read that waits (vendor/go.lsp.dev/jsonrpc2/stream.go:58-60). A
  failed reply is an error of the type that `fmt.Errorf` makes with `%w`, and a cancelled context one of the
  type that `errors.New` makes. The rest of go.lsp.dev/jsonrpc2 is not part of this model.

## Model

| member | source | states |
|---|---|---|
| `Utf8.UnitsAdditive` | internal/util/lsp/position.go:98-110 | UTF-16 length is additive at rune boundaries of valid UTF-8 |
| `Utf8.UnitsBounds` | internal/util/lsp/position.go:128-148 | between boundaries, UTF-16 length <= byte length <= 3 * UTF-16 length |
| `Utf8.WellFormedIffEncoded` | internal/server/diagnostics.go:218-223 | the byte sequences taken for well formed are exactly the encodings of Unicode scalar values (RFC 3629, section 3) |
| `Utf8.EncodedIsWellFormed` | internal/util/lsp/position.go:128-148 | the first byte of an encoded scalar value tells its length, and one or two UTF-16 units as it is below U+10000 or not |
| `LspPosition.FindLineStart` | internal/util/lsp/position.go:112-126 | the walk returns the unique start of the line, or -1 exactly when the text has fewer lines |
| `LspPosition.LineStartUnique` | internal/util/lsp/position.go:112-126 | the start found for the line number of an offset is the start of the line that holds the offset |
| `LspPosition.Utf16Len` | internal/util/lsp/position.go:98-110 | the loop counts the UTF-16 units of any bytes |
| `LspPosition.OffsetForPosition` | internal/util/lsp/position.go:63-96 | the loop returns the offset function `OffsetUtf16`, -1 for a negative argument or a missing line |
| `LspPosition.OffsetForPositionBytes` | internal/util/lsp/position.go:44-61 | returns the offset function `OffsetUtf8`, with its four ways to fail |
| `LspPosition.AdvanceIsLeast` | internal/util/lsp/position.go:74-95 | from a boundary the UTF-16 walk stops at the least boundary of the line that reaches the character, or at the line end |
| `LspPosition.OffsetUtf16IsLeastBoundary` | internal/util/lsp/position.go:63-96 | on valid UTF-8 the result is the least rune boundary of the line whose UTF-16 count reaches the character, or the line end; -1 exactly for negative arguments or a missing line |
| `LspPosition.AdvanceToBoundary` | internal/util/lsp/position.go:74-95 | the walk finds every boundary of a line again from its unit count |
| `LspPosition.OffsetUtf8OnLine` | internal/util/lsp/position.go:47-61 | the UTF-8 offset stays on the requested line exactly when the character is within the line |
| `LspPosition.OffsetUtf8DoesNotClamp` | internal/util/lsp/position.go:55-60 | an input where the UTF-8 converter runs into the next line and the UTF-16 converter clamps |
| `LspPosition.OffsetUtf16WithinIff` | internal/util/lsp/position.go:74-88 | the UTF-16 converter never leaves the text on a line exactly when no rune of the line is cut short by the end of the text |
| `LspPosition.OffsetUtf16Overshoots` | internal/util/lsp/position.go:128-148 | a truncated four-byte rune makes the result exceed the text by three |
| `LspPosition.AdvanceOvershoot` | internal/util/lsp/position.go:74-88 | no text is exceeded by more than three bytes |
| `LspPosition.WordAtOffset` | internal/util/lsp/position.go:25-42 | the word is the maximal run of word bytes around the offset, with its ends; empty exactly off a word byte or out of range |
| `LspPosition.WordRunUnique` | internal/util/lsp/position.go:25-42 | the maximal run around an offset is unique |
| `LspPosition.WordSpelled` | internal/util/lsp/position.go:13-42 | by its bytes, the word is the maximal run of letters, digits, `_`, `-` and `.` around the offset, empty exactly off such a byte |
| `Positions.OffsetForPos` | internal/server/positions.go:12-19 | the offset under the negotiated encoding |
| `Positions.PosForOffset` | internal/server/positions.go:53-72 | the loop returns the line and character of the clamped offset |
| `Positions.PosToLsp` | internal/server/positions.go:21-47 | the parser position converted, with the byte-column fallback |
| `Positions.ToLspByColumn` | internal/server/positions.go:21-47 | under UTF-8, and for an offset beyond the text, the answer is line and byte column, less one |
| `Positions.LocatesUnique` | internal/server/positions.go:12-19 | by the server's count, line and character locate at most one offset |
| `Positions.OffsetForLocated` | internal/server/positions.go:12-19 | the server reads a position as the offset it locates by that count, whenever it locates one |
| `Positions.OffsetRoundTrip` | internal/server/positions.go:12-72 | offset to position to offset is the identity: at every byte of any text under UTF-8, at every rune boundary of valid UTF-8 otherwise |
| `Positions.PositionRoundTripUtf8` | internal/server/positions.go:53-72 | under UTF-8, position to offset to position is the identity exactly on positions inside their line |
| `Positions.PositionRoundTripUtf16` | internal/server/positions.go:53-72 | under UTF-16 it keeps the line, clamps to the line length, and moves past a surrogate pair |
| `Positions.PositionMonotone` | internal/server/positions.go:53-72 | later offsets have strictly later positions |
| `Positions.OffsetMonotone` | internal/server/positions.go:12-19 | positions are ordered as the offsets they locate, both ways |
| `Positions.ConvertersAgree` | internal/server/positions.go:21-72 | `posToLSP` and `posForOffset` agree on every offset of every text |
| `Positions.RangeLocates` | internal/server/positions.go:49-51 | a range made from parser positions locates the two offsets they came from |
| `ClientPosition.DenotesUnique` | internal/server/positions.go:12-19 | to a client (LSP 3.17, "Position") a position means at most one offset |
| `ClientPosition.ServerPositionReadIff` | internal/server/positions.go:53-72 | the client reads the position that `posForOffset` gives an offset as that offset exactly when no lone carriage return comes before it and it is not inside a line end |
| `ClientPosition.ClientPositionReadIff` | internal/server/positions.go:12-19 | the server reads a position as the client means it exactly when no lone carriage return comes before, and the character is within the line or clamped at a newline under UTF-16 |
| `ClientPosition.LoneReturnMisread` | internal/util/lsp/position.go:112-126 | a text with a lone carriage return on which both directions fail |
| `ClientPosition.LineEndClamped` | internal/server/positions.go:53-72 | the position that the server gives the offset between carriage return and newline means the end of the line to a client, exactly when no lone carriage return comes before |
| `ShellCheckPosition.ValidIffNothingReplaced` | internal/server/diagnostics.go:218-223 | a text is valid UTF-8 exactly when decoding to runes replaces nothing |
| `ShellCheckPosition.ShellCheckAgrees` | internal/server/diagnostics.go:206-233 | on valid UTF-8 the ShellCheck converter, given line and code-point column of an offset, returns what `posForOffset` returns |
| `ShellCheckPosition.ShellCheckUtf8Exact` | internal/server/diagnostics.go:206-233 | for any bytes under UTF-8 the answer is the byte column plus two for every replaced byte |
| `ShellCheckPosition.ShellCheckDiffersOnInvalid` | internal/server/diagnostics.go:218-226 | an invalid byte on which the two functions differ under UTF-8 |
| `ShellCheckPosition.SourceRangeAgrees` | internal/server/diagnostics.go:191-204 | on valid UTF-8 a finding from one offset to another becomes the range of those offsets, empty at its start if they are in the wrong order |
| `ShellCheckPosition.SourceRangeOfRune` | internal/server/diagnostics.go:191-204 | a finding without an end covers the rune at its start |
| `ShellCheckPosition.ShellCheckFromOne` | internal/server/diagnostics.go:206-212 | line and column below one count as one |
| `ShellCheckPosition.ShellCheckBeyond` | internal/server/diagnostics.go:213-221 | beyond the lines of the text or the runes of a line the numbers are taken as they are |
| `ShellCheckUtf16.ShellCheckUtf16Exact` | internal/server/diagnostics.go:206-233 | for any bytes under UTF-16 the answer counts the runes of the line, well-formed four-byte ones twice |
| `ShellCheckUtf16.ShellCheckUtf16Iff` | internal/server/diagnostics.go:206-233 | on any bytes of a line it agrees with `posForOffset` at every column exactly when each replaced byte announces one byte, or announces two or three and is the last or followed by a rune that makes up for it |
| `Analyser.FindUsages` | internal/analyser/usages.go:26-64 | the walk collects the usages of a name in walk order; none for a missing file or an empty name |
| `Analyser.FindDeclarations` | internal/analyser/declarations.go:24-54 | the walk collects functions and variables in walk order |
| `Analyser.WritesAreDeclarations` | internal/analyser/usages.go:37-61 | the write usages of a nonempty name are, in order and span, the declarations of that name |
| `Analyser.WrittenIffDeclared` | internal/analyser/declarations.go:30-52 | a file has a write usage of a name exactly when it declares it |
| `Traversal.WalkInOrder` | vendor/mvdan.cc/sh/v3/syntax/walk.go:12-20 | a walk visits every node of the tree, once for each path to it, parents first and then left to right |
| `Occurrences.UsagesByNode` | internal/analyser/usages.go:29-64 | the usages of a name are, in walk order, a write for each function or assignment of it and a read for each expansion and call of it, at the literal of the name |
| `Occurrences.DeclarationsByNode` | internal/analyser/declarations.go:24-54 | the declarations are, in walk order, the functions and the assignments that have a name, of that kind |
| `SourceGraph.SourcedUris` | internal/analyser/index.go:135-164 | the targets that resolve, in walk order |
| `SourceGraph.SourceNeighbours` | internal/analyser/index.go:114-133 | both loops together find exactly the indexed neighbours, sourced or sourcing |
| `SourceGraph.ReachableUris` | internal/analyser/index.go:97-112 | the breadth-first search terminates on any graph and returns exactly the component |
| `SourceGraph.ComponentIsLeast` | internal/analyser/index.go:97-112 | the component is the least set that holds the start and is closed under neighbours, and is what paths reach |
| `SourceGraph.NeighbourSymmetric` | internal/analyser/index.go:114-133 | a neighbour has the file as its neighbour exactly when the file is indexed |
| `SourceGraph.NotIndexedNotFound` | internal/analyser/index.go:114-133 | a file that is not indexed is in no other file's component |
| `SourceGraph.FoundBackIff` | internal/analyser/index.go:97-112 | what a search finds finds its start again exactly when the start is indexed, or is what was found |
| `SourceGraph.ComponentsPartition` | internal/analyser/index.go:186-197 | every member of the component of an indexed file has that same component |
| `SourceGraph.AddedFileMerges` | internal/analyser/index.go:26-37 | indexing an absent file gives it the union of the components of its neighbours |
| `SourceGraph.OtherComponentsKept` | internal/analyser/index.go:26-37 | and leaves the components without a neighbour of it as they were |
| `SourceCommands.SourcesIff` | internal/analyser/index.go:135-164 | by bytes: a file sources another exactly if a call in it whose first word is the literal `.` or `source` has a literal second word that resolves to it |
| `SourceCommands.ComponentOfCommands` | internal/analyser/index.go:97-133 | the component is the least set that holds the file and every indexed file that such a command connects to a member, in either direction |
| `SourceCommands.CommandConnects` | internal/analyser/index.go:145-160 | such a command puts each of two indexed files into the component of the other |
| `SourceCommands.NoCommandNothingSourced` | internal/analyser/index.go:140-151 | without such a command a file sources nothing |
| `SourceRename.DotConnects` | internal/analyser/index.go:145-160 | the text `. x` connects its file with the one that `x` resolves to |
| `Index.Index.AddOrReplace` | internal/analyser/index.go:26-37 | stores a tree, or drops the entry when there is none |
| `Index.Index.Remove` | internal/analyser/index.go:39-43 | drops the entry |
| `Index.Index.ReachableUsages` | internal/analyser/index.go:186-197 | each file of the component has its usages reported once and in order, nothing else is reported |
| `Index.Index.ReachableDeclarations` | internal/analyser/index.go:75-82 | the same for declarations |
| `Index.UsageHits` | internal/analyser/index.go:199-213 | the loop over the map, in any order, with the filter on write usages |
| `Index.UsagesReportedInOrder` | internal/analyser/index.go:199-213 | the hits of an allowed file are, in order, its usages: all of them, or without declarations exactly the reads; other files have none |
| `Index.DeclarationHits` | internal/analyser/index.go:84-95 | the loop over the map, in any order |
| `Index.HasDeclaration` | internal/server/rename.go:70-77 | whether some hit is a write |
| `Index.WriteHitIffDeclared` | internal/server/rename.go:63-77 | over the usages of a component, that is whether some file of it declares the name |
| `Index.DeclarationHitIffDeclared` | internal/analyser/index.go:84-95 | and whether the reported declarations hold the name |
| `Index.UsagesOfComponent` | internal/analyser/index.go:186-197 | the usages reported do not depend on the member of the component that asks |
| `Edits.ApplyIsReplace` | internal/server/rename.go:40-48 | applying the edits at once (LSP 3.17, "TextEdit[]") is replacing the name at exactly its sites |
| `Edits.StretchImage` | internal/server/rename.go:40-48 | every stretch between sites is kept, byte for byte, at its shifted place |
| `Edits.ShiftIsPrefixSum` | internal/server/rename.go:40-48 | an offset moves by the difference in length once for every site before it |
| `Edits.ReplaceUndo` | internal/server/rename.go:40-48 | replacing back at the images of the sites restores the text |
| `RenameTree.ViewInRenamed` | internal/analyser/usages.go:37-61 | what the walkers see of a renamed and relocated tree is, node by node, what they saw before, renamed and relocated |
| `RenameTree.MarkedAreUsages` | internal/analyser/usages.go:37-61 | the literals that a tree rename changes are the usages, each once |
| `RenameText.UsagesAreSites` | internal/analyser/usages.go:37-61 | the usages of a name are occurrences of it in the text, and do not overlap |
| `RenameText.UsagesDistinct` | internal/analyser/usages.go:37-61 | no two usages share a byte, in whatever order they were found |
| `RenameText.RenamedFileReads` | internal/server/rename.go:40-48 | each literal of the renamed tree, at its new position in the edited text, covers the new name in place of the old one and else the bytes it covered before, and no two overlap |
| `RenameText.DecodedAsMeantIff` | internal/server/positions.go:21-51 | a client decodes the edits sent as the bytes of the names exactly when no lone carriage return comes before the end of a name, and none begins or ends inside a line end; also where the range sent goes over the carriage return of a line end |
| `RenameText.DecodedUnique` | internal/server/positions.go:49-51 | a client decodes edits in at most one way |
| `RenameText.RenameIsCorrect` | internal/server/rename.go:36-48 | if every usage is so readable, the edits of a file, as a client decodes them, each cover the old name, are pairwise disjoint, and applied at once give the text of the renamed tree |
| `RenameText.ReturnKept` | vendor/mvdan.cc/sh/v3/syntax/lexer.go:85-89 | a command before `\r\n` whose literal ends after the `\r`: the range sent is one longer than the name, the client decodes the edit as that of the name, and the line end stays |
| `RenameMeaning.UsagesOfRenamedFile` | internal/analyser/usages.go:29-64 | after a rename to an unused name the old name has no usage, the new one exactly the old sites with the same kinds, every other name its own |
| `RenameMeaning.DeclarationsOfRenamedFile` | internal/analyser/declarations.go:24-54 | the declarations are the old ones, in order, renamed and moved |
| `SourceRename.SourceKeptIff` | internal/analyser/index.go:140-151 | a rename keeps what every faithful file sources exactly when old and new name are both, or neither, `source` or `.` |
| `SourceRename.RenamingSourceDisconnects` | internal/analyser/index.go:97-151 | two files, the first of which sources the second: renaming `source` leaves the first alone in its component |
| `RenameMeaning.ComponentsKept` | internal/analyser/index.go:97-164 | such a rename leaves every component as it was |
| `RenameMeaning.RenameBack` | internal/server/rename.go:21-49 | renaming to an unused name and back restores the text, and the tree up to line and column of its literals; the whole tree if these were those of their offsets |
| `RenameMeaning.RenamedFileFaithful` | internal/server/rename.go:21-49 | after such a rename the edited text spells the new name at its usages, and every other name that it spelled before, unless the rename changes a newline after it |
| `RenameMeaning.RenamePreservesMeaning` | internal/server/rename.go:21-49 | all of that for every file of a component at once: same component, uses of the new name exactly at the old ones, undone by the opposite rename, files outside unchanged |
| `Rename.IsValidIdentifier` | internal/server/rename.go:79-101 | accepts exactly `[A-Za-z_][A-Za-z0-9_]*` |
| `Rename.IdentifierSpelled` | internal/server/rename.go:79-101 | by bytes: a letter or `_`, then letters, digits and `_` |
| `Rename.Rename` | internal/server/rename.go:13-49 | an error exactly for an invalid name; nothing without a declared word under the cursor; otherwise one edit per usage in every file of the component |
| `Rename.PrepareRename` | internal/server/rename.go:51-68 | a range exactly for a valid, declared word other than `_`, and then the range of the maximal word under the cursor |
| `Rename.PreparedRenameEdits` | internal/server/rename.go:51-68 | a rename of a word that `prepareRename` accepts changes something |
| `RenameInRun.TextsParsed` | internal/server/references.go:40-53 | in every reachable state with the handler outside the mutex, the text consulted for a settled file is the one its indexed tree was parsed from |
| `RenameInRun.OpenUsagesInside` | internal/server/references.go:40-53 | there every usage span of an open buffer lies inside its text |
| `RenameInRun.RenameEditsCorrect` | internal/server/rename.go:21-49 | there the edits of `rename`, in each file whose usages a client can be told, decode uniquely, cover the word, are disjoint, and give the text of the renamed tree |
| `RenameInRun.RenamedRepresentable` | internal/server/rename.go:40-48 | the edited text is valid UTF-8 if the text was |
| `RenameInRun.RenameMeaningKept` | internal/server/rename.go:21-49 | there a rename to an unused name keeps component and meaning, and can be undone |
| `References.FindReferences` | internal/server/references.go:14-38 | every usage of the word under the cursor in the component, once and in order for each file, rendered against the text of its file |
| `References.ReferencesInOrder` | internal/server/references.go:28-37 | the locations in a file of the component are, in order, the ranges of the usages of the word, or without declarations of exactly its reads; no other file has one |
| `References.ReferencesOfComponent` | internal/server/references.go:28-37 | the references are the same from every file of a component |
| `References.RenameEditsReferences` | internal/server/rename.go:36-48 | `rename` edits exactly the references, declarations included |
| `Definition.SourceDefinition` | internal/server/definition.go:58-93 | the start of the file that the source command under the cursor resolves to, if any |
| `Definition.SortedDeclarationHits` | internal/server/definition.go:110-118 | the sort returns a permutation ordered by URI, then offset |
| `Bytes.LessIff` | internal/server/definition.go:110-118 | one URI comes before another exactly if it is a proper prefix, or smaller at the first byte that differs |
| `Definition.DeclarationsOfFileApart` | internal/server/definition.go:110-118 | declarations of a placed file start at different offsets |
| `Definition.SortedHitsUnique` | internal/server/definition.go:110-118 | whatever order the index is visited in, sorting the declarations of a component gives one list |
| `Definition.FindForeign` | internal/server/definition.go:45-54 | the first match in another file is the least of all matches; none exactly when there is none |
| `Definition.FindFirst` | internal/server/definition.go:36-44 | the first declaration with the name, none exactly if there is none |
| `Definition.Definition` | internal/server/definition.go:18-56 | source target, else first local declaration in walk order, else least declaration in another file of the component |
| `Definition.DefinitionUnique` | internal/server/definition.go:18-56 | the answer is a function of the snapshot, independent of map order |
| `DefinitionAnswers.TargetAnswers` | internal/server/definition.go:58-93 | on the literal argument of a `.` or `source` command, the first in walk order, the answer is the start of the file that it resolves to |
| `DefinitionAnswers.FirstDeclarationAnswers` | internal/server/definition.go:36-44 | otherwise the answer is in the current file exactly if the file declares the word, and it is the declaration of the word before which there is no other |
| `DefinitionAnswers.LeastDeclarationAnswers` | internal/server/definition.go:45-54 | otherwise there is one exactly if another indexed file of the component declares the word: the declaration in the file with the least URI, at the least offset |
| `DefinitionAnswers.NoAnswer` | internal/server/definition.go:21-35 | none for a file that is not open or has no tree, for a position outside the text, and where there is neither target nor word |
| `DefinitionRename.NoTargetAtUsage` | internal/server/definition.go:58-78 | inside a usage the cursor is on no source target |
| `DefinitionRename.CursorOnUseIff` | internal/util/lsp/position.go:29-42 | inside a usage the word under the cursor is the name exactly when the name consists of word bytes and none adjoins the usage |
| `DefinitionRename.CursorBeyondName` | internal/util/lsp/position.go:29-42 | in `$foo-bar` it is not `foo` |
| `DefinitionRename.WordAtImage` | internal/util/lsp/position.go:29-42 | after a rename the word at the image of a delimited usage is the new name |
| `DefinitionRename.OrderKept` | internal/server/definition.go:110-118 | edits keep the order of declarations |
| `DefinitionRename.DefinitionCommutesWithRename` | internal/server/definition.go:21-56 | at a delimited usage, definition answers after a rename exactly when it did before, with the image of the declaration found before |
| `DefinitionInRun.DefinitionCommutesInRun` | internal/server/definition.go:18-56 | the same for two reachable states of a run, before and after the edits of a rename have been made throughout a settled component |
| `Completion.LocalVariables` | internal/server/completion.go:189-208 | the assigned names, each once, in byte order |
| `Completion.AssignedIsDeclared` | internal/server/completion.go:189-208 | they are the variables that `FindDeclarations` reports |
| `Completion.CompletionPrefix` | internal/server/completion.go:149-158 | the run of word bytes that ends at the clamped offset |
| `Completion.CommentGuardNeverFires` | internal/server/completion.go:56-59 | the prefix never starts with `#` |
| `Completion.KeepFirst` | internal/server/completion.go:61-83 | what is kept is exactly the earliest candidate of each name that has the prefix |
| `Completion.SortItems` | internal/server/completion.go:84-86 | the sort keeps the items and makes their labels strictly increasing |
| `Completion.Complete` | internal/server/completion.go:48-88 | an answer exactly for an open document and a position in it; then labels strictly increase and the items are exactly those on offer |
| `Completion.CompletionUnique` | internal/server/completion.go:48-88 | the answer is a function of document, position and word tables |
| `Completion.CompletionEditExact` | internal/server/completion.go:69-81 | if the server reads the position as the client means it, the edit, as the client decodes it, replaces exactly the maximal word run ending at the cursor, which begins where `WordAtOffset` begins |
| `Completion.VariablesOffered` | internal/server/completion.go:97-109 | every variable of the file that has the prefix is offered as a variable, whatever else has its name |
| `CompletionItems.OnlyVariablesOffered` | internal/server/completion.go:160-165 | after `$` or `${`, by bytes, the items are exactly the declared variables that have the prefix |
| `CompletionItems.ItemsByOrigin` | internal/server/completion.go:97-147 | elsewhere they are exactly the names with the prefix that come from variables, top-level functions, builtins, executables, reserved words or snippets, each with the first of these origins that has it, and what each inserts |
| `CompletionItems.FunctionsOffered` | internal/server/completion.go:110-117 | there every top-level function with the prefix is offered, as a function unless a variable has its name |
| `Scanner.ShellPathIff` | internal/analyser/scanner.go:17-49 | by bytes of path and content: a path is a shell script exactly if its last element ends in one of the six extensions, in any ASCII case, or has none and the file has `#!` and then `sh` on its first line within two hundred bytes |
| `Scanner.EndingDecides` | internal/analyser/scanner.go:17-33 | with a period in the last path element the six endings decide, whatever the disk has |
| `Scanner.ExtSplits` | internal/analyser/scanner.go:27 | the extension runs from the last period of the last path element |
| `Scanner.NoExt` | internal/analyser/scanner.go:27 | it is empty when the last path element has no period |
| `Documents.DocumentStore.Open` | internal/server/documents.go:45-59 | stores a fresh document paired with its parse, replacing an open one |
| `Documents.DocumentStore.Update` | internal/server/documents.go:61-73 | replaces version and text and parses again; false and no change for a file that is not open |
| `Documents.DocumentStore.Save` | internal/server/documents.go:75-89 | parses a text that came with the save, and keeps version and language |
| `Documents.DocumentStore.Close` | internal/server/documents.go:91-99 | drops the document; false and no change for a file that is not open |
| `Workspace.OpenBufferWins` | internal/server/workspace.go:66-113 | neither a visit of the scanner nor a watched change touches an open document or its entry |
| `Workspace.BurstKeepsBuffers` | internal/server/workspace.go:115-132 | nor does a burst of changes |
| `Workspace.BurstLastWins` | internal/server/workspace.go:115-132 | of the changes of a closed file of the workspace the last one decides its entry |
| `Workspace.CloseThenOpen` | internal/server/workspace.go:19-64 | closing a document and opening it again with its text restores documents and index, whatever the disk holds |
| `Coherence.StepKeeps` | internal/server/workspace.go:19-113 | every small step of handler, scanner, disk and watcher keeps the invariant |
| `Coherence.OpenBuffersIndexed` | internal/server/workspace.go:19-45 | in every reachable state with the handler outside the mutex, whether or not the scanner holds it, each open document is paired with its tree and the index holds exactly that tree |
| `Coherence.IndexedEntriesCurrent` | internal/server/workspace.go:47-113 | there, an entry of a closed file with no event pending or in progress is the tree of what is on disk now |
| `Coherence.ScanComplete` | internal/analyser/scanner.go:65-89 | once a scan has finished, the entry of every closed and settled file with one of the six endings outside the skipped directories is exactly the tree of what is on disk |
| `Coherence.OtherFilesNotIndexed` | internal/analyser/scanner.go:26-33 | a closed and settled file with another extension is not indexed |
| `Coherence.SkippedEntriesAreScripts` | internal/analyser/scanner.go:77-81 | a closed and settled file in a skipped directory is indexed only while it is a shell script |
| `Coherence.OpenBufferUntouched` | internal/server/workspace.go:66-113 | no step of scanner, disk or watch event changes an open document or its entry |
| `Coherence.Uninterrupted` | internal/server/workspace.go:19-113 | the small steps of an operation, uninterrupted, have the effect of the whole operation, which is also the effect the methods of `Server.BashServer` are proved to have |
| `Coherence.VisitUninterrupted` | internal/server/workspace.go:66-82 | so have the steps of the scanner at a path that it has accepted |
| `ShebangRace.IndexedOnlyScriptsIff` | internal/analyser/scanner.go:77-86 | in every run a closed and settled file is indexed only while it is a shell script, exactly if its path has an extension or lies in a skipped directory |
| `SkippedDirectories.ScanCompleteIff` | internal/analyser/scanner.go:77-81 | in every run a finished scan leaves a closed and settled script indexed as it is on disk, exactly if it lies in no skipped directory |
| `Server.BashServer.OpenDocument` | internal/server/workspace.go:19-25 | document stored, tree indexed |
| `Server.BashServer.UpdateDocument` | internal/server/workspace.go:27-35 | text replaced and indexed for an open document, nothing otherwise |
| `Server.BashServer.SaveDocument` | internal/server/workspace.go:37-45 | saved text, if any, parsed and indexed |
| `Server.BashServer.CloseDocument` | internal/server/workspace.go:47-64 | document dropped and the file indexed from disk, or removed if it is no readable shell script of the workspace, by the bytes of path and content |
| `Server.BashServer.IndexWorkspacePath` | internal/server/workspace.go:66-82 | a readable file that is not open is indexed from disk |
| `Server.BashServer.RefreshWorkspaceFile` | internal/server/workspace.go:84-102 | the same for a watched change, with removal when it is no shell script |
| `Server.BashServer.RemoveWorkspaceFile` | internal/server/workspace.go:104-113 | a file of the workspace that is not open is removed |
| `Server.BashServer.HandleDidChangeWatchedFiles` | internal/server/workspace.go:115-132 | the loop applies the changes in order |
| `Server.BashServer.SetCodeActions` | internal/server/code_action.go:14-25 | caches a list, or drops the entry for an empty one |
| `Server.BashServer.DocumentDiagnostics` | internal/server/diagnostics.go:29-46 | a parse error alone, nothing if linting fails or is off, else what ShellCheck finds; the cached actions are set to match |
| `Server.BashServer.HandleDidChangeConfiguration` | internal/server/configuration.go:97-112 | new settings, and every open document linted and published under them |
| `Server.BashServer.Handle` | internal/server/server.go:187-286 | the whole new state and the reply for every message, behind the shutdown gate |
| `ServerRuns.RunKeepsInvariant` | internal/server/server.go:231-279 | after any run each report is that of the text last linted, and closed files have an empty one |
| `ServerRuns.ClosedFilesClear` | internal/server/server.go:271-279 | after any run a closed file has no cached actions and, if published at all, an empty last publication |
| `ServerRuns.OpenFilesReported` | internal/server/diagnostics.go:29-46 | after any run, what was published and cached for an open document is what linting the text it was last linted with finds under the current settings |
| `ServerRuns.ReportsCurrentWithoutSavedText` | internal/server/server.go:241-269 | in runs without a text-bearing save of it, that is its current text |
| `ServerRuns.ActionsCurrentIff` | internal/server/server.go:258-269 | the cached actions are current, whatever ShellCheck finds, exactly when the text is the one last linted or neither text is linted |
| `ServerRuns.SavedTextNotLinted` | internal/server/server.go:258-269 | saving a new text leaves the actions of the old one |
| `ClientView.ParseErrorShownAlone` | internal/server/diagnostics.go:30-37 | after any run, an open document whose last linted text has a parse error shows exactly that error, at its position, for the version of the document, and has no fixes |
| `ClientView.FindingsShown` | internal/server/diagnostics.go:34-46 | without one it shows and caches exactly what ShellCheck returned, nothing if that failed, and nothing if it is off |
| `ClientView.FixesAnswered` | internal/server/code_action.go:27-37 | a code-action request that accepts quick fixes is answered with the fixes of the text last linted, if it has no parse error and ShellCheck did not fail; every other one with none |
| `ClientView.LintedIsLast` | internal/server/server.go:231-256 | the text last linted is that of the last open, change or effective configuration |
| `ClientView.DocumentIsLastSent` | internal/server/server.go:231-269 | an open document has language, version and text of the last open, change or save that carried one; of a change the last text counts |
| `ClientView.SettingsAreLast` | internal/server/configuration.go:97-112 | the settings are what the last effective configuration made of those before it, or the first ones |
| `ClientView.OpenIffOpenedLast` | internal/server/server.go:231-279 | a document is open exactly if the last of its opens and closes is an open |
| `ClientView.ClosedFileCleared` | internal/server/server.go:271-279 | a closed file is left with an empty publication exactly if a close of it was handled, and with none otherwise |
| `ServerRuns.ShutdownIffAnswered` | internal/server/server.go:216-222 | the gate is closed exactly when a shutdown request was answered |
| `ServerRuns.NothingAfterShutdown` | internal/server/server.go:187-190 | after that no message changes documents, reports or settings, and all but exit are rejected |
| `Lifecycle.StepKeeps` | internal/server/server.go:80-140 | every step of handler, read loop and `Run` keeps the invariant on flags, channel, result and recorded error, with messages still delivered after a failed reply or a closed stream |
| `ExitStatus.ExitStatusExact` | internal/server/server.go:80-101 | over every schedule: `Run` returns unless the process dies under the condition of `CrashIff`; and then, unless the outer context was cancelled, it returns success or `ErrExitWithoutShutdown` after an exit exactly as a shutdown reply was or was not sent before it, and a connection error without an exit |
| `ExitStatus.CrashIff` | vendor/go.lsp.dev/jsonrpc2/conn.go:192-221 | over every schedule: the read loop panics exactly when a reply failed and the loop then ended on an error of another type |
| `ExitStatus.ExitAfterFailedReply` | vendor/go.lsp.dev/jsonrpc2/conn.go:242-245 | a failed shutdown reply and a buffered exit: the process dies before `Run` has returned |
| `ExitStatus.CancelledRequest` | vendor/go.lsp.dev/jsonrpc2/conn.go:242-245 | a request that is handled when the outer context is cancelled: the same |
| `ExitStatus.ExitClosedOnce` | internal/server/server.go:128-140 | the exit channel is closed at most once, and the flag is right by then |
| `ExitStatus.CleanupEnds` | internal/server/server.go:73-78 | if closing the stream ends a read, the wait for the connection in the cleanup of `Run` ends: a step is possible unless the process is dead, which takes the condition of `CrashIff`, and each step brings it nearer |

## Left out

- DefinitionCommutesWithRename: is about the renamed tree; that the parser reads the edited text as that tree is not proved, because the parser is abstract, and `DefinitionCommutesInRun` assumes it.
- RenameMeaningKept: for the same reason speaks of the renamed trees, not of a parse of the edited texts.
- ScanComplete: the visit list is what is on disk when the scan starts; the walk itself, with its errors, is an arbitrary-order visit of it.
- ShellPathIff: lower-casing of an extension is ASCII only; the Kelvin sign, which Go lowers to `k`, is not modelled.
- CleanupEnds: the background goroutines that `Run` also waits for are not part of the lifecycle model.
- Truncation of lines, characters and offsets to 32 bits: texts of four gigabytes and more.
- UTF-32 positions: the branch is modelled in the ShellCheck converter, but no server negotiates it.
- The parser and printer of mvdan.cc/sh, formatting and EditorConfig: library code and a shallow fold.
- JSON, JSON-RPC framing, stdio, logging and flags; a message arrives decoded, and a publication is taken to reach the client.
- Running ShellCheck: a function of settings, file and text that may fail; its latch after a missing executable, its cancellation, and the severity and texts of its findings are not modelled.
- Hover, symbols, highlight and the static word tables: simple filters and lookups.
- The first handshake: encoding and workspace roots are fixed for a session.
- The list of skipped directory names: a predicate of the file.
- Empty and unknown entries of a watched-files notification, and the list of kinds in a code-action request: a message carries the known changes, and whether quick fixes are wanted.
- The walk in `sourceDefinition` goes on below a command whose target is the empty word, where the program stops; no other literal of a placed tree covers the byte of the cursor.
