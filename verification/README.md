# LaPoL: a verified model of the document compiler's core

LaPoL compiles a document in four steps: a parser turns source text into a
syntax tree, evaluation turns that into a tree of strings and tagged nodes
(LTRF), four passes rewrite that tree, and outputters print it as LaTeX. This
project models each step and the name lookup that evaluation relies on, and
proves what holds across them. `dafny verify dfyconfig.toml` checks everything.

## How it is laid out

| modules | part of LaPoL |
|---|---|
| `Spans`, `Ast`, `Delimiters`, `StringLiterals`, `Comments`, `Parser` | the parser, its combinators and its tree |
| `FastScan`, `Content`, `Tokenizer`, `LeftmostScan`, `CommentScan`, `StartOffsets`, `Builds`, `StringSpelling`, `Lexicon`, `EntryGrammar`, `CommandGrammar`, `UnitGrammar`, `Fences`, `Quoting`, `Printing`, `EntryReading`, `NodeReading`, `RoundTrip`, `Readability` | theorems about the parser |
| `Ltrf`, `RemoveWhitespace`, `Linebreaks`, `Paragraphs`, `Process` | the tree and the passes |
| `ChildWise`, `Conservation`, `Segmentation`, `Shape`, `BreakShape`, `Wrapping`, `InlineParagraphs`, `ParagraphsTwice`, `Rerun` | theorems about the passes |
| `Evaluate`, `StandardCommands`, `Pipeline`, `Compile`, `EndToEnd` | evaluation, and theorems from source to processed tree, to LaTeX and back |
| `Latex`, `LatexScan`, `LatexReadBack` | LaTeX output and theorems about it |
| `Identifiers`, `Namespaces` | identifiers and namespaces |

## How the source is represented

- A source is a `seq<char>` that stays fixed; a span is a position in it. A
  parser returns `Ok` with the next position, a recoverable `Err`, or `Panic`
  for a failed `expect` or assertion. Every combinator used is written out.
- `Input.debugAsserts` says whether debug assertions are compiled in. They are
  the only thing that catches unbalanced opening braces, although the comment on
  them reads as if that were always so; the theorems cover both builds, and
  `Builds` says how they differ.
- `Input.longRuns` says whether plain text is taken in long runs, as the code
  does, or one character at a time, as its comment says it could be.
- `Input.double` stands for the floating-point recogniser: any function from a
  suffix to the length of the number at its start. Where a tree with numbers or
  names in square brackets is printed and read back, `Printing.Numeric` says what is
  used of it: a number starts like one, and neither spans nor looks past a
  character that ends an entry.
- Loops that update variables are methods, each proved equal to a function; the
  theorems are about the functions. `Namespace` is a class.
- An error thrown by the TypeScript code is a `Failure`. `Namespace` methods
  return `false` where an assertion fails, and `Thrown` where a lookup throws.

## What was found

- The middle pass as a whole cannot be repeated, although the whitespace pass, the
  linebreak pass and, without earlier paragraphs, the paragraph pass can: on the
  second run the whitespace pass deletes the spaces that the linebreak pass made
  on the first (`Rerun.SecondRunDropsSpaces`). When a second run changes nothing
  is `Rerun.SecondRunChangesNothingExactly`.
- The paragraph pass cannot be repeated on every tree: a `__p` that is no block, and
  that the first run wraps in a paragraph of its own making, is not trimmed until
  the second run (`ParagraphsTwice.InlineParaBreaksIdempotence`).
  `ParagraphsTwice.ParagraphPassTwiceExactly` says exactly when a second run
  changes nothing, on every tree and in terms of the tree before the first run.
  Without such paragraphs, as in every tree that the standard commands make, it
  never does.
- A document that parses in the debug build parses to the same tree in the release
  build; a single opening brace parses in the release build only (`Builds`).
- An entry in square brackets that starts like `true` or `false`, whatever it goes on
  with, is taken for a boolean, so names like that cannot be written there;
  `Printing.ReadableEntry` excludes them, and the parser never returns one.
- Absolute identifiers with a path only work while every namespace on the way is
  a root: `Namespaces.AbsoluteLookupExactly`.
- Printing and parsing an identifier is the identity exactly for identifiers
  whose segments are non-empty, have colons in pairs, and start with no colon when
  a separator precedes them: `Identifiers.RoundTripExactly`.
- The error "Malformed identifier" never arises: only the empty string is rejected,
  by an assertion (`Identifiers.ParsesExactlyNonEmpty`).

## Model

| member | source | states |
|---|---|---|
| Delimiters.GetMatchingCloseCurly | lapol-parse-rs/src/parse.rs:72-97 | the closing form is built from the opening one read backwards, every bracket mirrored |
| Delimiters.OpenAndCloseMirror | lapol-parse-rs/src/parse.rs:63-106 | the two forms have one length, mirror each other bracket by bracket, and start differently; only the plain brace has an empty escape |
| Delimiters.FormsOverlapOnlyOnBar | lapol-parse-rs/src/parse.rs:144-145 | in any source, occurrences of the two forms overlap at most on the single bar that ends the one and starts the other |
| Delimiters.GenericOpenCurlyReads | lapol-parse-rs/src/parse.rs:46-61 | wherever an opening form stands it is read whole, with its matching close and escape |
| Lexicon.DelimitersExactly | lapol-parse-rs/src/parse.rs:46-106 | an opening form is read if and only if a delimiter's stands there, and with what closes and escapes it: plain braces, or bar and brackets with the three bracket pairs written out, closed in reverse |
| Comments.SkipBlockComment | lapol-parse-rs/src/parse.rs:221-257 | the loop with a brace balance computes the recursive reading of a comment body |
| Comments.LineCommentExactly | lapol-parse-rs/src/parse.rs:272-287 | a line comment ends at a position if and only if it has its marker, is not empty, does not start like a block comment, and the first newline ends there |
| Lexicon.CommentsExactly | lapol-parse-rs/src/parse.rs:259-294 | a comment is read up to a position if and only if one is written there: the marker and a line, or the marker, a delimiter and all up to the first closing form nothing matches |
| Lexicon.NamesExactly | lapol-parse-rs/src/parse/identifier.rs:17-40 | a name is read if and only if it is a longest run of name characters and none of the reserved words in any mixture of cases |
| Lexicon.BlanksExactly | lapol-parse-rs/src/parse.rs:391-398 | skipping ends at a position if and only if whitespace and comments, as written, reach it and none goes on from there |
| Ast.AddNode | lapol-parse-rs/src/parse.rs:156-169 | merging a canonical node into a canonical list gives a canonical list |
| Parser.TextLoop | lapol-parse-rs/src/parse.rs:171-218 | from the middle of a text: terminates, never a recoverable error, stops at a closing form or at the end, and keeps lists canonical at every depth |
| Parser.TextFrom | lapol-parse-rs/src/parse.rs:136-219 | the same of a whole text: its rest is a suffix and its nodes are canonical at every depth |
| Parser.ScanText | lapol-parse-rs/src/parse.rs:136-219 | the scanning loop with its balance, rest and contents computes that text |
| Parser.ParseCommand | lapol-parse-rs/src/parse.rs:369-382 | a command consumes input, starts where its escape does, has a legal name and canonical arguments |
| CommandGrammar.ContentsExactly | lapol-parse-rs/src/parse.rs:385-476 | what follows the at sign is read if and only if it is written: a name, a square list or none, curly arguments, and a semicolon or none, with blanks and comments before each part |
| CommandGrammar.CommandsExactly | lapol-parse-rs/src/parse.rs:369-382 | a command is read if and only if its escape, an at sign and such contents are written; it panics exactly when it starts like one and no contents are |
| CommandGrammar.CommandEndsInPart | lapol-parse-rs/src/parse.rs:459-466 | whatever its parts, a command does not end in whitespace: what no semicolon follows is given back |
| Parser.CurlyArguments | lapol-parse-rs/src/parse.rs:450-457 | as many arguments as follow, each canonical; never a recoverable error |
| CommandGrammar.CurlyExactly | lapol-parse-rs/src/parse.rs:352-360 | an argument is read if and only if one is written, in any delimiter, around the text that starts there; and is no argument, without an error, exactly when none is opened or the text runs to the end |
| EntryGrammar.ListsExactly | lapol-parse-rs/src/parse.rs:346-350 | a list is read as these arguments if and only if they are written there, commas between them and one at the end or none |
| EntryGrammar.EntriesExactly | lapol-parse-rs/src/parse.rs:311-328 | an entry is read if and only if it is written, with all blanks around it: a boolean, a number, a name, a string, a command, the earlier kinds first |
| EntryGrammar.ArgumentsExactly | lapol-parse-rs/src/parse.rs:330-344 | an argument is read if and only if a value is written there that no equals sign and value follow, or a key, an equals sign and a value |
| Parser.ParseRoot | lapol-parse-rs/src/parse.rs:492-504 | a document is read to its end and is canonical at every depth, or the parse panics |
| FastScan.SlowPlainRun | lapol-parse-rs/src/parse.rs:108-134 | a run of plain characters taken one by one ends as one longer text node |
| FastScan.TextLoopSame | lapol-parse-rs/src/parse.rs:136-219 | with any delimiter and from any state, long runs and single characters give the same nodes, offsets, rest and outcome |
| FastScan.FastScanRefinesSlow | lapol-parse-rs/src/parse.rs:108-134 | the same for whole texts, commands and documents, through all nested commands |
| Tokenizer.TokensSpellTheSource | lapol-parse-rs/src/parse.rs:171-208 | the units read from left to right spell the source with no gap and no overlap |
| UnitGrammar.UnitsExactly | lapol-parse-rs/src/parse.rs:171-208 | the next unit is this one if and only if it is written there: a marker, or else a newline in either form, a comment, a command, a malformed command, or a single character when it is none of them |
| Content.AddNodeGlyphs | lapol-parse-rs/src/parse.rs:156-169 | adding a node appends exactly its content, merged or not |
| LeftmostScan.LoopIsScan | lapol-parse-rs/src/parse.rs:171-218 | from any state, the loop ends at the first unmatched closing marker of the units and holds exactly their content |
| LeftmostScan.NestedTextStopsAtFirstUnmatched | lapol-parse-rs/src/parse.rs:171-218 | an argument's text stops at the first closing marker that nothing matches and holds the source before it, comments deleted and newlines as line feeds; without one, what each build does |
| LeftmostScan.RootParsesExactlyWhenBalanced | lapol-parse-rs/src/parse.rs:211-218 | a document parses if and only if no command is malformed and it never closes more than it opens, and, with debug assertions, is balanced |
| StartOffsets.StartsAreInPlace | lapol-parse-rs/src/parse.rs:136-219 | start offsets increase, lie in the text, and point at the first character of every text node |
| Builds.ReleaseParsesWhatDebugDoes | lapol-parse-rs/src/parse.rs:211-216 | a document that parses with debug assertions parses to the same tree without, through all nested commands |
| Builds.UnclosedBraceParsesInRelease | lapol-parse-rs/src/parse.rs:211-216 | a single opening brace parses in the release build and panics in the debug build |
| Content.CanonicalIsUnique | lapol-parse-rs/src/parse.rs:156-169 | content determines the nodes: two canonical lists with the same content are the same list up to offsets |
| CommentScan.BlockCommentStopsAtFirstUnmatched | lapol-parse-rs/src/parse.rs:221-257 | a block comment's body ends at the first closing marker that nothing in it matches, and is one exactly when there is such a marker |
| Fences.FenceIsFar | lapol-parse-rs/src/parse.rs:46-61 | nothing that a wide delimiter gives meaning to can start just before a character that is no bracket |
| RoundTrip.EntryReadBack | lapol-parse-rs/src/parse.rs:311-328 | every kind of square entry is read back: numbers, names, booleans, strings, commands |
| RoundTrip.EntriesReadBack | lapol-parse-rs/src/parse.rs:330-350 | a printed list of square arguments, keyed or not, is read entry by entry, and all of it |
| RoundTrip.CommandReadBack | lapol-parse-rs/src/parse.rs:369-476 | a printed command is read back by the simple scan, in any escape and at any depth |
| RoundTrip.PrintThenParse | lapol-parse-rs/src/parse.rs:369-476 | every canonical command whose square entries are readable, printed and followed by anything, parses to itself and leaves exactly what followed |
| Readability.CommandReadable | lapol-parse-rs/src/parse.rs:311-382 | the square entries of every parsed command are readable, at any depth |
| Readability.ParseThenPrintThenParse | lapol-parse-rs/src/parse.rs:369-476 | whatever command the parser returns for any source can be printed and read back, in any other source |
| Quoting.AnyTextCanBeQuoted | lapol-parse-rs/src/parse.rs:352-360 | every string, whatever markers it holds, is read verbatim from a delimiter wider than it is long |
| StringSpelling.SpelledThenRead | lapol-parse-rs/deps/nom_string.rs:158-186 | every legal spelling of a string is read as that string, with the exact rest |
| StringSpelling.ReadIsSpelled | lapol-parse-rs/deps/nom_string.rs:140-186 | whatever is read was a legal spelling of it |
| StringSpelling.ReadExactlyTheSpellings | lapol-parse-rs/deps/nom_string.rs:47-186 | a literal is read as a string up to a position if and only if it is a legal spelling of it that ends there |
| Linebreaks.BreakRunsInsideRun | lapol-core/src/internal/process/passes/processLinebreaks.ts:21-26 | one newline of a longer run leaves a marker if nothing open precedes it, and then the run counts as begun |
| Linebreaks.BreakLoop | lapol-core/src/internal/process/passes/processLinebreaks.ts:14-40 | the loop with lookahead and its linebreak symbol equals the rewriting of maximal runs |
| Linebreaks.ProcessLinebreaks | lapol-core/src/internal/process/passes/processLinebreaks.ts:10-43 | the pass on a whole tree, children first |
| Paragraphs.TrimSingleParaNode | lapol-core/src/internal/process/passes/processParagraphs.ts:58-70 | shifting and popping leaves what is between the whitespace at the two ends |
| Paragraphs.TrimAll | lapol-core/src/internal/process/passes/processParagraphs.ts:54-74 | paragraphs are trimmed and the empty ones dropped |
| Paragraphs.PiecesAtSeparator | lapol-core/src/internal/process/passes/processParagraphs.ts:20-37 | a separator closes what has been gathered into a paragraph, and only a block is kept |
| Paragraphs.GatherParas | lapol-core/src/internal/process/passes/processParagraphs.ts:16-45 | the loop with its accumulator and paragraph count cuts the children at separators; it throws exactly when some child that is no marker has a bad block entry |
| Paragraphs.ProcessParagraphs | lapol-core/src/internal/process/passes/processParagraphs.ts:13-48 | the pass on a whole tree, and exactly when it throws |
| Process.ProcessPass | lapol-core/src/internal/process/process.ts:24-37 | the loop over the passes applies them in order and stops at the first that throws |
| Process.PipelineUnfolds | lapol-core/src/internal/process/process.ts:17-22 | the four passes composed |
| Rerun.RemUnspaces | lapol-core/src/internal/process/passes/remWhitespaceLines.ts:10-22 | afterwards every string, at any depth, is a single newline or holds a character that is no whitespace |
| Segmentation.RemIsVisible | lapol-core/src/internal/process/passes/remWhitespaceLines.ts:10-22 | the children kept are exactly the nodes, the newlines and the strings that are not whitespace, in order |
| Ltrf.WhitespaceExactly | lapol-core/src/internal/utils.ts:41-42 | a string is whitespace if and only if all its characters are among the white space and line terminators that trimming removes, listed |
| Rerun.RemFixed | lapol-core/src/internal/process/passes/remWhitespaceLines.ts:10-22 | a list without such strings at any depth is left alone |
| Conservation.RemKeeps | lapol-core/src/internal/process/passes/remWhitespaceLines.ts:10-22 | dropping whitespace keeps everything visible, in order |
| Conservation.LinesKeep | lapol-core/src/internal/process/passes/processLinebreaks.ts:10-43 | breaking lines keeps everything visible, under its own parent |
| Conservation.TrimKeeps | lapol-core/src/internal/process/passes/processParagraphs.ts:58-70 | trimming keeps everything visible |
| Conservation.ParasKeep | lapol-core/src/internal/process/passes/processParagraphs.ts:13-48 | gathering paragraphs keeps everything visible, under its own parent |
| Conservation.PipelineConserves | lapol-core/src/internal/process/process.ts:24-37 | whenever the middle pass does not throw, its result is its input up to whitespace, markers and paragraph wrappers, at every depth |
| Segmentation.PiecesAreSegments | lapol-core/src/internal/process/passes/processParagraphs.ts:16-45 | linebreaks and then paragraphs on one list are one declarative cut at blocks and long runs of newlines |
| Segmentation.LevelsFuse | lapol-core/src/internal/process/passes/processParagraphs.ts:13-78 | the same with trimming, including lists of at most one child |
| Segmentation.PassesSegment | lapol-core/src/internal/process/process.ts:17-22 | on a tree without paragraphs and markers, the last three passes equal the declarative segmentation of every list of children |
| Shape.ParagraphPassOrders | lapol-core/src/internal/process/passes/processParagraphs.ts:13-48 | on every tree, at every depth: no marker is left, and blocks come before everything else |
| Shape.ParasStayBlocks | lapol-core/src/internal/process/passes/processParagraphs.ts:76-78 | the paragraphs that the pass makes are blocks |
| Shape.ParagraphsStandAmongBlocks | lapol-core/src/internal/process/passes/processParagraphs.ts:38-45 | at every depth, a list has only blocks or has no paragraph |
| Wrapping.ParaLevelFits | lapol-core/src/internal/process/passes/processParagraphs.ts:16-56 | when all of the list made of some children has a property: read off the children, which of them are wrapped, and what trimming does to it |
| InlineParagraphs.LeavesExactly | lapol-core/src/internal/process/passes/processParagraphs.ts:13-78 | whether something other than whitespace is left of a node, read off the node |
| InlineParagraphs.ComesOutFinishedExactly | lapol-core/src/internal/process/passes/processParagraphs.ts:13-78 | a paragraph comes out of its own processing not empty and with no whitespace at an end if and only if something is left of it and it is cut, or every whitespace string in it has something that is left on both sides |
| ParagraphsTwice.FixedExactly | lapol-core/src/internal/process/passes/processParagraphs.ts:13-78 | a tree in order is left alone if and only if all its paragraphs are trimmed and not empty |
| ParagraphsTwice.NeatAfterPassExactly | lapol-core/src/internal/process/passes/processParagraphs.ts:54-74 | the paragraphs of the result are all trimmed and not empty if and only if, at every depth, the inline paragraphs that get wrapped come out so |
| ParagraphsTwice.ParagraphPassTwiceExactly | lapol-core/src/internal/process/passes/processParagraphs.ts:13-78 | on every tree, running the pass twice is running it once if and only if the same holds |
| ParagraphsTwice.ParagraphPassIsIdempotent | lapol-core/src/internal/process/passes/processParagraphs.ts:13-78 | so it is on every tree whose paragraphs are blocks |
| ParagraphsTwice.InlineParaBreaksIdempotence | lapol-core/src/internal/process/passes/processParagraphs.ts:54-74 | with an inline paragraph of strings that is empty or has whitespace at an end, it is not: both results, written out |
| BreakShape.MarkersStandApart | lapol-core/src/internal/process/passes/processLinebreaks.ts:18-34 | every marker made has its own space after it, so no two are adjacent, and none starts a node |
| BreakShape.MarkersCountRuns | lapol-core/src/internal/process/passes/processLinebreaks.ts:18-34 | there are as many markers as long runs that do not start the node |
| BreakShape.LinebreakPassSettles | lapol-core/src/internal/process/passes/processLinebreaks.ts:10-43 | afterwards, at every depth, a newline is an only child |
| BreakShape.LinebreakPassIsIdempotent | lapol-core/src/internal/process/passes/processLinebreaks.ts:10-43 | running the pass twice is running it once, on any tree |
| Rerun.RunLeaves | lapol-core/src/internal/process/process.ts:24-37 | what a run of the four passes leaves, on any root: order, newlines only as only children, nothing that throws |
| Rerun.RootStaysExactly | lapol-core/src/internal/process/passes/processRoot.ts:15-23 | the root has only documents after the run if and only if blocks came first among them |
| Rerun.SecondRunChangesNothingExactly | lapol-core/src/internal/process/process.ts:17-37 | on any root, a second run of all passes changes nothing if and only if blocks come first among the documents, the paragraph pass can be repeated, and no whitespace string but newlines is left |
| Rerun.SecondRunOfFreshExactly | lapol-core/src/internal/process/process.ts:17-37 | without paragraphs and markers to begin with, all of that is read off the documents and their segmentation |
| Rerun.SecondRunDropsSpaces | lapol-core/src/internal/process/process.ts:17-37 | two words on two lines: the second run deletes the space between them |
| Evaluate.EvaluatesExactly | lapol-core/src/internal/evaluate/evaluate.ts:64-169 | a document evaluates if and only if all its commands are in scope, have the argument they ask for, stand in square brackets only where they make a node, and keys are names or strings |
| Evaluate.NodesEvaluateTo | lapol-core/src/internal/evaluate/evaluate.ts:36-129 | nodes evaluate to these objects if and only if they run and mean them: a text is its string, a wrapping command one node with its tag, its entries and what its first argument means, a leaf one childless node, a drop nothing |
| Evaluate.RootEvaluatesTo | lapol-core/src/internal/evaluate/evaluate.ts:158-169 | a document evaluates to this object if and only if its nodes do to the children, under the root tag |
| StandardCommands.StandardBlocksExactly | lapol-core/src/std/main.ts:44-57 | in every tree evaluated with the standard commands, at every depth, a node is a block if and only if it is a section of one of the three kinds, a quotation or a title |
| StandardCommands.CommandPrints | lapol-core/src/std/main.ts:42-59 | the LaTeX of every standard command, written out |
| Evaluate.EvaluationKeepsText | lapol-core/src/internal/evaluate/evaluate.ts:120-129 | the strings of the result, from left to right, are the text and the first arguments of wrapping commands, nothing added, lost or reordered |
| Pipeline.MiddlePassAcceptsExactly | lapol-core/src/internal/process/passes/processRoot.ts:7-25 | the middle pass succeeds if and only if the root has the root tag, each child of it is whitespace or a document, and no node but markers, at any depth, has a bad block entry |
| Pipeline.RootErrorExactly | lapol-core/src/internal/process/passes/processRoot.ts:7-22 | which error the first pass throws, and when: about the root's tag, or else about the first child that is neither whitespace nor a document |
| Pipeline.PipelineSegments | lapol-core/src/internal/process/process.ts:24-37 | the whole middle pass keeps the documents and segments every list below them |
| Pipeline.EvalNodesPlain | lapol-core/src/internal/evaluate/evaluate.ts:36-81 | evaluating canonical nodes gives strings that are one newline or hold none, and no paragraph or marker |
| Pipeline.EvaluatedIsTidyFresh | lapol-core/src/internal/evaluate/evaluate.ts:158-169 | the same of a whole parsed document |
| Pipeline.SourceToProcessed | lapol-core/src/internal/evaluate/evaluate.ts:120-129 | from any source: the processed tree is the segmentation, in order at every depth, its paragraphs are blocks among blocks, trimmed and not empty, and a string with a newline in it is one newline and the only child of a node that is no paragraph |
| Compile.StandardEnvIsPrintable | lapol-core/src/std/main.ts:30-59 | the standard commands and the LaTeX table meet the conditions of the theorems here |
| Compile.ParasPrintable | lapol-core/src/internal/process/passes/processParagraphs.ts:76-78 | the paragraph pass adds no tag but that of paragraphs |
| Compile.SourceToLatex | lapol-core/src/internal/out/out.ts:8-31 | a source that parses and evaluates becomes LaTeX if and only if its root holds only whitespace and documents; the LaTeX is neutral and reads back as the content of the processed tree |
| EndToEnd.ProcessedSeen | lapol-core/src/internal/process/process.ts:24-37 | the passes change no character that shows in the output, apart from whitespace |
| EndToEnd.SourceTextIsReadBack | lapol-core/src/internal/out/out.ts:8-31 | from source to LaTeX and back: apart from whitespace, the characters of the decoded LaTeX are the text and the first arguments of wrapping commands of the source, in order |
| Latex.PlainStaysPlain | lapol-core/src/std/output/latexStringOutputter.ts:4-33 | a string with none of the ten special characters is printed as it is |
| Latex.EscapeString | lapol-core/src/std/output/latexStringOutputter.ts:4-33 | the loop escapes every character on its own, in order; what that means is in the rows around this one |
| Latex.StandardTableIsWellNamed | lapol-core/src/std/main_latex_output.ts:24-46 | the registered commands are words, none is used by escaping or blocks, and no two tags print alike |
| LatexScan.NeutralEscaped | lapol-core/src/std/output/latexStringOutputter.ts:4-33 | an escaped string is neutral: scanned from any brace depth it comes back to it, never below, not inside an escape, and meets no bare special character |
| LatexScan.OutputIsNeutral | lapol-core/src/std/output/latexTagOutputter.ts:54-83 | the output of every tree is neutral |
| LatexScan.OutputAllIsNeutral | lapol-core/src/internal/out/out.ts:8-10 | so outputs compose by concatenation |
| LatexReadBack.EscapedReads | lapol-core/src/std/output/latexStringOutputter.ts:4-33 | a decoder recovers an escaped string character by character, wherever it stands |
| LatexReadBack.OutputReads | lapol-core/src/std/output/latexTagOutputter.ts:54-83 | the decoder recovers tags and characters of every tree from its output, wherever it stands |
| LatexReadBack.OutputIsReadable | lapol-core/src/internal/out/out.ts:8-31 | a whole output is decoded to its end |
| LatexReadBack.OutputDetermines | lapol-core/src/std/output/latexTagOutputter.ts:62-83 | lists with the same output have the same content |
| LatexReadBack.EscapingIsInjective | lapol-core/src/std/output/latexStringOutputter.ts:4-33 | different strings are escaped differently |
| Identifiers.ParseIdentifier | lapol-core/src/internal/identifier.ts:10-40 | the loop with its parts and accumulator computes the split and what is made of the parts |
| Identifiers.PartsAre | lapol-core/src/internal/identifier.ts:15-28 | every part of any string has its colons in pairs, and only the first can be empty or start with one |
| Identifiers.ParsesExactlyNonEmpty | lapol-core/src/internal/identifier.ts:11-38 | only the empty string is rejected |
| Identifiers.ParsesExactly | lapol-core/src/internal/identifier.ts:10-40 | a string is read as an identifier if and only if it is not empty and is cut at single colons into the parts of that identifier |
| Identifiers.RoundTripExactly | lapol-core/src/internal/identifier.ts:10-40 | printing and parsing an identifier gives it back if and only if it is well formed |
| Namespaces.Namespace.constructor | lapol-core/src/internal/namespace.ts:16-19 | a new namespace has no parent and no entries |
| Namespaces.Namespace.Root | lapol-core/src/internal/namespace.ts:89-93 | so has a new root |
| Namespaces.Namespace.AddChildNamespace | lapol-core/src/internal/namespace.ts:25-34 | when it is allowed, that it binds and sets the parent, and that nothing else changes |
| Namespaces.Namespace.AddChildItem | lapol-core/src/internal/namespace.ts:36-40 | when it is allowed, and the new entries |
| Namespaces.Namespace.AddUsing | lapol-core/src/internal/namespace.ts:42-47 | when it is allowed, and the new entries |
| Namespaces.Namespace.RootAddChildNamespace | lapol-core/src/internal/namespace.ts:95-99 | when it is allowed, and the new entries; the parent is not set |
| Namespaces.LookupInSnapshot | lapol-core/src/internal/namespace.ts:49-86 | looking up in the objects is looking up in a record of their state |
| Namespaces.FoundIsStable | lapol-core/src/internal/namespace.ts:49-86 | what a lookup has found through any path, parent links included, it finds in every state that extends the first |
| Namespaces.EffectExtends | lapol-core/src/internal/namespace.ts:21-47 | no operation rebinds a key or changes a parent that is set |
| Namespaces.EffectKeepsConsistent | lapol-core/src/internal/namespace.ts:21-47 | every operation keeps: the parent link's name is never bound, and a parent has an entry for its child |
| Namespaces.Apply | lapol-core/src/internal/namespace.ts:21-47 | an operation on the objects is its effect on the record, also when they are aliased |
| Namespaces.Run | lapol-core/src/internal/namespace.ts:21-100 | over any sequence of operations the invariants stay and every lookup that found something finds the same |
| Namespaces.DownAndUp | lapol-core/src/internal/namespace.ts:58-74 | a step to a child and back to its parent is no step |
| Namespaces.AbsoluteLookupExactly | lapol-core/src/internal/namespace.ts:49-76 | an absolute identifier is looked up like a relative one if every namespace on its way is a root, and throws otherwise |
| Namespaces.LookUpExactly | lapol-core/src/internal/namespace.ts:49-86 | what a lookup finds, and when it finds nothing: if and only if a walk along the path, one binding or parent link for each step, leads to a namespace with or without that key |
| Namespaces.AbsolutePathsThrow | lapol-core/src/internal/namespace.ts:49-76 | so below a root of ordinary namespaces, absolute identifiers with a path throw |

## Left out

- Compile.StandardEnvIsPrintable: `count`, whose output depends on how often it has been called, is not among the commands, and `title` and `author` only check their argument; what they store is not modelled.
- Compile.SourceToLatex: speaks of the output of the documents; the root outputter puts it between a preamble, title, author and required files, which are not modelled.
- Commands that users write in JavaScript, `__require` and `__using`: not modelled. The modelled commands do not look at square arguments, so their values are evaluated but not handed on.
- Parser.TextFrom: offsets count characters; the bytes, lines and columns of a node's position are not modelled.
- RoundTrip.PrintThenParse: start offsets are not compared, since the print stands somewhere else; `StartOffsets.StartsAreInPlace` says what they are. A number in square brackets keeps its text, not its value.
- LatexReadBack.OutputDetermines: content forgets where adjacent strings meet, keys and values, and the children of nodes printed without them; a paragraph and the blank lines it prints are the same content.
- Non-recoverable errors of the parser library: there are two kinds in this grammar. Incomplete input in a string literal is modelled. A number that breaks off after its exponent mark is no number here; either way the command that holds it is malformed and the parse panics.
- The string outputter without escaping: the identity.
- HTML output: its escaping is done by a library that is not part of this model.
- Module loading, files, targets, the registry and the outputter dispatcher: input and output, or tables that are read here as maps.
- Warnings about the root of a document: they have no effect on the result.
