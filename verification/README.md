# A verified model of the chezzi toolchain's core logic

chezzi is a small language with a compiler, a VM, a language server and fuzzers. This project models the
parts whose correctness is an argument rather than a lookup, and proves what each part is for.

| file | what it models |
|---|---|
| `Grammar.dfy` | shortest sentences of a context-free grammar, as a fixpoint |
| `Frames.dfy` | the cheapest accepted context of every nonterminal, by best-first search |
| `Diagnostics.dfy`, `LspProtocol.dfy`, `LspVersions.dfy` | the language server's diagnostics merge: the decisions, every interleaving of the handlers, and which text's report stays |
| `FormatParse.dfy`, `FormatRender.dfy`, `Radix.dfy` | the format mini-language: the slot parser and the renderer |
| `IntOps.dfy`, `ConstFold.dfy` | checked 64-bit arithmetic and the constant fold |
| `Slice.dfy`, `Repr.dfy` | slice resolution and the string, bytes and bytearray representations |
| `SchedFuzz.dfy` | the schedule fuzzer's worker pool |
| `NodeIds.dfy`, `Codec.dfy` | node identities, renumbering, and the build-time artifact |
| `Manifest.dfy` | the project manifest, written by `init` and read back |
| `Boundary.dfy` | what may cross a `spawn:`, `defer:`, `recover:` block or a generator body |
| `Order.dfy`, `Sequences.dfy`, `Wrappers.dfy` | shared helpers |

Loops of the source are methods with loops, objects with fields that change are classes, and each is proved
against a function or a relation whose own properties are lemmas. The concurrent parts (the language server
and the worker pool) are step relations; their theorems hold for every state of every run.

Some promises of the source do not hold as written. The code is modelled as it is, a failing input is given,
and so is the exact case.

- `frames` promises the cheapest context the hand parser accepts (src/conformance.rs:705-706). It only extends
  contexts it has already accepted, so an accepted context inside a refused one is missed:
  `Frames.CheapestClaimFails` gives a three-rule grammar. What the search does give, for every parser, is
  `Search.Solves`. It is globally cheapest if every acceptable nonterminal inherits a cheapest context from
  every cheapest context of some parent (`InheritingIsCheapest`), and only if it inherits one from some cheapest
  context of a parent (`CheapestInherits`). The two coincide, and the condition is exact, where no nonterminal
  has two cheapest accepted contexts (`CheapestIffInherits`); and the frames are always globally cheapest when
  the parser accepts everything (`AcceptAllFindsShortest`).
- Holding the lock across the sends is said to make the last update win at the client
  (src/bin/chezzi-lsp.rs:75-77). What wins is the last check to reach the lock, which need not be the newest
  text's: `LspVersions.OlderReportMayStay` is a run of two checks of one buffer that ends with the older report
  showing and nothing left to do. The newest text's report stays exactly when its check reached the lock last
  (`LspVersions.LastToPublishStays`), and so whenever checks of one buffer reach it in the order of their texts
  (`LspVersions.NewestWinsInOrder`).
- Decoded ids are said to keep their order and to collide with no id this process drew or will draw
  (src/ast/codec.rs:43-44). An id collides with nothing exactly when it was drawn before the counter passed
  2^32 and the counter has not come round to it again (`NodeIds.IdIsUnique`). So a decoded tree that spans its
  range, with the ids its carriers reserve, collides with nothing exactly when the block drawn for it ended
  within 2^32 and the counter has not come round to its start (`Codec.DecodeIsApart`). The order survives
  exactly when the range does not run over 2^32 at its new place (`Codec.OrderSurvives`).

A fold that is a fault names an innermost node whose int arithmetic always faults, as documented
(src/ast/consteval.rs:20): `ConstFold.FaultNamesItsNode`. It does not mean that the whole expression never
returns, since `and` and `or` may skip their right operand (`ConstFold.FaultUnderLogicMayReturn`); that is so
exactly when the expression with those right operands made opaque folds to a fault
(`ConstFold.NeverReturnsIffStrippedFault`).

## Model

| member | source | states |
|---|---|---|
| `Grammar.MinSentences` | src/conformance.rs:627-646 | terminates on every grammar with a sound fixpoint: every entry is derivable, no derivation tree of its nonterminal yields a shorter sentence, and a nonterminal without an entry derives nothing |
| `Grammar.Pass` | src/conformance.rs:630-644 | one pass over the rules either shrinks the measure or leaves a table no alternative improves |
| `Grammar.ImproveEntry` | src/conformance.rs:632-640 | the alternatives of one nonterminal: the table stays sound and only improves; unchanged means settled |
| `Grammar.ExpandSymbols` | src/conformance.rs:649-658 | the loop computes the expansion, None exactly when a nonterminal has no sentence yet |
| `Grammar.ExpandConcat` | src/conformance.rs:649-658 | expanding a concatenation concatenates the expansions, and exists exactly when both do |
| `Grammar.ExpandIsDerived` | src/conformance.rs:648-658 | in a sound table the expansion of an alternative is derived by it |
| `Grammar.ClosedBoundsTree` | src/conformance.rs:626-646 | at a fixpoint, every derivation tree yields at least as much as the entry of its root |
| `Grammar.FixpointIsShortest` | src/conformance.rs:626-646 | a sound fixpoint is the table of shortest sentences |
| `Grammar.UpdateImproves` | src/conformance.rs:636-639 | each update lowers the lexicographic measure (missing entries, total length) |
| `Frames.FindFrames` | src/conformance.rs:707-742 | terminates; popped keys never decrease; every frame is a real context whose minimal sentence the parser accepts, obtained from a framed parent found earlier, and no accepted extension of a framed parent is missing or cheaper; it gives up only if the root, or a nonterminal named by one with an accepted context, derives nothing |
| `Frames.Visit` | src/conformance.rs:715-740 | one popped entry keeps the search invariant and makes progress |
| `Frames.PushChildren` | src/conformance.rs:726-738 | queues exactly the child contexts of the accepted entry whose child is not framed and not itself, and gives up exactly when a nonterminal its alternatives name has no sentence |
| `Frames.ExtendIsNoCheaper` | src/conformance.rs:732-736 | extending a context never lowers its key |
| `Frames.ExtendIsContext` | src/conformance.rs:732-735 | extending a context of a parent by the minimal sentences of the siblings gives a context of the child |
| `Frames.FillSpine` | src/conformance.rs:702-706 | filling a context with any sentence of its nonterminal gives a sentence of the root |
| `Frames.AskedSentence` | src/conformance.rs:719-723 | the parser is asked about the context with the shortest sentence in its hole, one token longer than the key, whose tokens before EOF are a sentence of the root |
| `Frames.Search.AcceptInv` | src/conformance.rs:723-739 | accepting a cheapest entry keeps the search invariant |
| `Frames.Search.DropInv` | src/conformance.rs:715-725 | dropping a framed or refused entry keeps the search invariant |
| `Frames.Search.DoneSolves` | src/conformance.rs:715-742 | an empty queue means the table is sound, complete and cheapest among extensions of framed parents |
| `Frames.Search.CheapestOverall` | src/conformance.rs:705-706 | if acceptance is inherited by parents and survives exchanging the outer part for a cheaper one, the frames are globally cheapest among all accepted contexts |
| `Frames.Search.AcceptAllFindsShortest` | src/conformance.rs:705-706 | with a parser that accepts everything, exactly the nonterminals with a context are framed, each by a globally shortest context |
| `Frames.Search.InheritingIsCheapest` | src/conformance.rs:705-706 | sufficient condition, on grammar and parser alone, for the frames to be cheapest among all accepted contexts, for every tie-break |
| `Frames.Search.CheapestInherits` | src/conformance.rs:705-706 | the condition's weaker form is necessary |
| `Frames.Search.CheapestIffInherits` | src/conformance.rs:705-706 | the condition is exact where cheapest accepted contexts are unique |
| `Frames.CheapestClaimFails` | src/conformance.rs:705-706 | a grammar and a parser for which every run leaves a nonterminal with an accepted context unframed |
| `Frames.NestedMisses` | src/conformance.rs:707-742 | the search itself, on that grammar and parser, returns a table without the nonterminal although it has an accepted context |
| `Diagnostics.GroupByTarget` | src/bin/chezzi-lsp.rs:104-125 | the checked buffer has an entry, and each target has exactly its findings in order |
| `Diagnostics.FindingLands` | src/bin/chezzi-lsp.rs:106-111 | a finding lands on its file's uri, and on the checked buffer's when it has no file or the file no uri |
| `Diagnostics.FindingsConcat` | src/bin/chezzi-lsp.rs:106-125 | findings on a target keep their order |
| `Diagnostics.MergeSources` | src/bin/chezzi-lsp.rs:195-200 | the loop over sorted sources builds the target's union |
| `Diagnostics.UnionTargets` | src/bin/chezzi-lsp.rs:186-204 | exactly one send per target, each the concatenation over all sources in sorted order |
| `Diagnostics.UnaffectedUnion` | src/bin/chezzi-lsp.rs:162-166 | a target a source reports on neither before nor after keeps its union when that source changes |
| `Diagnostics.UnionOfBoth` | src/bin/chezzi-lsp.rs:180-204 | what two groups of sources report, one before the other in uri order, is what the first reports followed by what the second reports |
| `Diagnostics.UnionOfOne` | src/bin/chezzi-lsp.rs:196-198 | one source alone shows its own array, or nothing |
| `Order.LessIsLexical` | src/bin/chezzi-lsp.rs:190-191 | sources are ordered by the first character that differs, a text before its extensions |
| `Diagnostics.Published.DecidePublish` | src/bin/chezzi-lsp.rs:152-167 | declines without change exactly when the buffer is not open; else commits the report and returns the union of every old and new target |
| `Diagnostics.Published.DecideClose` | src/bin/chezzi-lsp.rs:173-178 | forgets the buffer and returns the union of every target it reported on |
| `LspProtocol.SendsArePending` | src/bin/chezzi-lsp.rs:186-204 | the sends a decision returns, applied in order, are the protocol's pending sends |
| `LspProtocol.DecisionIsCoherent` | src/bin/chezzi-lsp.rs:152-178 | after a decision, every target not queued still shows its union at the client |
| `LspProtocol.StepKeepsInv` | src/bin/chezzi-lsp.rs:98-178 | every step keeps: sources are open buffers, and outside the pending sends the client shows every union |
| `LspProtocol.RunKeepsInv` | src/bin/chezzi-lsp.rs:249-303 | the invariant holds in every state of every interleaving |
| `LspProtocol.ClientShowsUnions` | src/bin/chezzi-lsp.rs:85-97 | whenever the lock is free the client's array of each target is the union; while it is held only pending targets may differ |
| `LspProtocol.AllClosedIsClear` | src/bin/chezzi-lsp.rs:286-303 | with every buffer closed and the lock free the client shows nothing for any target |
| `LspProtocol.SourcesAreLastReports` | src/bin/chezzi-lsp.rs:129-167 | after any run, what counts for a buffer is its last report that found it open since its last close, and nothing else |
| `LspProtocol.ClosedStaysSilent` | src/bin/chezzi-lsp.rs:157-161 | a closed buffer does not become a source again before it is opened, whatever checks are in flight |
| `LspProtocol.Drain` | src/bin/chezzi-lsp.rs:128-134 | from every reachable locked state, one send per pending target and a release lead to a free lock, the decision kept and every union shown |
| `LspVersions.RunKeepsTrack` | src/bin/chezzi-lsp.rs:249-284 | in every state of every run: an open buffer with no check ahead shows the report of the last check to reach the lock, the newest text is in flight or was published, and nothing in flight or published is newer |
| `LspVersions.LastToPublishStays` | src/bin/chezzi-lsp.rs:74-81 | once its checks have published, an open buffer's report is that of the last check to reach the lock, and it is the newest text's exactly when that check was |
| `LspVersions.NewestWinsInOrder` | src/bin/chezzi-lsp.rs:74-81 | if checks of a buffer reach the lock in the order of their texts, the newest text's report stays |
| `LspVersions.OlderReportMayStay` | src/bin/chezzi-lsp.rs:249-269 | a run that ends with every handler done, every send made and the older text's report showing |
| `FormatParse.ParseNested` | src/fmtspec.rs:151-288 | the index-advancing parser computes the slot parse, errors included |
| `FormatParse.ParseIsSound` | src/fmtspec.rs:151-288 | accepted slots are well formed and, written in slot order, are exactly the input |
| `FormatParse.ParseIsComplete` | src/fmtspec.rs:151-288 | every well-formed writing of the slots parses back to those slots |
| `FormatParse.SpecRoundTrip` | src/fmtspec.rs:43-70 | every spec can be written, and its text parses to it |
| `FormatParse.ParsedSlots` | src/fmtspec.rs:97-114 | what each written slot becomes: without a written fill the fill is a zero under the `0` flag, whatever the alignment, and a space otherwise; a nested width is 0 and a nested precision 0 until filled |
| `FormatParse.WrittenInOrder` | src/fmtspec.rs:164-265 | the order of the slots, character by character |
| `FormatParse.OneCharacter` | src/fmtspec.rs:316-335 | which characters open each slot, and which alignment each stands for |
| `FormatParse.ErrorIsExplained` | src/fmtspec.rs:211-287 | every error is for a reason the text shows: a number over the cap, a point without a precision, an unknown type, a field out of place, or text after the type |
| `FormatParse.ParsedIsSpec` | src/fmtspec.rs:151-288 | every parsed spec satisfies the spec invariant (caps, slot characters, placeholder values) |
| `FormatParse.WidthCapIsExact` | src/fmtspec.rs:211-227 | a width is refused as too large exactly when the literal's full decimal value exceeds 4096 |
| `FormatParse.PrecisionCapIsExact` | src/fmtspec.rs:235-257 | the same for a precision |
| `FormatParse.ReadNumber` | src/fmtspec.rs:219-223 | the digit loop reads the whole literal, or stops early only when its full value is over the cap |
| `FormatParse.ParseAlign` | src/fmtspec.rs:164-177 | the fill and alignment slot |
| `FormatParse.ParseFlags` | src/fmtspec.rs:179-209 | the sign, `z`, `#` and `0` slots |
| `FormatParse.ParseWidth` | src/fmtspec.rs:211-227 | the width slot, literal or nested |
| `FormatParse.ParsePrecision` | src/fmtspec.rs:235-257 | the precision slot, with a missing or oversized precision an error |
| `FormatParse.ParseTail` | src/fmtspec.rs:229-288 | everything after the width, with the kind of every error |
| `FormatRender.FieldFromInt` | src/fmtspec.rs:294-303 | a nested field's value is taken exactly when it is an int between 0 and the cap, and a missing, negative or too large one has its own error |
| `FormatRender.ArmsAreCovered` | src/fmtspec.rs:483-584 | a parsed spec the check accepts has a type with an arm of its own, for an int and for a float, so no unreachable arm is reached |
| `FormatRender.FailsExactlyWhenRejected` | src/fmtspec.rs:483-571 | rendering fails exactly when the spec check rejects the argument's kind, with that reason |
| `FormatRender.RejectedExactly` | src/fmtspec.rs:483-561 | what the check rejects for an int, a float and a string |
| `FormatRender.RejectedFirst` | src/fmtspec.rs:483-561 | which reason is given when several hold |
| `FormatRender.OtherIsText` | src/fmtspec.rs:565-572 | any other value is laid out, and rejected, as its text |
| `FormatRender.FloatIsPrefixed` | src/fmtspec.rs:585-592 | an int under a float type renders as the float it converts to, and a float's text goes behind its sign |
| `FormatRender.ZeroFillsWhen` | src/fmtspec.rs:345-350 | zeros fill the width under the bare `0` flag and under an `=` alignment whose fill is a zero |
| `FormatRender.DigitRunIs` | src/fmtspec.rs:364-370 | the grouped digits are the leading run, hex ones under a hex type |
| `FormatRender.GroupedBodyIs` | src/fmtspec.rs:358-383 | without zero fill the run is grouped in fours under a radix type and in threes otherwise, and the rest of the text kept |
| `FormatRender.FillingKeepsVerdict` | src/fmtspec.rs:483-561 | filling nested width and precision never changes the verdict on a parsed spec |
| `FormatRender.Apply` | src/fmtspec.rs:340-439 | appends the rendering on success and leaves the buffer untouched on failure |
| `FormatRender.AppendPadded` | src/fmtspec.rs:385-438 | the padding branches append the layout |
| `FormatRender.GroupBody` | src/fmtspec.rs:358-383 | groups the leading digit run, zero-filled first where the spec asks |
| `FormatRender.GrowDigits` | src/fmtspec.rs:372-380 | the loop stops at the least digit count that covers the width |
| `FormatRender.GroupDigits` | src/fmtspec.rs:444-460 | the loop builds the zero-padded digits grouped from the right |
| `FormatRender.Buffer.PushFill` | src/fmtspec.rs:464-468 | appends exactly n fill characters |
| `FormatRender.GroupedAt` | src/fmtspec.rs:441-460 | counted from the right, every fourth (fifth) character is a separator and the others are the digits in order |
| `FormatRender.GroupedEnds` | src/fmtspec.rs:449-452 | a grouped text starts with its first digit, never with a separator |
| `FormatRender.StripGrouped` | src/fmtspec.rs:444-460 | removing the separators gives the digits back |
| `FormatRender.RenderedLength` | src/fmtspec.rs:340-439 | the length is the larger of width and natural length; only zero fill with grouping may exceed it, by one |
| `FormatRender.ZeroFilledGroupLength` | src/fmtspec.rs:352-383 | the overshoot under zero fill with grouping is at most one, and none when the value alone is wide enough |
| `FormatRender.LayoutIsShared` | src/fmtspec.rs:385-438 | the text is prefix and body with fill only where the alignment puts it, the odd one on the right when centred |
| `FormatRender.StrIsPlaced` | src/fmtspec.rs:401-438 | a string is cut at the precision, kept whole otherwise, and filled to exactly the width on the side the alignment says |
| `FormatRender.IntReadsBack` | src/fmtspec.rs:574-605 | for every int and every accepted spec with an int type, unpadded or zero-filled: dropping sign, radix prefix and separators and reading the radix gives the int back |
| `FormatRender.IntTextIs` | src/fmtspec.rs:574-605 | the text of every int, unpadded or zero-filled, is its sign, the prefix `0b`, `0o`, `0x` or `0X` under `#`, and digits that read as its magnitude in radix 2, 8, 16 or 10 by type, in the case of the type, without a leading zero of their own, grouped in threes or fours |
| `FormatRender.IntSeparators` | src/fmtspec.rs:340-460 | in the rendered text of every int with grouping, unpadded or zero-filled, separators stand exactly every 3 or 4 digits from the right and never lead |
| `Radix.RadixRoundTrip` | src/fmtspec.rs:579-584 | a magnitude written in a radix reads back |
| `Radix.RadixIsCanonical` | src/fmtspec.rs:579-584 | only zero starts with the digit 0 |
| `IntOps.BinopIsExact` | src/ast/consteval.rs:106-140 | for all 64-bit operands, `int_binop` gives v exactly when the operator is defined there, v is its mathematical value and v fits |
| `IntOps.NegIsExact` | src/ast/consteval.rs:98-101 | unary minus gives v exactly when v cancels the operand and fits, and overflows exactly for the least 64-bit int |
| `IntOps.FaultsByName` | src/ast/consteval.rs:70-112 | which fault a zero divisor or a shift amount gives, and which operators are not int arithmetic |
| `IntOps.DivisionIsExact` | src/ast/consteval.rs:115-117 | division truncates, the remainder has the dividend's sign and MIN % -1 is 0; only MIN / -1 overflows |
| `IntOps.ShiftIsExact` | src/ast/consteval.rs:121-129 | shifts are multiplication and floor division by a power of two, refused exactly out of range or when the product does not fit |
| `IntOps.ShiftBackIsExact` | src/ast/consteval.rs:121-128 | shifting the wrapped product back gives the operand exactly when the product fits |
| `IntOps.BitwiseIsExact` | src/ast/consteval.rs:118-120 | and, or and xor act on every bit of two's complement, and the result is the only such number |
| `IntOps.OperandFaultIsExact` | src/ast/consteval.rs:70-95 | the right operand has a fault exactly when the operation faults for every left operand, and always with that fault |
| `IntOps.OverflowIsGenuine` | src/ast/consteval.rs:106-128 | every other fault is an overflow whose mathematical value exists and does not fit |
| `ConstFold.Scan.EvalNoting` | src/ast/consteval.rs:179-253 | returns the fold, counts every node once and appends exactly the notes, children first |
| `ConstFold.FoldedValueIsTheValue` | src/ast/consteval.rs:167-174 | a folded value is what strict left-to-right evaluation gives, whatever the leaves and the other operators do |
| `ConstFold.FoldsIffConstant` | src/ast/consteval.rs:167-174 | an expression folds to a constant exactly when it gives that constant whatever the leaves and the other operators do |
| `ConstFold.FloatsThatFold` | src/ast/consteval.rs:142-165 | which float operations fold, and to what |
| `ConstFold.NegatedLiteral` | src/ast/consteval.rs:187-197 | a negated int literal folds to the number that cancels it, and only the least faults |
| `ConstFold.NeverReturnsIffStrippedFault` | src/ast/consteval.rs:179-224 | an expression returns under no behaviour of its leaves exactly when it folds to a fault with the right operands of and/or opaque |
| `ConstFold.FaultNamesItsNode` | src/ast/consteval.rs:19-21 | a fault names a node of the tree whose operands fold to ints and whose own arithmetic faults on them |
| `ConstFold.FaultyNodeIsFound` | src/ast/consteval.rs:185-224 | a tree with such a node folds to a fault |
| `ConstFold.FaultyNodeFaults` | src/ast/consteval.rs:19-21 | such a node, whenever evaluated, faults there and with that fault, whatever the leaves do |
| `ConstFold.FaultMeansNoValue` | src/ast/consteval.rs:179-224 | without and/or: a fault exactly when no behaviour of the leaves gives a value |
| `ConstFold.FaultUnderLogicMayReturn` | src/ast/consteval.rs:207-208 | with `and` a fold may be a fault although the expression returns |
| `ConstFold.IntFoldIsEvaluation` | src/ast/consteval.rs:185-224 | on int literals under arithmetic the fold is the evaluation: the value, or the first fault met and its node |
| `ConstFold.FoldFits` | src/ast/consteval.rs:185-216 | a folded int is a 64-bit int |
| `ConstFold.NotesAreExact` | src/ast/consteval.rs:176-206 | a note is made exactly for the nodes of the tree with a non-constant left operand that fault for every int there |
| `ConstFold.NotesInOrder` | src/ast/consteval.rs:199-206 | notes come in the order of evaluation, operands before the node |
| `ConstFold.SizeCountsNodes` | src/ast/consteval.rs:170-184 | the visits of a scan are the nodes of the tree, each once |
| `ConstFold.NotedNodeFaults` | src/ast/consteval.rs:176-206 | a noted node whose left operand gives an int evaluates to the noted fault |
| `Slice.NormIndex` | src/slice.rs:13-20 | an index is in bounds exactly between -len and len, and names the position from that end |
| `Slice.BoundsAgree` | src/slice.rs:45-68 | the saturating, clamped bounds are those of the unbounded definition |
| `Slice.RangeIndices` | src/slice.rs:41-80 | fails exactly on a zero step; else gives exactly the indices of the unbounded definition, all in bounds |
| `Slice.Walk` | src/slice.rs:69-79 | the checked stepping loop lists every position before the end, overflow included |
| `Slice.IndicesAreComplete` | src/slice.rs:31-39 | start + k * step is selected exactly while it lies before the stop, and is then the k-th index |
| `Slice.StartIs` | src/slice.rs:34-37 | where a slice starts, case by case: missing, inside, from the end, before and beyond |
| `Slice.StopIs` | src/slice.rs:34-37 | where it stops, an inclusive end one position further in the direction of the step |
| `Slice.PlainSlice` | src/slice.rs:34-39 | `xs[a..b]`, `xs[a..=b]` and `xs[-a..]` are those parts of xs, and a start past the end gives nothing |
| `Slice.DownwardSlice` | src/slice.rs:34-39 | with step -1, `xs[b..a]` is the positions from b down to after a, and `xs[b..=a]` down to a |
| `Slice.IndicesInBounds` | src/slice.rs:31-39 | every selected index is a position of the sequence |
| `Slice.SplitAnywhere` | src/slice.rs:31-39 | `xs[..k]` followed by `xs[k..]` is xs for every k |
| `Slice.FullReverse` | src/slice.rs:31-39 | step -1 without bounds reverses the sequence |
| `Repr.StrReprLoop` | src/slice.rs:148-185 | the loop writes the quoted, escaped form |
| `Repr.StrReprReadsBack` | src/slice.rs:128-185 | a reader of Python literals gets every string back, for every printability of non-ASCII characters, and stops exactly at its end |
| `Repr.StrReprIsQuoted` | src/slice.rs:136-151 | the quotes are double exactly when the text holds a single quote and no double one |
| `Repr.CharIsWritten` | src/slice.rs:136-181 | which characters stay as they are, and how each other one is escaped |
| `Repr.EscapeConcat` | src/slice.rs:153-182 | every character is written on its own |
| `Repr.StrReprIsPrefixFree` | src/slice.rs:130-134 | no representation is a proper prefix of another |
| `Repr.ShowIsPrefixFree` | src/vm/display.rs:186-195 | nested list displays of different values differ, and none is a proper prefix of another |
| `Repr.ShowJoins` | src/vm/display.rs:186-195 | a list is shown in brackets, its items joined by a comma and a space |
| `Repr.BytesReprLoop` | src/slice.rs:98-121 | the loop writes the quoted bytes |
| `Repr.QuotedBytesReadBack` | src/slice.rs:98-121 | every byte sequence reads back, with either treatment of single quotes |
| `Repr.BytesReprIsQuoted` | src/slice.rs:98-103 | the quotes of a bytes representation |
| `Repr.ByteIsWritten` | src/slice.rs:104-119 | which bytes stay as they are, and how each other one is escaped, single quotes by either rule |
| `Repr.BytesReprReadsBack` | src/slice.rs:88-128 | `bytes` and `bytearray` representations read back |
| `SchedFuzz.BuildJobs` | src/bin/schedfuzz.rs:205-212 | the job list is the sweep by target, seed and thread count |
| `SchedFuzz.SweepCount` | src/bin/schedfuzz.rs:205-212 | every target, seed and thread count together is listed exactly as often as the thread count is given, and nothing else is |
| `SchedFuzz.SweepInOrder` | src/bin/schedfuzz.rs:206-212 | the sweep goes by target, then by seed |
| `SchedFuzz.SeedJobsAre` | src/bin/schedfuzz.rs:208-210 | and through the thread counts as given |
| `SchedFuzz.StepKeepsInv` | src/bin/schedfuzz.rs:234-317 | every atomic step of every worker keeps the pool's invariant |
| `SchedFuzz.RunKeepsInv` | src/bin/schedfuzz.rs:233-318 | the invariant holds in every state of every schedule |
| `SchedFuzz.NothingTwice` | src/bin/schedfuzz.rs:240-272 | no job is taken twice, no baseline is measured twice, and the findings count is the number of jobs judged a finding |
| `SchedFuzz.CleanExitIsClean` | src/bin/schedfuzz.rs:320-339 | exit code 0 means every job was run against a stable baseline and its run judged clean, or its baseline was found unstable and reported so |
| `SchedFuzz.CleanExitCoversSweep` | src/bin/schedfuzz.rs:205-212 | hence every target, seed and thread count asked for |
| `SchedFuzz.FindingExitIsReal` | src/bin/schedfuzz.rs:330-339 | exit code 1 exactly when some run was judged a finding, whether or not the harness broke |
| `SchedFuzz.BrokenExitIsReal` | src/bin/schedfuzz.rs:330-339 | exit code 2 exactly when nothing was found and the harness broke, at a run or at a baseline |
| `SchedFuzz.BrokenStopsTaking` | src/bin/schedfuzz.rs:222-239 | once the harness is flagged broken it stays so, and only workers already past the check still take a job, one each at most |
| `SchedFuzz.RunIsBounded` | src/bin/schedfuzz.rs:234-317 | every schedule ends: it has at most 5 steps per job and 2 per worker |
| `SchedFuzz.NeverStuck` | src/bin/schedfuzz.rs:234-317 | until all workers are done one of them can step |
| `NodeIds.IdIsUnique` | src/ast/mod.rs:1836-1838 | for every sequence of draws, an id differs from SYNTH and every other id drawn exactly when it was drawn before the counter passed 2^32 and the counter has not come round to it |
| `NodeIds.BlockIsUnique` | src/ast/mod.rs:1832-1838 | the same for a whole block: it ended within 2^32 and the counter has not come round to its start |
| `NodeIds.DistinctUntilWrap` | src/ast/mod.rs:1836-1838 | all ids drawn are distinct and none is synthetic exactly until the counter passes 2^32 |
| `NodeIds.RangeIsWhatWasDrawn` | src/ast/codec.rs:30-36 | until then, the range between two readings of the counter holds exactly the ids drawn in between |
| `NodeIds.Counter.Add` | src/ast/mod.rs:1836-1838 | one atomic addition modulo 2^32 is the next draw |
| `NodeIds.Counter.FreshBlock` | src/ast/mod.rs:1836-1838 | with any draws of other threads before it, returns the first id of a draw of its own of that width |
| `NodeIds.Counter.Renumber` | src/ast/mod.rs:2236-2243 | every id the walk meets becomes a draw of its own, of its width, in walk order; nothing else of the tree changes |
| `NodeIds.ErasedAlike` | src/ast/mod.rs:2235-2243 | "nothing else changes" means: same kinds, contents, spans and skipped parts throughout, and only ids the walk meets may differ |
| `NodeIds.RenumberedIsUnique` | src/ast/mod.rs:1832-1847 | every id of a renumbered tree, the ones its carriers reserve included, is an id of its own draw, with the exact condition under which nothing else has it |
| `NodeIds.DuplicateIds` | src/ast/mod.rs:2247-2253 | the filter through a seen-set lists exactly the later occurrences of an id, SYNTH apart |
| `NodeIds.WalkMeets` | src/ast/mod.rs:1897-2261 | the walk meets every node with an id that its steps reach, with the node's width |
| `NodeIds.WalkMeetsOnly` | src/ast/mod.rs:1897-2261 | and nothing else |
| `NodeIds.WalkInOrder` | src/ast/mod.rs:2106-2108 | each node once, before its parts, the parts in order |
| `NodeIds.DuplicatesAre` | src/ast/mod.rs:2245-2253 | the check lists the entries whose id, not SYNTH, an earlier entry has |
| `NodeIds.DuplicatesCount` | src/ast/mod.rs:2245-2253 | every occurrence of an id but its first |
| `NodeIds.NoDuplicatesIffDistinct` | src/ast/mod.rs:2245-2253 | the check is silent exactly when no two walked nodes share an id |
| `NodeIds.RenumberedDuplicatesIff` | src/ast/mod.rs:2235-2253 | a renumbered tree passes the check exactly when the 32-bit counter did not come round from one of its draws to another |
| `NodeIds.RenumberedHasNoDuplicates` | src/ast/mod.rs:2235-2253 | a renumbered tree passes the check, wherever the counter stands, as long as fewer than 2^32 ids were drawn meanwhile |
| `Codec.U32ReadsBack` | src/ast/codec.rs:13-17 | a 32-bit word reads back, whatever follows |
| `Codec.TreeReadsBack` | src/ast/codec.rs:19-29 | a written tree reads back with every id shifted and SYNTH kept |
| `Codec.Decoder.Decode` | src/ast/codec.rs:45-54 | the result is the artifact's tree read at the first id of a draw as wide as its range; an artifact refused for its range draws nothing; the shift is reset on every path |
| `Codec.Decoder.Perform` | src/ast/codec.rs:45-54 | for every mix of fresh blocks, renumberings and decodes, what each returns is told by draws of its own, later operations having later draws |
| `Codec.MixIsApart` | src/ast/codec.rs:43-54 | in every mix, exactly when an id was drawn before the counter passed 2^32 and the counter has not come round to it, it differs from SYNTH and from the ids of every other draw |
| `Codec.DecodeMovesIds` | src/ast/codec.rs:38-54 | decoding an encoded tree adds one distance, modulo 2^32, to every id but SYNTH, skipped parts included, and changes nothing else |
| `Codec.OrderSurvives` | src/ast/codec.rs:43-44 | the ids of a range keep their order exactly when the range does not run over 2^32 at its new place |
| `Codec.DecodedIsInItsBlock` | src/ast/codec.rs:43-54 | every id of a decoded tree, walked or skipped, and every id a carrier reserves there, is the id at the same offset of the block drawn for it |
| `Codec.EverythingMeets` | src/ast/codec.rs:19-20 | these are all nodes of the tree with an id, the ones the walk skips included |
| `Codec.DecodeIsApart` | src/ast/codec.rs:43-54 | none of these is SYNTH or an id drawn for anything else if the block ended within 2^32 and the counter has not come round to its start, and only then when the tree spans its range |
| `Codec.StaysClear` | src/ast/codec.rs:43-44 | later draws keep that so exactly until the counter comes round to the start of the block |
| `Codec.WalkIsMoved` | src/ast/codec.rs:43-44 | the walk of the decoded tree is the walk with every id moved: same order of nodes, widths and gaps |
| `Codec.DecodeKeepsUniqueness` | src/ast/codec.rs:43-44 | a tree without duplicate ids decodes to one without, wherever the counter stands |
| `Codec.TrailingIsRefused` | src/ast/codec.rs:53-53 | an artifact with bytes left over is refused |
| `Codec.BackwardRangeIsRefused` | src/ast/codec.rs:48-48 | an artifact whose range ends before it starts is refused and draws nothing |
| `Manifest.ParseManifest` | src/manifest.rs:41-102 | the line loop computes the reading, the first malformed line and its kind included |
| `Manifest.ReadLine` | src/manifest.rs:50-88 | one line: blank, section, pair, or the kind of its error |
| `Manifest.StripCommentLoop` | src/manifest.rs:107-127 | the flag-driven scan cuts at the first `#` outside a string |
| `Manifest.ParseStringValueLoop` | src/manifest.rs:131-151 | the unescaping loop |
| `Manifest.UnescapeInvertsEscape` | src/main.rs:802-807 | the reader's unescaping undoes the writer's two replacement passes, for every string |
| `Manifest.StripEscaped` | src/manifest.rs:103-127 | the comment scan never leaves an escaped string early, whatever quotes, backslashes and `#` it holds |
| `Manifest.StripCuts` | src/manifest.rs:104-127 | a comment is cut off at a `#`, and nothing before it changes |
| `Manifest.TrimCuts` | src/manifest.rs:51-51 | trimming cuts white space at both ends and nothing else |
| `Manifest.LineEnds` | src/manifest.rs:49-49 | lines end in a line feed, with or without a carriage return, and the last may have no end |
| `Manifest.MarkIsDroppedOnce` | src/manifest.rs:42-45 | a byte order mark is dropped once |
| `Manifest.SectionLines` | src/manifest.rs:52-70 | which lines are blank, sections, or one of the two errors of a section |
| `Manifest.PairLines` | src/manifest.rs:72-88 | which lines are pairs, split at the first `=` with a quoted value, or one of the three errors of a pair |
| `Manifest.Backslashes` | src/manifest.rs:135-149 | what a backslash does before each character and at the end |
| `Manifest.PairReadsBack` | src/manifest.rs:72-88 | a pair written with an escaped value, spaces and a comment reads back as that key and value |
| `Manifest.FileReadsBack` | src/manifest.rs:41-102 | a file of comment lines, one section and escaped pairs reads back as exactly those pairs in order |
| `Manifest.FileMeans` | src/manifest.rs:90-98 | under `project` each known key has the value of its last pair and other keys change nothing; under any other section nothing is captured |
| `Manifest.ControlsAreDropped` | src/main.rs:802-805 | the name loses its control characters and nothing else |
| `Manifest.PlainNameIsKept` | src/main.rs:796-829 | a directory name without control characters is the project's name as it is |
| `Manifest.ManifestReadsBack` | src/main.rs:796-829 | for every directory name the scaffolded manifest parses to that name without control characters (or "app"), version "0.1.0" and entrypoint "src.main:main" |
| `Boundary.Checker.Enter` | src/checker/boundary.rs:214-216 | entering a loop or block leaves the stack and depth of the longer path |
| `Boundary.Checker.Leave` | src/checker/boundary.rs:217-219 | leaving restores those of the path before |
| `Boundary.Checker.BlockVerdict` | src/checker/boundary.rs:224-242 | the scan of the stack gives the lexical verdict |
| `Boundary.StackIsPath` | src/checker/boundary.rs:221-242 | for every nesting, scanning entries with their loop depths equals walking the lexical path outward to the construct's target |
| `Boundary.ScanIsWalk` | src/checker/boundary.rs:229-241 | comparing loop depths stops a loop exit exactly at its own loop |
| `Boundary.TableIs` | src/checker/boundary.rs:57-125 | which block has a rule for which construct, which rule it is, and the one target |
| `Boundary.Transparent` | src/checker/boundary.rs:229-234 | a scope without a rule can be left out of the path |
| `Boundary.LoopExits` | src/checker/boundary.rs:221-232 | a loop exit is free in its loop and outside every loop, and stopped by a block inside the loop |
| `Boundary.RecoverCatches` | src/checker/boundary.rs:93-110 | `?` is caught by the recover block it stands in, and `return` is not let out |

## Left out

- Frames.Search.CheapestIffInherits: exact only where no nonterminal has two cheapest accepted contexts; with ties the sufficient and the necessary form differ in whether all or some cheapest parent contexts are inherited.
- Grammar.MinSentences: rules are visited in an arbitrary order instead of name order, so the theorem covers the source's order.
- Frames.FindFrames: any entry of least key may be popped instead of the first in tuple order, so the theorem covers the source's tie-break; the hand parser is an arbitrary predicate on terminal names.
- Frames.FindFrames: requires a table from `min_sentences`; giving up is None, without the texts of the panics.
- LspProtocol.RunKeepsInv: the type check's findings, the conversion of paths to uris and the order of sends are arbitrary; the `docs` map, hover, semantic tokens and log messages are not modelled.
- FormatRender.Apply: float text (shortest digits, exponents, general format) is an arbitrary function of spec and value; layout, grouping and validity around it are proved. Error texts are kinds.
- FormatRender.IntReadsBack: only for unpadded and zero-filled text, since other fill characters can be digits; LayoutIsShared covers where any fill goes.
- ConstFold.FoldedValueIsTheValue: float arithmetic is an arbitrary function, so rounding is not modelled.
- Slice.RangeIndices: a sequence's length is at most the largest 64-bit int.
- Repr.StrReprReadsBack: which non-ASCII characters are printable is an arbitrary predicate instead of the generated table.
- Repr.ShowIsPrefixFree: lists of strings and lists; other containers, cycles and display depth are not modelled.
- SchedFuzz.StepKeepsInv: measuring, running and judging have arbitrary results; the printed lines are not modelled.
- Codec.DecodeIsApart: exact for a tree that spans its range; in a wider range the block may be wanting where the tree holds no id, and `NodeIds.IdIsUnique` is exact for each id.
- NodeIds.Counter.Renumber: trees are generic nodes with walked and skipped parts instead of the per-kind child tables of the walker, and a renumbered tree is a new value instead of an update in place.
- Codec.TreeReadsBack: node contents are one word in a stand-in layout instead of the derived encoding of every node kind.
- Manifest.ManifestReadsBack: the header and the trailing comment are any comment lines, which covers the texts written; error texts are kinds with their line.
- Boundary.Checker.BlockVerdict: one function frame; the reasons are kinds instead of their texts.
- The Earley engine, the reading of the grammar text, sample tokens and the coverage tests of src/conformance.rs.
- `split_entrypoint` and `entrypoint_file` of src/manifest.rs, and all file, process and argument handling: easy or outside the model.
- The parser, checker types, compiler, bytecode, VM and scheduler.
