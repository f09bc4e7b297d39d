# DEX parsing and control flow, verified

A Dafny model of the core of the droidsaw-dex crate: the readers that turn the bytes of an Android
`classes.dex` file into annotations, method bodies, debug information and class members, and the
builder that turns a method body into a control-flow graph. Each loop of the crate is a method proved
equal to a specification function; what the crate promises is proved of these functions and carried
from bytes to results.

The main results:

- **Annotations.** The explicit-stack parser of `encoded_value` computes exactly what a recursive
  grammar says, and gives up exactly on values nested deeper than its 65,536 frames. Every value of every
  type, written as header byte and digits, is read back. Any tree printed
  with any admissible widths is read back; reading is local to the bytes of the value; a parsed value and its
  walked widths restore the bytes if and only if names ascend on disk and the encoding is canonical.
- **Method bodies.** A whole code item written as bytes reads back. The log holds a violation if and only
  if the code has the fault. Decoded items tile the code. With an empty log every branch lands on an instruction,
  and then no run of the method leaves its graph. The bytes of every switch become its edges, entry by entry,
  if and only if no other switch owns a non-empty table at its target.
  Kept tries are the stored ones cut to the code, disjoint when no order violation was logged, and every
  instruction a stored try touches has an edge to every handler encoded for it.
- **Control-flow graph.** Every block start has a reason and every reason starts a block. The edge set is
  exact, and so is the order of successors. All runs stay in the graph if and only if no leader
  splits a fall-through. The builder and the naive builder used as its test oracle agree if and only
  if four stated conditions hold.
- **Debug information.** A line program given as moves answers every pc with the line of its last move. The
  line and the local name found for a pc are those a replay of the debug instructions has at that pc; for
  names if and only if no restart of a live register erases one. The scanner's bytes alone parse to the
  same result.
- **Class members and the class index.** `class_data` reading is local and inverts the delta coding. The
  indexed and the scanning form of the bridge-constructor test agree exactly when no type with the same
  descriptor is synthetic where the type itself is not.

Positions in the model are absolute (`Read(value, next)`), where the crate returns lengths. Maps and sets
the crate iterates in key order (`BTreeMap`, `BTreeSet`) are ascending lists where the order matters and
Dafny maps and sets where it does not. An opcode is its byte. Error values keep the variant and its
numeric fields; messages are dropped. String and type pools, and the class table, are parameters.

Where the documentation and the code disagree, the model follows the code: the two iterative parsers say
they have no depth limit, but stop at 65,536 frames (src/annotation.rs:313 and 342 against 653); the line
table's `line_at` comment mentions a fallback to `line_start` that the code does not have
(src/debug.rs:312-315).

## Files

| file | content |
|---|---|
| Basics | bytes, errors, checked arithmetic, byte windows |
| CountGuards | the count guard at every place it is used |
| Leb128 | ULEB128 and SLEB128 |
| EncodedValues, ValueTypes, ValueGrammar, CollectorStack, ValuePrinter, WidthWalker, AnnotationTheorems | `encoded_value` |
| CodeModel, InsnDecoder, BranchEncoding, PayloadEncoding, InsnTheorems, InsnLog | instruction streams |
| CodeItemParser, HandlerEncoding, CodeItemPrinter, CodeItemTheorems, CodeItemLog | `code_item`, tries and handlers |
| Cfg, CfgWalk, CfgTheorems, CfgEdges, CfgLeaders | the graph builder and runs of a method |
| OpcodeTables, CfgOracle, CfgAgreement | the naive builder and the comparison |
| CodeExamples | code items, as bytes, on which a property gives way |
| DebugInfo, DebugPrinter, DebugTheorems, DebugMeaning, DebugExamples, DebugScan | `debug_info_item` |
| ClassData, TypeIndex | `class_data_item`, the type-to-class index |

## Model

| member | source | states |
|---|---|---|
| Leb128.ReadUleb128 | src/cfg_oracle.rs:665-678 | the value of up to five 7-bit groups modulo 2^32 and the position after them, or failure at the start position |
| Leb128.ReadSleb128 | src/cfg_oracle.rs:680-703 | the two's-complement value of the groups wrapped to 32 bits, or failure at the start position |
| Leb128.LebFailsAtEnd | src/mutf8.rs:74-82 | both readers fail exactly when the input ends inside the number: fewer than five bytes, all continued |
| Leb128.PushUleb | src/debug.rs:912-925 | appends the encoding that UlebRoundTrip inverts |
| Leb128.UlebRoundTrip | src/debug.rs:912-925 | reading inverts the encoder for every u32, wherever the bytes stand, and the encoding has the least possible length |
| Leb128.MinimalUlebIsEncoded | src/cfg_oracle.rs:665-678 | the bytes read are the encoder's own if and only if there is no padding group and no dropped bit |
| Leb128.UlebLocal | src/cfg_oracle.rs:665-678 | reading depends only on the bytes consumed |
| Leb128.SlebLocal | src/cfg_oracle.rs:680-703 | reading depends only on the bytes consumed |
| Leb128.SlebRoundTrip | src/cfg_oracle.rs:680-703 | reading inverts the shortest signed encoding of every i32, wherever the bytes stand |
| Leb128.SignExtension | src/cfg_oracle.rs:680-703 | shifting in ones above the last group gives the two's-complement value of the groups modulo 2^32 |
| Basics.BoundIsCapacity | src/error.rs:273-282 | the guard admits a count if and only if that many items of the stride fit the input |
| EncodedValues.ReadUint | src/annotation.rs:954-972 | the little-endian value of the bytes, or the first missing byte |
| EncodedValues.ReadInt | src/annotation.rs:928-952 | the two's-complement value of the bytes |
| EncodedValues.ReadUintRightExtend | src/annotation.rs:974-992 | the bytes as the high bytes of a 64-bit word |
| EncodedValues.DecodePrimitive | src/annotation.rs:809-925 | one header and payload, with every size and tag error, as the grammar's primitive |
| EncodedValues.NarrowingIsExact | src/annotation.rs:809-925 | no width the decoder accepts makes its narrowing cast lose bits |
| EncodedValues.PayloadRoundTrip | src/annotation.rs:1001-1015 | payload bytes of any width that fits a value decode to the value, in all three layouts |
| EncodedValues.PayloadReprint | src/annotation.rs:809-925 | the decoded value fits the width read, and printing it at that width restores the bytes |
| ValueTypes.WidthsExact | src/annotation.rs:827-900 | a value can be written in w bytes if and only if it is in the number range of the decoded type and those w bytes hold it, ranges given as numbers |
| ValueTypes.EveryValueFits | src/annotation.rs:827-900 | every value of i8, i16, u16, i32, i64, the two float patterns and u32 indices can be written, and nothing else |
| ValueTypes.TypedValueReadsBack | src/annotation.rs:809-925 | every such value, written as its literal header byte and its base-256 digits in two's complement, is what is read there |
| ValueTypes.ExcessWidthRefused | src/annotation.rs:809-925 | a width above the type's own is refused, whatever follows |
| ValueTypes.BareHeaders | src/annotation.rs:905-918 | the header bytes that are null, false and true, and the tags no value has |
| ValueTypes.EmptyComposites | src/annotation.rs:555-598 | the bytes of the empty array and of an annotation without elements |
| ValueGrammar.BudgetExact | src/annotation.rs:651-655 | reading with a nesting budget is reading without one, except that it is refused exactly when the nesting exceeds the budget |
| ValueGrammar.NeverExhausted | src/annotation.rs:343-355 | with a budget of one per byte the nesting error cannot arise |
| ValueGrammar.NestingIsHeight | src/annotation.rs:343-355 | the nesting met is the height of the tree read |
| ValueGrammar.InsertIsMapUpdate | src/annotation.rs:757-761 | inserting a name keeps the list ascending and updates exactly that key |
| ValueGrammar.NormalizeIsIdentity | src/annotation.rs:757-761 | collapsing into ordered maps leaves a tree unchanged if and only if all its annotations list strictly ascending names |
| CollectorStack.OpenThenFinish | src/annotation.rs:555-598 | opening the frame of a composite and finishing it is what the grammar reads there, errors included |
| CollectorStack.PrimeTop | src/annotation.rs:622-629 | reads the pending element name exactly when the top annotation still needs one |
| CollectorStack.DeliverToTop | src/annotation.rs:742-777 | the child goes to the top frame and the machine resumes with the same final meaning |
| CollectorStack.PopCompleted | src/annotation.rs:631-641 | assembles finished frames until one waits for a value, keeping the final meaning of the stack |
| CollectorStack.DriveCollectorStack | src/annotation.rs:611-701 | terminates with what the recursive grammar says the start frame stands for, within 65,536 frames |
| CollectorStack.ParseEncodedValue | src/annotation.rs:343-355 | value, byte count and error of the recursive grammar, annotations as ordered maps |
| CollectorStack.ParseEncodedAnnotation | src/annotation.rs:314-336 | the same for a bare annotation body |
| CollectorStack.ParseEncodedArray | src/annotation.rs:371-402 | the values and byte widths of an array item in order |
| CollectorStack.ItemsAreValues | src/annotation.rs:371-402 | array items are the grammar's elements, and each recorded width of a scalar is one its value fits |
| CollectorStack.StackLimit | src/annotation.rs:651-655 | the stack error of a value arises if and only if its nesting exceeds 65,536, and otherwise the limit changes nothing |
| CollectorStack.AnnotationStackLimit | src/annotation.rs:314-336 | the same for a bare annotation body, whose own frame counts |
| ValuePrinter.ParsePrinted | src/annotation.rs:809-992 | printed trees are read back at any budget from their height up, whatever surrounds them |
| ValuePrinter.ValueLocal | src/annotation.rs:343-402 | a value is read from its own bytes alone |
| WidthWalker.WalkOneForWidths | src/annotation.rs:485-545 | appends the pre-order widths of the value and moves to where the specification walk ends |
| WidthWalker.WalkFollowsParser | src/annotation.rs:485-545 | along a parsed tree in disk order the walk ends where the parser ended, with one fitting width per scalar |
| WidthWalker.WalkSeesShape | src/annotation.rs:485-545 | trees of one shape are walked alike: values, names and kinds of scalar do not matter |
| WidthWalker.ReprintExact | src/annotation.rs:421-545 | printing with the walked widths restores the bytes if and only if LEB128s are minimal and composite, null and boolean headers canonical |
| WidthWalker.WalkPrinted | src/annotation.rs:485-545 | walking printed bytes gives back the widths they were printed with |
| AnnotationTheorems.RoundTrip | src/annotation.rs:343-355 | the iterative parser returns any printed tree with its annotations as maps, itself exactly when names ascend, and refuses exactly trees deeper than its stack |
| AnnotationTheorems.ArrayItemRoundTrip | src/annotation.rs:371-402 | a printed array item is read back: values as maps, and for each element the bytes after its header, stopping at 255 |
| AnnotationTheorems.ScalarWidths | src/annotation.rs:371-402 | for scalars those are the widths it was written with |
| AnnotationTheorems.ParserIsLocal | src/annotation.rs:343-402 | parsing only the consumed bytes gives the same value and length |
| AnnotationTheorems.WidthsOfParsedValue | src/annotation.rs:421-545 | the parsed value and its walked widths restore the bytes if and only if names ascend on disk and the encoding is canonical; the walk ends with the parser whenever the maps keep the tree's shape |
| AnnotationTheorems.WalkLosesRepeatedName | src/annotation.rs:759-759 | an annotation that stores a name twice makes the walk stop short of the parser |
| InsnDecoder.ScanStream | src/decode.rs:1239-1444 | the cursor loop yields the instructions, tables to resolve, opcode starts and log of the item list, or its failure |
| InsnDecoder.CheckLandings | src/decode.rs:1459-1524 | exactly the mid-instruction and move-result violations of every in-range branch target |
| InsnDecoder.ResolvePayloads | src/decode.rs:1527-1588 | tables resolved in order, later ones overwriting, with ident and case-range violations |
| InsnDecoder.DecodeInsns | src/decode.rs:1222-1592 | the whole decoder: scan, tail check, landing checks and tables |
| BranchEncoding.BranchRoundTrip | src/decode.rs:732-843 | a branch written with any displacement its format can hold decodes to the address that far away, or is refused when there is none |
| BranchEncoding.RangeRoundTrip | src/decode.rs:883-912 | a range form is refused if and only if one of its at most five kept registers is past 16 bits |
| BranchEncoding.OthersDecode | src/decode.rs:687-983 | every other mapped opcode decodes from any readable units, at its size, without a target |
| OpcodeTables.ClassesAgree | src/cfg_oracle.rs:315-366 | the oracle's byte sets and the builder's classes of goto, if, switch and leaving opcodes are the same, and disjoint |
| OpcodeTables.SizesAgreeExactly | src/cfg_oracle.rs:127-236 | decoder and oracle give every byte the same size but for seven long forms, whose sizes are stated |
| OpcodeTables.BranchForms | src/decode.rs:79-167 | which bytes keep their displacement in a byte, a unit or a word |
| InsnTheorems.EveryUnitInOneItem | src/decode.rs:1239-1444 | every unit below the code size is in exactly one instruction, payload or unknown opcode |
| InsnTheorems.DecodeTiles | src/decode.rs:1239-1457 | items follow one another from 0 past the end, instructions ascend without overlap, and the tail violation is logged if and only if an item overshoots |
| InsnTheorems.SkipCoversTable | src/decode.rs:1249-1291 | the units skipped for a payload are exactly those its decoded table occupies |
| PayloadEncoding.ItemKinds | src/decode.rs:1239-1300 | a unit starts a table, an unmapped byte or an instruction exactly by these values |
| PayloadEncoding.PackedSkipped | src/decode.rs:1249-1291 | a written packed table is stepped over as one item of its own length |
| PayloadEncoding.SparseSkipped | src/decode.rs:1249-1291 | the same for a sparse table |
| PayloadEncoding.ArraySkipped | src/decode.rs:1249-1291 | the same for array data, an odd byte padded |
| PayloadEncoding.PackedRoundTrip | src/decode.rs:1051-1091 | a written packed table reads back: first key, and targets at their displacements from the switch |
| PayloadEncoding.SparseRoundTrip | src/decode.rs:1093-1141 | the same for a sparse table with its keys |
| PayloadEncoding.ArrayRoundTrip | src/decode.rs:1143-1200 | array data of every element width reads back byte for byte |
| PayloadEncoding.OtherWidthRefused | src/decode.rs:1145-1162 | any other element width is refused |
| PayloadEncoding.ArrayBytesKept | src/decode.rs:1527-1588 | the decoder keeps exactly the written bytes for every fill-array-data instruction, shared or not |
| PayloadEncoding.SwitchBytesKept | src/decode.rs:1527-1588 | a switch that takes its table last keeps the written keys and targets |
| InsnTheorems.CleanTargetsLand | src/decode.rs:1298-1524 | with an empty log every goto and if target is the address of a decoded instruction |
| InsnLog.LogExact | src/decode.rs:1239-1588 | a violation is in the log if and only if the code has the fault it names, for each of the ten kinds |
| InsnLog.RangeLoggedExactly | src/decode.rs:1298-1588 | a target out of range is logged if and only if some instruction, or case of a table it takes, has one |
| InsnTheorems.CleanCodeStaysInGraph | src/cfg.rs:276-313 | with an empty log and landing cases and handlers, the walk theorem's condition holds and all runs stay in the graph |
| InsnTheorems.KeptTable | src/decode.rs:1527-1588 | the table kept at an address is the one decoded for the last instruction that takes it |
| InsnTheorems.KeptTableIsTaken | src/decode.rs:1527-1588 | every table kept was taken by some decoded instruction |
| InsnTheorems.SwitchKeepsItsTable | src/decode.rs:1587-1587 | a switch keeps the table its own bytes encode if and only if it takes it last or the table is empty |
| InsnTheorems.TableEntries | src/decode.rs:1051-1141 | key and target of every entry of a decoded switch table are those its bytes encode, relative to the switch |
| InsnTheorems.CasesOwnedExactly | src/cfg.rs:392-427 | for every switch, the cases the builder reads are its own (none if it takes no table) if and only if no other switch owns a non-empty table at its target |
| InsnTheorems.SwitchBytesBecomeEdges | src/cfg.rs:391-427 | from bytes to edges, for every switch: default edge, one case edge per entry of its own bytes in order, then only exception edges, under that same condition and only then |
| CodeExamples.SharedBytesLoseTable | src/decode.rs:1587-1587 | a code item in which a switch ends up with the cases of a later one |
| CodeItemParser.ReadTries | src/decode.rs:1691-1787 | the non-empty tries in order and exactly the order, emptiness and range violations |
| CodeItemParser.ReadHandlers | src/decode.rs:1789-1848 | the handler list and a map from byte offset to index that agrees with the position of every handler |
| HandlerEncoding.HandlerRoundTrip | src/decode.rs:1808-1846 | a handler written with its signed size, typed catches and catch-all reads back whole |
| CodeItemParser.ResolveHandlers | src/decode.rs:1850-1861 | each kept try with its clamp and handler index, or the unresolved-offset error |
| CodeItemParser.ParseCodeItem | src/decode.rs:1623-1889 | header, instructions, tries, handlers and log of a code item, or the first error |
| CodeItemPrinter.TryRoundTrip | src/decode.rs:1702-1724 | a try item written as its eight little-endian bytes reads back |
| CodeItemPrinter.TriesRoundTrip | src/decode.rs:1691-1787 | a written try table reads back entry by entry |
| CodeItemPrinter.ExceptionsRoundTrip | src/decode.rs:1691-1861 | a written table and handler list read back: covering tries in order, each with the handler it named, and all handlers |
| CodeItemPrinter.UnresolvedRefused | src/decode.rs:1850-1861 | a covering try whose offset is not that of a handler refuses the item |
| CodeItemPrinter.CodeItemRoundTrip | src/decode.rs:1623-1889 | a whole written item, of odd or even size, reads back: its four header fields, its own units, tries cut to the code, handlers |
| CodeItemLog.TryLogExact | src/decode.rs:1725-1787 | an order, emptiness or range violation is logged if and only if the table has that fault, with its index and addresses |
| CodeItemLog.ItemLogExact | src/decode.rs:1623-1889 | the log of an item is that of its code, the faults of its try table and inverted register counts, nothing else |
| CodeItemTheorems.KeptRangeIsCut | src/decode.rs:1761-1786 | a kept range is the stored range intersected with the code, pc by pc, and does not overflow 32 bits |
| CodeItemTheorems.TriesMeanTheirBytes | src/decode.rs:1691-1861 | kept tries are the non-empty stored ones, each cut to the code, and each index denotes the handler encoded at its byte offset |
| CodeItemTheorems.OrderIsLogged | src/decode.rs:1725-1743 | the order violation is logged if and only if some try starts before the stored end of its predecessor |
| CodeItemTheorems.UnloggedTriesAreDisjoint | src/decode.rs:1725-1743 | with no order violation the kept tries are sorted and pairwise disjoint |
| CodeItemTheorems.ParsedCodeIsValid | src/decode.rs:1623-1889 | every parsed item meets what the graph builder requires |
| CodeItemTheorems.ParsedTablesPaired | src/decode.rs:1093-1141 | every sparse table of a parsed item has one target per key, as the naive builder requires |
| CodeItemTheorems.StoredTryReachesHandlers | src/cfg.rs:467-506 | every instruction a stored try touches is in a block with an edge to each handler encoded at the try's offset |
| CodeItemTheorems.CleanItemStaysInGraph | src/cfg.rs:276-506 | an item parsed without violations, with landing cases and handlers, keeps every run in its graph |
| Cfg.FindLeaders | src/cfg.rs:276-316 | the ascending list of leaders: 0, after branches and terminals, branch and case targets, handlers |
| CfgLeaders.LeadersHaveReasons | src/cfg.rs:276-316 | an address is a leader if and only if it is 0, a handler, the target of a jump, or right after a branch or leaving instruction |
| CfgLeaders.SameBlockExactly | src/cfg.rs:323-356 | two instructions share a block if and only if no address between them has such a reason |
| CfgLeaders.PlainRunsOn | src/cfg.rs:276-356 | a plain instruction and its follower share a block if and only if control does not enter in between |
| Cfg.BuildBlocks | src/cfg.rs:323-356 | block i holds the instructions from its leader to the next, and the address map inverts the leader list |
| Cfg.AddEdges | src/cfg.rs:364-460 | the normal edges of every block, nothing else changed |
| Cfg.AddExceptionEdges | src/cfg.rs:467-506 | the exception edges of every block, appended |
| Cfg.FillPredecessors | src/cfg.rs:512-520 | predecessors become the exact converse of successors |
| Cfg.BuildExceptionRegions | src/cfg.rs:527-556 | one region per try with its range and handler edges |
| Cfg.Build | src/cfg.rs:63-94 | the graph of a method, or the graph without blocks when there is no instruction |
| CfgWalk.EveryRunIsAWalk | src/cfg.rs:276-506 | every finite run, by any mix of steps, is a walk: inside a block, or from its last instruction along an edge of the step's kind |
| CfgTheorems.EdgesExact | src/cfg.rs:364-506 | a block has an edge if and only if its last instruction continues so, or a try over the block has that handler |
| CfgTheorems.RunsStayInGraph | src/cfg.rs:276-506 | all steps stay in the graph if and only if no leader splits a plain instruction that runs on |
| CfgTheorems.SplitStepIsLost | src/cfg.rs:444-451 | a leader strictly inside such an instruction loses its fall-through |
| CodeExamples.SplitBytesLoseStep | src/cfg.rs:444-451 | a code item, as bytes, whose graph lacks a step of the method |
| CfgTheorems.BlocksPartition | src/cfg.rs:323-356 | concatenating the blocks gives back the instruction list |
| CfgTheorems.BlockAtFindsInstruction | src/cfg.rs:106-112 | looking up an instruction's address gives the block that holds it |
| CfgTheorems.ViewsAreConverse | src/cfg.rs:136-222 | predecessors and successors are converse in the full and the normal-flow view |
| CfgEdges.SwitchSuccessors | src/cfg.rs:391-427 | the successor list of a switch block: default, one edge per table entry in order, then exceptions only |
| CfgEdges.SuccessorsInOrder | src/cfg.rs:366-455 | the successor list of every other block: next then target after an if, the target after a goto, nothing after a return or throw |
| CfgEdges.TryEdgesInOrder | src/cfg.rs:467-506 | the exception edges of a block: for every try that meets it, in table order, one per handler in order, catch-all last, none dropped or doubled |
| CfgEdges.TryHandlersReached | src/cfg.rs:467-506 | an instruction that meets a try is in a block with an edge to every handler of the try |
| CfgEdges.RegionIsComplete | src/cfg.rs:527-556 | a region lists one edge per handler in order; none is dropped |
| CfgOracle.NaiveFindLeaders | src/cfg_oracle.rs:753-788 | the oracle's leaders, by its own opcode sets, with handlers of referenced tries only |
| CfgOracle.InsnLeadersAgree | src/cfg_oracle.rs:757-781 | by its own opcode sets the oracle finds the builder's leaders at every instruction |
| CfgOracle.NaiveBlocks | src/cfg_oracle.rs:790-806 | each instruction address filed under the greatest leader at or below it |
| CfgOracle.NaiveNormalEdges | src/cfg_oracle.rs:808-880 | the normal edges to leaders, or failure if and only if a packed key leaves 32 bits |
| CfgOracle.NaiveExceptionEdges | src/cfg_oracle.rs:882-942 | adds the handler edges of every block that overlaps a try |
| CfgAgreement.NaiveCfg | src/cfg_oracle.rs:716-942 | the oracle on a decoded method of a given size: the empty shape for size 0, else leaders, block contents and edges, or its overflow error |
| CfgAgreement.HandlersOfTriesLead | src/cfg_oracle.rs:783-788 | handlers referenced by tries are leaders for the oracle |
| CfgAgreement.OracleAgrees | src/cfg_oracle.rs:949-980 | whatever the builder returns, the two shapes are equal if and only if there are instructions unless there is no code, packed keys fit, every handler address is an oracle leader, and no empty block is under a try |
| CodeExamples.LonePayloadDiffers | src/cfg_oracle.rs:734-755 | a code item holding only a payload table, on which they differ: no block against one empty block |
| CodeExamples.KeyOverflowDiffers | src/cfg_oracle.rs:808-880 | a code item whose packed keys overflow, on which they differ |
| CodeExamples.UnusedHandlerDiffers | src/cfg_oracle.rs:783-788 | a code item with a handler no try uses, on which they differ though keys fit |
| CodeExamples.EmptyBlockDiffers | src/cfg_oracle.rs:882-942 | a code item with an empty block under a try, on which they differ though the other conditions hold |
| DebugInfo.ParseDebugInfo | src/debug.rs:78-309 | header, then the state machine up to the end marker, the end of data or an overflow, then the open locals in register order |
| DebugPrinter.OpRoundTrip | src/debug.rs:121-294 | every stored debug instruction reads back as what it stands for |
| DebugPrinter.StreamRoundTrip | src/debug.rs:121-294 | a written stream that overflows no accumulator is executed instruction for instruction |
| DebugMeaning.HeaderRoundTrip | src/debug.rs:84-109 | a written header reads back: start line, and every parameter name in order from the pool entry it refers to |
| DebugMeaning.MoveEffect | src/debug.rs:127-289 | the bytes of an address, line or special move make exactly that move in plain numbers, record it, or stop the machine on overflow |
| DebugMeaning.SpecialBytes | src/debug.rs:271-289 | every byte from 0x0A on is one such double move, and only one |
| DebugMeaning.LineProgram | src/debug.rs:78-327 | from bytes to `line_at`: a printed header and list of moves answer every pc with the line of the last move at or before it |
| DebugMeaning.LocalEffects | src/debug.rs:148-241 | what starting and ending a local leaves in its register and in the list, with name and type from the pools |
| DebugMeaning.RestartEffect | src/debug.rs:243-260 | a restart reopens the register as it last ended, or does nothing |
| DebugMeaning.MarkersHaveNoEffect | src/debug.rs:262-269 | markers and file changes leave the state alone |
| DebugMeaning.ForeignRegisterRefused | src/debug.rs:61-69 | a register the method does not have is refused in every instruction that names one |
| DebugMeaning.OpenLocalsListed | src/debug.rs:297-301 | locals still open are listed once each, by ascending register, without an end |
| DebugMeaning.LocalAnswers | src/debug.rs:385-397 | a local answers its own register from its start up to its end, unless it is called this |
| DebugTheorems.LineAtIsReplay | src/debug.rs:316-327 | the line table never decreases in pc, and `line_at` is the line last recorded at or before pc in a replay |
| DebugTheorems.RangesAreDisjoint | src/debug.rs:111-301 | in every stream the ranges of one register are disjoint and in time order, on registers of the method |
| DebugTheorems.LocalNameIsReplay | src/debug.rs:385-397 | `local_name_at` names what a replay has live there if and only if no restart erases a shown live local covering that pc |
| DebugTheorems.NamesExactWithoutLiveRestart | src/debug.rs:385-397 | streams that never restart a live register are answered exactly, for every register and pc |
| DebugExamples.RestartBytesLoseName | src/debug.rs:243-260 | nineteen bytes whose parse names nothing where a replay has a name live |
| DebugScan.ScanDebugInfoBytes | src/debug.rs:418-506 | the bytes up to and including the end marker, or the first error |
| DebugMeaning.ScanRoundTrip | src/debug.rs:418-506 | the scanner captures exactly the bytes of a written item, whatever surrounds them |
| DebugMeaning.ScanRefuses | src/debug.rs:418-506 | it refuses an offset past the input, and any item without an end marker |
| DebugScan.ScannedBytesParseTheSame | src/debug.rs:418-506 | the captured bytes end in the marker, scan to themselves, and parse at 0 to the same result, errors included |
| ClassData.ParseClassData | src/decode.rs:1908-2069 | the four lists and the byte count, or the first error |
| ClassData.ClassDataIsLocal | src/decode.rs:1908-2069 | the consumed bytes alone parse to the same class data |
| ClassData.ClassDataRoundTrip | src/decode.rs:1908-2069 | parsing inverts the delta-coded layout for all lists with non-decreasing indices and legal flags |
| ClassData.ParsedClassDataPrintable | src/decode.rs:1908-2069 | every parsed list is such a list |
| ClassData.FlagsExact | src/access_flags.rs:32-84 | a flag word is accepted unchanged if and only if each of its bits is one of the listed ones of its scope |
| ClassData.MemberRefusals | src/decode.rs:1955-2066 | a member is refused when its index leaves 32 bits or a flag is not of its scope |
| CountGuards.ValueCounts | src/annotation.rs:565-586 | array and annotation counts that cannot fit the input are refused before any element |
| CountGuards.NameCounts | src/debug.rs:91-98 | the same for parameter names |
| CountGuards.TableCounts | src/decode.rs:1051-1110 | the same for switch tables, at four and eight bytes an entry |
| CountGuards.TryCounts | src/decode.rs:1676-1680 | the same for try items |
| CountGuards.HandlerCounts | src/decode.rs:1796-1804 | the same for handlers |
| CountGuards.CatchCounts | src/decode.rs:1808-1824 | the same for typed catches |
| CountGuards.MemberCounts | src/decode.rs:1920-1952 | the same for the four member lists, in order |
| TypeIndex.Build | src/classes.rs:2847-2858 | one slot per type, holding its first class_def row |
| TypeIndex.LookupIsFirstRow | src/classes.rs:2863-2866 | lookup gives the first row of an in-range type that has one, and nothing otherwise |
| TypeIndex.SyntheticIsOneBit | src/classes.rs:2365-2378 | only the bit 0x1000 decides, whatever the other flags |
| TypeIndex.ShapeIsSignature | src/classes.rs:2329-2347 | the shape test accepts exactly the signature (String, int, something) returning void |
| TypeIndex.IsBridgeIndexed | src/classes.rs:2329-2366 | the indexed branch: the shape matches and the first row of the last parameter type is synthetic |
| TypeIndex.IsBridgeScanned | src/classes.rs:2367-2384 | the scanning branch: some unshadowed synthetic row has the descriptor of the last parameter |
| TypeIndex.BranchesAgree | src/classes.rs:2329-2384 | with distinct descriptors both branches give one verdict on every class table |
| TypeIndex.BranchesAgreeExactly | src/classes.rs:2329-2384 | without that, they agree if and only if the type is synthetic itself or has no synthetic namesake |
| TypeIndex.TwinsDisagree | src/classes.rs:2367-2384 | a class table with two types of one descriptor on which the branches differ |

## Left out

- Leb128.ReadUleb128: the body is the reader of src/cfg_oracle.rs, because the production reader lives in another crate that is not part of this model; a failure carries the start position, as the crate's wrapper reports it (src/mutf8.rs:74-77), where the cited reader reports the missing byte.
- Leb128.ReadSleb128: the same, with the wrapper at src/mutf8.rs:79-82.
- The library behind `bound_count` is modelled as the division its documentation states.
- AnnotationTheorems.WidthsOfParsedValue: where the walk ends is stated one way; a walk over a tree whose shape the maps changed can end in the right place by accident of the payload bytes. What the walk is for, restoring the bytes, is exact.
- Registers, literals and pool indices of an instruction are not kept; only size, target and the operand checks that fail or log are.
- CfgAgreement.NaiveCfg: compared on a shared decoded method; the oracle's private byte decoder is not part of this model beyond its opcode tables (OpcodeTables); it sizes seven opcodes differently from production and skips opcodes 1 to 3 as payloads.
- Update in place is modelled by reassigning local sequences, maps and datatypes; the crate's vectors are owned and not aliased, so no heap objects are used.
- Address-width (`usize`) overflow of byte offsets, which needs inputs of 2^63 bytes; 32-bit overflow is modelled.
- Values of more than 2^32 class rows, where the crate's own index stops.
- Annotation directories, sets and items (src/annotation.rs:94-310): fixed-width tables that add only easy members.
- `build_name_map` (src/debug.rs:331-370): a fold over lists already characterised.
- MUTF-8 decoding, header parsing, single-assignment form, type inference, structuring, emission and text rendering.
- The emitter that would print `class_data` and `encoded_value`; the printers here state the layout the readers accept.
- Error message text and allocation capacity.
