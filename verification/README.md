# Verified models of xbdm_gdb_bridge

`xbdm_gdb_bridge` sits between a GDB client or an interactive shell and the debug monitor of an original
Xbox (XBDM). This project models the parts of it that compute or keep state, and proves what they are for:

- **Expressions** (`Expression*.dfy`): the debugger's expression evaluator, a Pratt parser that computes while
  it parses. It is proved to accept exactly the sentences of a stratified left-associative grammar, also written
  out level by level without ranks, and to give each the value of its tree. Values of written expressions are
  stated as arithmetic.
- **Directory sync** (`Timestamps`, `RemoteFiles`, `DirectorySync`, `SyncCommand`): the walk over a remote tree
  with deletes and uploads. With deletion success is a mirror, and a reliable console succeeds exactly under the
  ancestor condition. Without it a reliable console succeeds exactly when nothing stands in the way, and a second
  run writes nothing exactly under the ancestor condition.
- **Debugger state** (`Breakpoints`, `MemoryMap`, `BackTrace`, `XbdmDebugger`): breakpoints that are lifted and
  planted again around reads and steps, over every run and whatever the target answers; the greedy check of
  memory accesses; the classification of guessed stack frames.
- **Morton order** (`Morton`, `Unswizzle`): swizzle masks, the masked increment, and the copy that undoes it.
- **Relocation and imports** (`Relocation`, `RelocationTable`, `DxtLibrary`, `ImportSplit`, `ImportLimits`,
  `ImportResolve`): relocation as an action of base addresses on images, bulk lookups that lose nothing when split,
  and exactly when the split keeps to its limits.
- **RDCP** (`RdcpResponse`, `RdcpRoundTrip`, `XbdmTransport`): the incremental response decoder, and the request
  queue under the one-at-a-time executor.
- **Shell arguments** (`ArgTokens`, `ArgParser`, `ArgCommand`): exactly which arguments and which commands survive
  being printed and read back.
- **GPU traces** (`TraceStream`, `TraceRoundTrip`, `TraceCapture`, `TraceDecoder`): packets cut from a stream that
  arrives in arbitrary chunks.
- **GDB packets** (`GdbPacket`, `GdbTransport`): framing, escaping and acknowledgements of the protocol in the
  GDB manual's appendix "GDB Remote Serial Protocol", section "Overview".

Code that changes state is modelled by methods and classes, each proved against a function on values; what the
code promises is then proved of those functions. The outside world appears as parameters: the memory reader and
register values of an expression, the answers of the target or console, the disassembler's verdict on a stack
word, the local directory listing, and the text parser behind a screenshot header.

Some promises turn out to hold only under a condition. In these places the model follows the code and the exact
condition is proved, with an input that shows why it is needed:

- Without deletion, a directory that holds no local file itself is not entered, so files further down are sent
  again on every run. A second run over a console in sync writes nothing exactly when every directory on the way to
  a local file is populated (`SyncDirectory`, `DeepFileIsSentAgain`).
- Memory read through breakpoints shows the traps when the range reaches the top of the address space, because
  its end is computed as zero (`ReadIsTransparentIff`, `TrapShowsAtTop`). The same wrap leaves the trap in place
  when the instruction at the last address is stepped (`StepRunsOriginalIff`, `TrapStaysAtTop`).
- An access that ends at the last address, or wraps past it, is decided by the first region that contains its first
  byte (`GrantedIff`), and a region that reaches the top counts as empty. Below the top a granted read is all there,
  and if no region reaches the top every read that is all there is granted (`ReadIsPresentIff`). A read that ends at
  the top errs both ways, and exactly when is stated (`TopReadIsPresentIff`): granted with a part missing
  (`TopIsNotChecked`) and refused though all of it is there (`TopRegionCountsAsEmpty`).
- File times repeat every 2^27 seconds, about four years and three months. A change that keeps the size is missed
  exactly when the times are a multiple of that apart (`ChangeMissedIff`, `ChangeIsMissed`).
- Printed arguments read back exactly when they are canonical. A parenthesized value may also end in surplus
  closing parentheses (`FlattenArgsRoundTripIff`, `TrailingBackslashIsLost`).
- A printed command reads back exactly when, besides, its name begins with no quote, parenthesis or blank, has no
  blank outside parentheses, closes its parentheses if arguments follow, and is in lower case
  (`FlattenRoundTripIff`, `ParenthesesInNameSurvive`, `BlankInNameIsLost`).
- Packet bodies with `#` do not survive, because escapes are removed before packets are looked for
  (`PacketsRoundTripIff`, `TrailerInBodyIsLost`), and the read buffer is shifted by too little as soon as anything
  was escaped (`ShiftIsExactIff`, `PairIsSeenAgain`).
- The room counter of a split table of lookups wraps around exactly when the base of some block is the 38th field
  charged to its piece and anything follows (`WrapsIff`). Until then no command exceeds 513 characters
  (`CommandsFit`); from then on everything goes into one command (`WrappedOverruns`, `TwoBasesOverrun`). With one
  base it never wraps, and all commands keep to 512 characters exactly for fewer than 75 lookups
  (`OneBaseWithinLimitIff`). The resolver keys every request by the one base of its module
  (`src/dyndxt_loader/loader.cpp:570-577`), so no caller today sends two.
- Trace parameters are complete exactly for counts below 2^30 (`ParametersFitIff`, `HugeCountCarriesNothing`).
- A multiline response survives exactly when its terminator first occurs at the end, counting the end of the
  status line as a place where it may begin (`MultilineRoundTripIff`, `LoneDotEndsEarly`).

Where code and documentation differ, the code is followed: the header comment of `Flatten` promises that every
command reads back, which holds only under the condition above.

## Model

| member | source | states |
|---|---|---|
| ExpressionGrammar.ReadSucceedsIff | src/xbox/debugger/debugger_expression_parser.cpp:346-373 | a memory read yields a value exactly when there is a reader, at most four bytes are asked for and exactly that many come back |
| ExpressionProof.ClimbSound | src/xbox/debugger/debugger_expression_parser.cpp:291-478 | whatever is accepted is the yield of a stratified tree binding tighter than asked, and parsing stopped where it had to |
| ExpressionProof.ClimbReaches | src/xbox/debugger/debugger_expression_parser.cpp:291-478 | every stratified tree is found again from its own yield, whatever follows |
| ExpressionProof.ClimbIffSentence | src/xbox/debugger/debugger_expression_parser.cpp:291-478 | the parser accepts a token list with a tree if and only if the list is the yield of that stratified tree followed by something that cannot continue it |
| ExpressionProof.Unambiguous | src/xbox/debugger/debugger_expression_parser.cpp:22-53 | two stratified trees with the same tokens are equal |
| ExpressionProof.EvaluateIffMeans | src/xbox/debugger/debugger_expression_parser.cpp:55-77 | a token list evaluates to v if and only if it is a sentence whose tree, strictly in errors and modulo 2^32, has value v |
| ExpressionParser.ContinueStrict | src/xbox/debugger/debugger_expression_parser.cpp:430-478 | an error on the left is never rescued by what follows, the logical operators included |
| ExpressionParser.DebuggerExpressionParser.Consume | src/xbox/debugger/debugger_expression_parser.cpp:8-20 | one token is taken off the remaining ones, and nothing once they are used up |
| ExpressionParser.DebuggerExpressionParser.ReadMemory | src/xbox/debugger/debugger_expression_parser.cpp:346-373 | the bytes read are assembled little-endian; a missing reader, a size above four, a failed read and a short answer are errors |
| ExpressionParser.DebuggerExpressionParser.ParseExpression | src/xbox/debugger/debugger_expression_parser.cpp:291-313 | computing while parsing gives the value of the tree the grammar assigns, and leaves the tokens after it |
| ExpressionParser.DebuggerExpressionParser.ParsePrefix | src/xbox/debugger/debugger_expression_parser.cpp:315-428 | operands, parentheses, brackets and dereferences evaluate to the value of their tree |
| ExpressionParser.DebuggerExpressionParser.ParseSized | src/xbox/debugger/debugger_expression_parser.cpp:375-397 | `@(address, size)` reads as many bytes as its second operand says, four without one |
| ExpressionParser.DebuggerExpressionParser.ParseBare | src/xbox/debugger/debugger_expression_parser.cpp:399-422 | a bare dereference, with its bracketed offset if any, binds tightest and reads four bytes |
| ExpressionParser.DebuggerExpressionParser.ParseInfix | src/xbox/debugger/debugger_expression_parser.cpp:430-478 | the right operand binds tighter than the operator, and the result is the operator applied modulo 2^32 |
| ExpressionParser.DebuggerExpressionParser.Parse | src/xbox/debugger/debugger_expression_parser.cpp:55-77 | a text evaluates to the value of its whole token list, with nothing left over |
| ExpressionParser.ParsePrint | src/xbox/debugger/debugger_expression_parser.cpp:55-289 | a tree printed as text evaluates to the value of the tree |
| ExpressionLexer.ScanAt | src/xbox/debugger/debugger_expression_parser.cpp:85-280 | hexadecimal, decimal, register, word and symbol literals are taken whole, with 64-bit overflow refused |
| ExpressionLexer.Tokenize | src/xbox/debugger/debugger_expression_parser.cpp:79-289 | the loop yields exactly the token list of the text, or an error |
| ExpressionLexer.LexPrint | src/xbox/debugger/debugger_expression_parser.cpp:79-289 | every writable token list survives being printed and tokenized |
| ExpressionLexer.OperatorSpelling | src/xbox/debugger/debugger_expression_parser.cpp:79-289 | how each operator is written |
| ExpressionLexer.MarkSpelling | src/xbox/debugger/debugger_expression_parser.cpp:79-289 | how parentheses, brackets, comma and dereference are written |
| ExpressionLexer.WordSpelling | src/xbox/debugger/debugger_expression_parser.cpp:79-289 | `and`, `or` and `tid`, in either case |
| ExpressionLexer.RegisterSpelling | src/xbox/debugger/debugger_expression_parser.cpp:79-289 | a register is its name behind a dollar sign |
| ExpressionLexer.HalfOperator | src/xbox/debugger/debugger_expression_parser.cpp:79-289 | half an operator is an error |
| ExpressionLexer.HexRoundTrip | src/xbox/debugger/debugger_expression_parser.cpp:85-280 | every 32-bit number written in base sixteen is read back |
| ExpressionLaws.GrammarIff | src/xbox/debugger/debugger_expression_parser.cpp:22-53 | the stratified trees are exactly those of the grammar written out level by level, from disjunction to product |
| ExpressionLaws.EvaluateIffDerived | src/xbox/debugger/debugger_expression_parser.cpp:22-77 | a token list evaluates to v exactly when that grammar derives it with value v |
| ExpressionLaws.OperatorValues | src/xbox/debugger/debugger_expression_parser.cpp:430-478 | the value of each operator, for all operands, as arithmetic |
| ExpressionLaws.SumsOfProducts | src/xbox/debugger/debugger_expression_parser.cpp:40-45 | products before sums and differences, for all operands modulo 2^32 |
| ExpressionLaws.SumsFromTheLeft | src/xbox/debugger/debugger_expression_parser.cpp:40-42 | sums and differences from the left |
| ExpressionLaws.RelationsOfSums | src/xbox/debugger/debugger_expression_parser.cpp:34-42 | sums before relations, and relations from the left |
| ExpressionLaws.EqualitiesOfRelations | src/xbox/debugger/debugger_expression_parser.cpp:30-38 | relations before equalities, and equalities from the left |
| ExpressionLaws.LogicOfEqualities | src/xbox/debugger/debugger_expression_parser.cpp:24-32 | equalities before conjunctions, conjunctions before disjunctions |
| ExpressionLaws.DereferenceValues | src/xbox/debugger/debugger_expression_parser.cpp:346-422 | all forms of a dereference: four bytes unless told otherwise, the least significant first, from base plus offset modulo 2^32 |
| ExpressionLaws.ParenthesesValue | src/xbox/debugger/debugger_expression_parser.cpp:315-345 | parentheses around any sentence change nothing |
| ExpressionLaws.RegisterViews | src/xbox/debugger/debugger_expression_parser.cpp:480-583 | the whole, the low half and the two low bytes of a general register |
| ExpressionLaws.ThreadValue | src/xbox/debugger/debugger_expression_parser.cpp:315-345 | `tid` is the thread's id, if there is one |
| Timestamps.WrappedCongruent | src/shell/file_util.cpp:40-69 | a wrapped time differs from the original by whole ranges only |
| Timestamps.SafeXFATTimestamp | src/shell/file_util.cpp:40-69 | for every time the loop ends with a value between the smallest and largest XFAT time whose low 28 bits are zero |
| Timestamps.SkewIsHidden | src/shell/file_util.cpp:40-69 | a device skew below 2^28 disappears in the masked comparison |
| Timestamps.SafeTimestampIs | src/shell/file_util.cpp:40-69 | the loop in closed form: the time in seconds, raised to the minimum, modulo 2^27 seconds |
| Timestamps.SameTimeIff | src/shell/file_util.cpp:40-69 | two file times compare equal exactly when, once raised, they are a multiple of 2^27 seconds apart |
| DirectorySync.ChangeMissedIff | src/shell/file_util.cpp:650-658 | a changed file still compares equal exactly when its size is the same and the times are a multiple of 2^27 seconds apart |
| DirectorySync.ChangeIsMissed | src/shell/file_util.cpp:650-658 | a changed file that is taken for the old one |
| DirectorySync.Upload | src/shell/file_util.cpp:312-353 | success leaves the local data under the usable time; failure leaves other paths alone |
| DirectorySync.FetchDirectoryEntries | src/shell/file_util.cpp:100-123 | the listing is exactly the children, files and directories apart |
| DirectorySync.DeleteRecursively | src/shell/file_util.cpp:191-232 | success removes exactly the directory and everything below it; nothing outside is ever touched |
| SyncCommand.ProcessFile | src/shell/file_util.cpp:633-674 | a matching file is left alone, a differing one replaced, an unwanted one deleted if asked for |
| SyncCommand.WalkRemoteDir | src/shell/file_util.cpp:135-189 | after the walk every kept path is wanted, every visited wanted file is in place and the rest are pending; over a console in sync none is pending exactly when every directory on the way is populated |
| SyncCommand.PendingIff | src/shell/file_util.cpp:676-698 | nothing is left to send exactly when no unpopulated directory hides a local file, with or without deletion |
| SyncCommand.MakeDirs | src/shell/file_util.cpp:527-561 | the path exists afterwards and only directories leading to it were added |
| SyncCommand.CreateRemoteDirectoryHierarchy | src/shell/file_util.cpp:563-589 | only populated directories are added, all of them if their parents can be made first |
| SyncCommand.UploadAll | src/shell/file_util.cpp:712-719 | all pending files are in place afterwards and nothing else has changed |
| SyncCommand.PhasesPlaceFiles | src/shell/file_util.cpp:591-722 | walk, directories and uploads together put every local file in place |
| SyncCommand.PhasesMirror | src/shell/file_util.cpp:591-722 | with deletion the three phases leave exactly the local files and the directories that hold them |
| SyncCommand.SyncDirectory | src/shell/file_util.cpp:591-722 | with deletion success is a mirror, a second run writes nothing, and a reliable console succeeds exactly when its root can exist and ancestors are populated; without deletion it succeeds exactly when its root can exist, no directory stands where a file is wanted and every populated directory is there or can be made, and a second run writes nothing exactly when ancestors are populated; outside is kept |
| SyncCommand.DeepFileIsSentAgain | src/shell/file_util.cpp:690-691 | a console in sync whose one file is sent again on every run without deletion |
| SyncCommand.MirrorNeedsAncestors | src/shell/file_util.cpp:606-622 | a mirror exists only if every directory on the way to a local file holds a local file itself |
| SyncCommand.FilledWasFillable | src/shell/file_util.cpp:563-589 | a run without deletion can only succeed if nothing stood in the way of a local file or its directory |
| SyncCommand.RootWasReachable | src/shell/file_util.cpp:591-612 | a run can only leave a root if no file was in the way of it |
| Breakpoints.SuspendEffect | src/xbox/debugger/xbdm_debugger.cpp:1391-1401 | suspending lifts nothing but the given breakpoints, and all of them if no command is refused |
| Breakpoints.RestoreEffect | src/xbox/debugger/xbdm_debugger.cpp:1403-1417 | restoring plants nothing but the given breakpoints and lifts none |
| Breakpoints.RestoreOrRefused | src/xbox/debugger/xbdm_debugger.cpp:1403-1417 | every breakpoint to restore is planted or its command was refused |
| Breakpoints.RunConsistent | src/xbox/debugger/xbdm_debugger.cpp:580-611 | over every run nothing untracked is planted, and every tracked breakpoint is planted unless a step at it came off since the last stop or reboot, or its restoration was refused |
| Breakpoints.RunLifts | src/xbox/debugger/xbdm_debugger.cpp:1206-1259 | only instructions at which a step came off since the last stop or reboot can lack their breakpoint |
| Breakpoints.RunTracks | src/xbox/debugger/xbdm_debugger.cpp:1494-1526 | in every run without refusals exactly the breakpoints asked for and not given up are tracked |
| Breakpoints.StepLifts | src/xbox/debugger/xbdm_debugger.cpp:1206-1259 | a step lifts the breakpoint at its instruction exactly if stop, context, step and resume are accepted |
| Breakpoints.RefusedStepRestores | src/xbox/debugger/xbdm_debugger.cpp:1225-1258 | a step that is refused, or whose resume is, leaves the account as it was and the breakpoint at the instruction planted |
| Breakpoints.StepNotBegun | src/xbox/debugger/xbdm_debugger.cpp:1206-1224 | a step that is not begun touches no breakpoint |
| Breakpoints.StopPlantsAll | src/xbox/debugger/xbdm_debugger.cpp:594-602 | a run without refusals that ends with a stop leaves exactly the breakpoints planted that were asked for and not given up |
| Breakpoints.ReadRestores | src/xbox/debugger/xbdm_debugger.cpp:1419-1441 | a read leaves the breakpoints in its range planted and disturbs no other |
| Breakpoints.ReadIsTransparentIff | src/xbox/debugger/xbdm_debugger.cpp:1378-1441 | the bytes delivered are the real ones exactly when the range stays below the top of the address space or no trap in it shows |
| Breakpoints.TrapShowsAtTop | src/xbox/debugger/xbdm_debugger.cpp:1378-1389 | a read of the last address delivers the trap |
| Breakpoints.StepRunsOriginalIff | src/xbox/debugger/xbdm_debugger.cpp:1206-1259 | a step runs the original instruction exactly when it is not a planted one on the last address, and disturbs no other breakpoint |
| Breakpoints.TrapStaysAtTop | src/xbox/debugger/xbdm_debugger.cpp:1206-1259 | a step at the last address runs into the trap |
| XbdmDebugger.XBDMDebugger.FetchMemoryMap | src/xbox/debugger/xbdm_debugger.cpp:1103-1123 | the reported regions are kept sorted by start, or the old ones if the command fails |
| XbdmDebugger.XBDMDebugger.AddBreakpoint | src/xbox/debugger/xbdm_debugger.cpp:1494-1503 | tracked and planted exactly if the target accepted it |
| XbdmDebugger.XBDMDebugger.RemoveBreakpoint | src/xbox/debugger/xbdm_debugger.cpp:1517-1526 | forgotten and lifted exactly if the target accepted it |
| XbdmDebugger.XBDMDebugger.GetActiveBreakpointsInRange | src/xbox/debugger/xbdm_debugger.cpp:1378-1389 | the tracked breakpoints between the address and the end computed in 32 bits |
| XbdmDebugger.XBDMDebugger.SuspendBreakpoints | src/xbox/debugger/xbdm_debugger.cpp:1391-1401 | one clear command for each, in ascending order, whatever the answers |
| XbdmDebugger.XBDMDebugger.RestoreBreakpoints | src/xbox/debugger/xbdm_debugger.cpp:1403-1417 | one set command for each, in ascending order, with an account of the refused ones |
| XbdmDebugger.XBDMDebugger.GetMemory | src/xbox/debugger/xbdm_debugger.cpp:1419-1441 | nothing happens unless the access is granted; otherwise suspend, read and restore, even if the read fails |
| XbdmDebugger.XBDMDebugger.StepInstruction | src/xbox/debugger/xbdm_debugger.cpp:1206-1259 | breakpoints at the instruction are lifted, and planted again unless the step and the resume succeed; the result is true exactly if the thread is active, its instruction pointer known, and stop, context, step and resume are accepted |
| XbdmDebugger.XBDMDebugger.OnStopped | src/xbox/debugger/xbdm_debugger.cpp:594-602 | every tracked breakpoint is planted again |
| XbdmDebugger.XBDMDebugger.OnRebooting | src/xbox/debugger/xbdm_debugger.cpp:586-593 | no breakpoint is tracked any more |
| MemoryMap.SortRegions | src/xbox/debugger/xbdm_debugger.cpp:1112-1120 | the regions in order of their start, none lost |
| MemoryMap.WritableIff | src/rdcp/types/memory_region.cpp:25-46 | a region counts as writable exactly when the low byte of its protection is four or more |
| MemoryMap.WalkIff | src/xbox/debugger/xbdm_debugger.cpp:1540-1564 | below the top of the address space a read is granted exactly when every address is held by a region that ends below the top |
| MemoryMap.WalkWriteIff | src/xbox/debugger/xbdm_debugger.cpp:1540-1564 | for disjoint regions a write is granted exactly when every address is mapped and the region of the last byte is writable |
| MemoryMap.WalkToTop | src/rdcp/types/memory_region.cpp:21-23 | an access that ends at the last address is decided by the first region that contains its first byte, for reads and writes and all regions |
| MemoryMap.WalkWrapped | src/xbox/debugger/xbdm_debugger.cpp:1550-1561 | an access that wraps is granted exactly when the first region that contains its first byte holds its last one too, and is writable for a write |
| MemoryMap.WalkFromTop | src/xbox/debugger/xbdm_debugger.cpp:1550-1561 | an access that starts at the last address and wraps is decided by the first region if that holds its last byte, and otherwise by whether the others cover everything between |
| MemoryMap.GrantedIff | src/xbox/debugger/xbdm_debugger.cpp:1540-1564 | every read and write decided in closed form |
| MemoryMap.ReadIsPresentIff | src/xbox/debugger/xbdm_debugger.cpp:1540-1564 | below the top a read is granted exactly when some region holds each address and none is held only by a region that reaches the top; without such regions exactly when some region holds each address |
| MemoryMap.TopReadIsPresentIff | src/rdcp/types/memory_region.cpp:12-23 | when a read that ends at the last address is granted with a part missing, and when it is refused though some region holds each address |
| MemoryMap.TopIsNotChecked | src/rdcp/types/memory_region.cpp:21-23 | an unmapped write that is granted |
| MemoryMap.TopRegionCountsAsEmpty | src/rdcp/types/memory_region.cpp:12-23 | a mapped read that is refused, because the region reaches the top and is met at its first byte |
| MemoryMap.TopRegionBehindAnother | src/rdcp/types/memory_region.cpp:12-23 | a mapped read that is granted, because that region is met behind another |
| MemoryMap.ValidateMemoryAccess | src/xbox/debugger/xbdm_debugger.cpp:1540-1564 | the loop decides what the walk over the regions decides, and grants everything if no regions are known |
| BackTrace.GuessBackTrace | src/xbox/debugger/xbdm_debugger.cpp:786-977 | the frames are the recognised calls in stack order, at most 16, each with its return address and target and the verdict and chain it deserves |
| BackTrace.RecognisedIs | src/xbox/debugger/xbdm_debugger.cpp:873-880 | the calls are the first sixteen among the words of the stack from its pointer to its base, 256 words at most |
| BackTrace.Classify | src/xbox/debugger/xbdm_debugger.cpp:909-965 | one more call keeps everything before the open chain settled and the chain waiting |
| BackTrace.FlushPending | src/xbox/debugger/xbdm_debugger.cpp:852-871 | a waiting chain is settled as a whole under one verdict and one number |
| BackTrace.BelievedIff | src/xbox/debugger/xbdm_debugger.cpp:909-965 | a frame is believed, and has chain 0, exactly when its call is confirmed or its chain opens with an indirect call and does not run into a confirmed one |
| BackTrace.ChainNumbers | src/xbox/debugger/xbdm_debugger.cpp:852-871 | chain numbers of suspicious frames grow up the stack and are shared exactly within a chain |
| BackTrace.ConfirmedLink | src/xbox/debugger/xbdm_debugger.cpp:914-941 | a call is confirmed exactly when its target is at most 1024 below the last confirmed call site, or the instruction pointer if there is none |
| BackTrace.SameChainIff | src/xbox/debugger/xbdm_debugger.cpp:914-945 | an unconfirmed call belongs to the chain of the one before it exactly when its target is at most 1024 below that site |
| Morton.ComplementIsOff | util/surface_pngify/surface_pngify.py:272-341 | subtracting the whole mask and one more gives back the offset |
| Morton.MaskedIncrement | util/surface_pngify/surface_pngify.py:272-341 | `(off - mask) & mask` takes the offset of k to that of k + 1, for every mask |
| Morton.IndexExtract | util/surface_pngify/surface_pngify.py:272-341 | the sum of three offsets gives back all three coordinates |
| Morton.IndexOnto | util/surface_pngify/surface_pngify.py:272-341 | every index below 2^n is the sum of the offsets of its coordinates |
| Morton.GenerateSwizzleMasks | util/surface_pngify/surface_pngify.py:207-243 | for all dimensions the masks are disjoint, cover 2^n - 1 and interleave in order, and the error is never raised |
| Morton.IndexInjective | util/surface_pngify/surface_pngify.py:207-343 | for all dimensions two pixels with the same offset are the same pixel |
| Morton.IndexBijection | util/surface_pngify/surface_pngify.py:207-343 | for powers of two pixels and offsets correspond one to one |
| Morton.VolumeIsPower | util/surface_pngify/surface_pngify.py:207-243 | for powers of two the masks leave no gap |
| Unswizzle.CopyRow | util/surface_pngify/surface_pngify.py:315-341 | a row is copied exactly if it fits, and nothing beside it is written |
| Unswizzle.CopySlice | util/surface_pngify/surface_pngify.py:300-341 | a slice is copied exactly if it fits, and nothing but its rows is written |
| Unswizzle.UnswizzleBox | util/surface_pngify/surface_pngify.py:245-343 | every linear pixel holds the source pixel at its Morton index, and what lies between rows and slices is kept |
| Unswizzle.PixelBytes | util/surface_pngify/surface_pngify.py:245-343 | byte for byte, each linear pixel is the source pixel at its Morton index |
| Unswizzle.FullVolumeFits | util/surface_pngify/surface_pngify.py:245-343 | for powers of two buffers of the plain sizes suffice |
| Unswizzle.BoxHolds | util/surface_pngify/surface_pngify.py:245-343 | for all dimensions a source of 2^n pixels suffices |
| Relocation.RunSucceedsIff | src/dyndxt_loader/dxt_library.cpp:96-124 | a table is applied exactly when it holds only known entry types |
| Relocation.RunSwap | src/dyndxt_loader/dxt_library.cpp:96-124 | entries apart from each other commute |
| Relocation.RunTwice | src/dyndxt_loader/dxt_library.cpp:96-124 | applying two distances is applying their sum |
| Relocation.RunZero | src/dyndxt_loader/dxt_library.cpp:96-124 | distance zero changes nothing |
| Relocation.RunUntouched | src/dyndxt_loader/dxt_library.cpp:96-124 | bytes outside the listed words are kept |
| Relocation.RunMoves | src/dyndxt_loader/dxt_library.cpp:96-124 | each listed word is moved once |
| Relocation.SameTable | src/dyndxt_loader/dxt_library.cpp:88-124 | the table read depends on its own bytes only |
| RelocationTable.TableRoundTrip | src/dyndxt_loader/dxt_library.cpp:88-124 | a table written out anywhere in an image, page by page and least significant byte first, is read back entry by entry and ends where it was written to |
| Relocation.PatchSucceedsIff | src/dyndxt_loader/dxt_library.cpp:162-178 | imports are patched exactly when all are resolved |
| Relocation.PatchOutside | src/dyndxt_loader/dxt_library.cpp:162-178 | only import slots are written |
| Relocation.PatchFills | src/dyndxt_loader/dxt_library.cpp:162-178 | each slot holds the address of its import |
| DxtLibrary.RelocateKeeps | src/dyndxt_loader/dxt_library.cpp:70-130 | relocation keeps the image well formed and its table unchanged |
| DxtLibrary.RelocateMoves | src/dyndxt_loader/dxt_library.cpp:70-130 | relocation succeeds, sets the base and moves exactly the listed words |
| DxtLibrary.RelocateSucceedsIff | src/dyndxt_loader/dxt_library.cpp:70-130 | relocation succeeds exactly at the current base or if there is a table of known entries and all imports are resolved |
| DxtLibrary.RelocatedWord | src/dyndxt_loader/dxt_library.cpp:70-130 | every listed word differs by the new base less the old modulo 2^32, and an address k bytes into the library becomes that k bytes into it at its new place |
| DxtLibrary.RelocatedImports | src/dyndxt_loader/dxt_library.cpp:128-178 | after a move each import slot holds the address of its import |
| DxtLibrary.RelocateTwice | src/dyndxt_loader/dxt_library.cpp:70-130 | relocating twice is relocating once to the last base, import slots aside |
| DxtLibrary.RelocateBack | src/dyndxt_loader/dxt_library.cpp:70-130 | relocating back restores the bytes, import slots aside |
| DxtLibrary.MovedWord | src/dyndxt_loader/dxt_library.cpp:104-117 | each listed word grows by the new base less the old modulo 2^32 |
| DxtLibrary.MovedByte | src/dyndxt_loader/dxt_library.cpp:70-130 | every other byte outside import slots is kept |
| DxtLibrary.DXTLibrary.PatchImports | src/dyndxt_loader/dxt_library.cpp:162-178 | the loop writes slots until the first unresolved import |
| DxtLibrary.DXTLibrary.RelocateTable | src/dyndxt_loader/dxt_library.cpp:88-124 | the nested pointer loops apply exactly the entries of the table |
| DxtLibrary.DXTLibrary.Relocate | src/dyndxt_loader/dxt_library.cpp:70-130 | in place, what relocation does on values, with the early return at the current base |
| ImportSplit.SplitResolutionTable | src/dyndxt_loader/loader.cpp:442-485 | the nested loops cut the table as the room counter, in 32 bits, tells them |
| ImportSplit.SplitConserves | src/dyndxt_loader/loader.cpp:442-485 | for every table the pieces together ask for the same lookups in the same order |
| ImportLimits.WrapsIff | src/dyndxt_loader/loader.cpp:447-485 | for every table the room counter wraps exactly when the base of some block is the 38th field charged to its piece and anything follows |
| ImportLimits.CommandsFit | src/dyndxt_loader/loader.cpp:447-485 | while it does not wrap, all commands but the last are full with 500 and then 513 characters, and the last has at most as many |
| ImportLimits.WrappedOverruns | src/dyndxt_loader/loader.cpp:466-481 | once it wraps, everything that follows goes into one command |
| ImportLimits.TwoBasesOverrun | src/dyndxt_loader/loader.cpp:466-481 | 36 lookups below one base make the next base overrun |
| ImportLimits.OneBaseFits | src/dyndxt_loader/loader.cpp:447-485 | with one base, no wrap, and pieces of 37 and then 38 lookups, all full but the last |
| ImportLimits.OneBaseWithinLimitIff | src/dyndxt_loader/loader.cpp:447-485 | with one base every command keeps to 512 characters exactly for fewer than 75 lookups |
| ImportResolve.ResolvedSplits | src/dyndxt_loader/ResolveExportList.cpp:31-43 | answering two lists one after the other is answering them together |
| ImportResolve.ResolvedAt | src/dyndxt_loader/ResolveExportList.cpp:31-43 | each import gets the address of its own lookup |
| ImportResolve.Loader.ProcessResponse | src/dyndxt_loader/ResolveExportList.cpp:31-43 | answers are written to the imports in the order asked |
| ImportResolve.Loader.BulkResolve | src/dyndxt_loader/loader.cpp:487-520 | success leaves the imports as if the table had been sent whole, and fails on an accepting console only if an export is missing |
| ImportResolve.Loader.CollectRequests | src/dyndxt_loader/loader.cpp:536-577 | known ordinals are settled, the others asked for once each and in order; an import by name is collected under the ordinal its name stands for, and without a table of names there may be none |
| ImportResolve.Loader.ResolveImports | src/dyndxt_loader/loader.cpp:522-585 | success gives every import by name the address of the ordinal its name stands for and any other that of its ordinal; on an accepting console it is reached exactly when every import is known or exported |
| ImportResolve.ImportsAgree | src/dyndxt_loader/loader.cpp:522-585 | with a cache that agrees with the console every import has the console's address |
| RdcpResponse.PacketFits | src/rdcp/rdcp_response.cpp:61-136 | a packet never reaches beyond what has arrived |
| RdcpResponse.SizeExtends | src/rdcp/xbdm_requests.cpp:97-132 | each size parser, once it has an answer, keeps it when more bytes arrive |
| RdcpResponse.ParseIsPrefixStable | src/rdcp/rdcp_response.cpp:61-136 | once there is an answer, no further bytes change it, for every size parser |
| RdcpRoundTrip.LineRoundTrip | src/rdcp/rdcp_response.cpp:121-126 | a one-line response comes back with its exact length, whatever follows |
| RdcpRoundTrip.MultilineRoundTripIff | src/rdcp/rdcp_response.cpp:15-28 | a multiline response comes back exactly when the terminator first occurs at its end |
| RdcpRoundTrip.LoneDotEndsEarly | src/rdcp/rdcp_response.cpp:98-114 | a body of one dot does not survive |
| RdcpRoundTrip.EmptyMultilineRoundTrip | src/rdcp/rdcp_response.cpp:98-114 | an empty one may share the end of the status line with its terminator |
| RdcpRoundTrip.BinaryRoundTrip | src/rdcp/rdcp_response.cpp:30-59 | announced binary data comes back with its exact length |
| RdcpRoundTrip.FixedAnnounces | src/rdcp/xbdm_requests.cpp:22-30 | a size known beforehand announces data of that size only |
| RdcpRoundTrip.PrefixAnnounces | src/rdcp/xbdm_requests.cpp:123-132 | a 32-bit prefix announces data of its value only |
| RdcpRoundTrip.LineAnnounces | src/rdcp/xbdm_requests.cpp:97-121 | a descriptive line announces data of the size it gives only |
| XbdmTransport.XBDMTransport.WriteNextRequest | src/rdcp/xbdm_transport.cpp:62-79 | the first queued request is written, if connected |
| XbdmTransport.XBDMTransport.SendRequest | src/rdcp/xbdm_transport.cpp:55-60 | the request is queued and the first one written |
| XbdmTransport.XBDMTransport.Close | src/rdcp/xbdm_transport.cpp:38-47 | every queued request is abandoned, in order |
| XbdmTransport.XBDMTransport.HandleInitialConnectResponse | src/rdcp/xbdm_transport.cpp:149-162 | an unsolicited response connects if it is the greeting and closes otherwise |
| XbdmTransport.XBDMTransport.OnResponse | src/rdcp/xbdm_transport.cpp:113-147 | greeting, payload or completion, by queue and status; a request for the payload is answered by that of the first request |
| XbdmTransport.XBDMTransport.OnBytesRead | src/rdcp/xbdm_transport.cpp:81-147 | a complete response is taken out of the buffer and handled, an incomplete one waits |
| XbdmTransport.NextSafe | src/xbox/xbdm_context.cpp:185-245 | every event keeps the queue at one and the account of writes and endings right |
| XbdmTransport.EveryRunIsSafe | src/xbox/xbdm_context.cpp:185-245 | in every state of every run each request handed over while connected is written exactly once, each is finished exactly once, and completed by the first response after its write that does not ask for the payload; each response that does is followed at once by the payload of the open request, and no payload is written otherwise |
| XbdmTransport.TwoAtOnceWritesTwice | src/rdcp/xbdm_transport.cpp:55-79 | without the executor a second request makes the first be written again |
| ArgTokens.Tokenize | src/util/parsing.cpp:73-146 | the loop yields the arguments of the line |
| ArgTokens.FirstGrows | src/util/parsing.cpp:73-146 | the token at hand is a prefix of the next argument |
| ArgTokens.ScanYieldsBareWords | src/util/parsing.cpp:121-142 | every bare word read from any line can be written back bare |
| ArgParser.ArgumentRead | src/util/parsing.cpp:73-146 | a canonical argument reads back as itself, and a clean start follows |
| ArgParser.ArgumentLost | src/util/parsing.cpp:73-146 | any other argument reads back as something else, whatever follows |
| ArgParser.FlattenArgsRoundTripIff | src/util/parsing.cpp:207-230 | printed arguments read back as themselves exactly when each is canonical |
| ArgParser.TrailingBackslashIsLost | src/util/parsing.cpp:90-98 | a quoted value ending in a backslash does not survive |
| ArgParser.EscapeQuotes | src/util/parsing.cpp:192-199 | find-and-replace escapes every quote once |
| ArgCommand.FlattenArgs | src/util/parsing.cpp:207-230 | the line printed, and exactly when it reads back |
| ArgCommand.Flatten | src/util/parsing.cpp:186-205 | the line printed for any command, and exactly when it reads back |
| ArgCommand.Parse | src/util/parsing.h:130-142 | the first token in lower case is the command, the rest are the arguments |
| ArgCommand.OnlyFirst | src/util/parsing.cpp:73-146 | in whatever state a printed argument is met, only the first argument read from it can be itself |
| ArgCommand.NoRoomInFront | src/util/parsing.cpp:73-146 | in whatever state printed arguments are met, they are never read back behind others |
| ArgCommand.FlattenRoundTripIff | src/util/parsing.h:196-207 | every command, with or without a name, reads back exactly when its name is taken whole and in lower case and its arguments are canonical |
| ArgCommand.ParenthesesInNameSurvive | src/util/parsing.cpp:104-137 | a name with a blank inside parentheses reads back |
| ArgCommand.BlankInNameIsLost | src/util/parsing.cpp:117-118 | a name with a blank does not |
| TraceStream.CutAnywhere | src/tracer/frame_capture.cpp:352-397 | what has been cut off is not cut differently for later bytes |
| TraceStream.CutBlocksAnywhere | src/tracer/frame_capture.cpp:486-539 | the same for auxiliary blocks |
| TraceStream.ParametersFitIff | src/tracer/frame_capture.cpp:362-386 | a packet carries as many words as it counts exactly when it counts fewer than 2^30 |
| TraceStream.HugeCountCarriesNothing | src/tracer/frame_capture.cpp:362-368 | a packet that counts 2^30 words carries none |
| TraceRoundTrip.PacketsRoundTrip | src/tracer/frame_capture.cpp:352-397 | packets written out word by word, with their parameters and any incomplete rest, are cut into exactly these packets |
| TraceRoundTrip.BlocksRoundTrip | src/tracer/frame_capture.cpp:486-539 | the same for auxiliary blocks |
| TraceCapture.ChunksDoNotMatter | src/tracer/frame_capture.cpp:352-397 | for every cut into chunks, commands, parameters and residue are those of one pass |
| TraceCapture.AuxChunksDoNotMatter | src/tracer/frame_capture.cpp:486-539 | for every cut into chunks, the blocks handed on and the residue are those of one pass |
| TraceCapture.RecordingLinks | src/tracer/frame_capture.cpp:362-390 | every command is recorded in order, and one with parameters holds an id leading to exactly its words, with nothing recorded before changed |
| TraceCapture.IdsDiffer | src/tracer/frame_capture.cpp:374-386 | no two packets share an id |
| TraceDecoder.FrameCapture.ProcessPGRAPHBuffer | src/tracer/frame_capture.cpp:352-397 | the loop records exactly the whole packets and keeps the residue |
| TraceDecoder.FrameCapture.ProcessAuxBuffer | src/tracer/frame_capture.cpp:486-539 | the loop hands on exactly the whole blocks and keeps the residue |
| GdbPacket.EscapeRoundTrip | src/gdb/gdb_packet.cpp:15-33 | unescaping undoes escaping, and the escaped form has no `$` or `#` |
| GdbPacket.DecodeCounts | src/gdb/gdb_packet.cpp:119-147 | every byte is copied, half of a pair, or a dangling escape |
| GdbPacket.ReportedIs | src/gdb/gdb_packet.cpp:119-147 | the count returned is the input less a dangling escape, minus two per pair |
| GdbPacket.ShiftIsExactIff | src/gdb/gdb_transport.cpp:77-82 | the shift leaves exactly the undecoded rest if and only if there was no complete pair |
| GdbPacket.PairIsSeenAgain | src/gdb/gdb_packet.cpp:119-147 | an escape pair is decoded and not counted at all |
| GdbPacket.UnescapeBuffer | src/gdb/gdb_packet.cpp:119-147 | the loop appends the decoding of the whole input |
| GdbPacket.Mod256Checksum | src/gdb/gdb_packet.cpp:35-47 | the sum of all bytes modulo 256 |
| GdbPacket.ChecksumIsTotal | src/gdb/gdb_packet.cpp:35-47 | the checksum is the total of all bytes, cut to eight bits |
| GdbPacket.PacketsOnTheWire | src/gdb/gdb_packet.cpp:15-55 | two packets byte by byte, one of them escaped |
| GdbPacket.ParseFramed | src/gdb/gdb_packet.cpp:57-99 | a framed body without `#` is found whole, its checksum right |
| GdbPacket.PacketsRoundTripIff | src/gdb/gdb_transport.cpp:92-125 | packets arrive as sent with nothing left over exactly when no body holds a `#` |
| GdbPacket.TrailerInBodyIsLost | src/gdb/gdb_transport.cpp:92-125 | a body that is a single `#` does not arrive |
| GdbTransport.AcknowledgedInOrder | src/gdb/gdb_transport.cpp:37-50 | acknowledgements settle the oldest replies in order |
| GdbTransport.OnlyRepliesAreResent | src/gdb/gdb_transport.cpp:52-64 | what is sent again is, for each refusal, the reply at the number of acknowledgements before it, if there is one |
| GdbTransport.GDBTransport.Send | src/gdb/gdb_transport.cpp:17-24 | a reply is kept and sent |
| GdbTransport.GDBTransport.ProcessUnescapedReadBuffer | src/gdb/gdb_transport.cpp:92-125 | packets and interrupts are handed on in order, each acknowledged unless told otherwise, and the rest kept |
| GdbTransport.GDBTransport.OnBytesRead | src/gdb/gdb_transport.cpp:26-90 | control bytes at the head of a read, then decoding, then delivery, with the buffers as the code leaves them |
| GdbTransport.ReadRoundTripIff | src/gdb/gdb_transport.cpp:26-125 | packets in one read arrive exactly when no body holds a `#`, and the read buffer is then empty exactly when nothing was escaped |

## Left out

- Sockets, the select loop, thread pools and locks: state machines here take one event at a time. A wait that
  wakes up without its request being finished is not modelled, and nothing is claimed about liveness.
- Error texts and log output.
- Paths are sequences of components and XFAT's case-insensitivity is not modelled; the first component is the
  drive. Listings are sets, the local walk with its name filter is an input keyed by remote path, and the sorted
  creation of directories is reduced to "no directory before its ancestors".
- XbdmDebugger.XBDMDebugger.OnStopped: asynchronous restoration takes effect at once, and the choice of the active
  thread and the new memory map are not modelled.
- XbdmDebugger.XBDMDebugger.StepInstruction: what the thread sends to fetch its context, to step and to resume is one
  command each.
- MemoryMap.GrantedIff: accesses longer than one byte that start at the last address are decided by `WalkFromTop`
  instead, and writes whose last byte is below the top for regions that do not overlap.
- BackTrace.GuessBackTrace: fetching the thread's context and stack limits, and the disassembly, are inputs.
- DxtLibrary.DXTLibrary.Relocate: the table must be well formed; the code reads past a truncated table, and a block
  of size zero would never end. The factor -1 on a distance of 2^31 is modelled as a wrap.
- Loading of sections, headers and TLS in `dxt_library.cpp`, and the bootstrap and memory upload in `loader.cpp`.
- ImportResolve.Loader.ResolveImports: a name missing from an existing table is excluded, since the code then
  dereferences the end of the table. Fetching the module's base is an input, and the console answers in order.
- RdcpResponse.ParseIsPrefixStable: stated for buffers below 4 GB, where sizes fit 32 bits.
- RdcpRoundTrip.BinaryRoundTrip: the message of a binary response is dropped by the code, so only the data returns.
- XbdmTransport.XBDMTransport.OnBytesRead: malformed responses are excluded, since the code then uses a null
  response. At most one response is handled for each read.
- Reconnection, dedicated channels and the notification channel.
- ArgCommand.Flatten: arguments have one of the three types that reading produces.
- `SplitAt` and `ExtractSubcommand`: splitting a list at a delimiter is not modelled.
- Trace parameters of 2^30 words or more, where the code reads beyond the packet, and the logging of packets.
- Chunk invariance of the whole GDB transport: control bytes are recognised only at the head of a read.
- Float and control registers, pixel converters, DDS headers, shell commands and help texts.
