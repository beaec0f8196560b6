# Verification of the CFO and DTC interface libraries

Dafny models and proofs for the algorithmic parts of the CFO and DTC interface libraries, their driver and their
simulator. `dafny verify dfyconfig.toml` checks everything.

The project has five parts, each a few modules.

**The run-plan compiler** turns text lines into 8-byte rows. `Tokenizer` and `Numbers` are its lexer and its
expression evaluator; `RunPlan` gives source operations, rows and one compile step as functions; `RunPlanText` reads
lines; `RunPlanCompiler` is the compiler class with its fields, updated in place and tied to those functions.
`LoopNesting` proves the bracket structure of every accepted plan, `ModeBits` the bit-field operations, `RowFormat`
the binary form and the listing, `RunPlanUpload` the register upload. `RowMachine`, `CompilerCorrectness` and
`PlanMeaning` state what rows do and prove that compilation preserves meaning. `Numerals` and `RunPlanGrammar` say
what the text means without the reader's own tables: numbers written out in digits, every line form spelled out, and a
printer whose output compiles to what was printed.

**The receive path.** `DmaRing` is the ring of DMA slots as a state machine over hardware, driver and library steps;
`DmaDevice` is the device class with its indices and arrays, `DtcReceive` the library class with its deque of buffers
and the reassembly of sub-events, `FileVerifier` the differently written loop of the file verifier, `SubEvents` what
both should produce, `Framing` transfers built from payloads, which are read back. `CfoRecords` is the record extraction of the CFO.

**Simulator and verifier.** `DataHeaders` are blocks and their headers. `CalorimeterBlock` has the calorimeter block
simulator and the reading of calorimeter data, `BlockVerifier` the verifier class with its state, for blocks,
sub-events and events, `CalorimeterAgreement` proves that simulator and verifier agree. `EventFile` and
`EventSimulator` are the simulator's events: opening, closing, requests, register writes and emulated heartbeats.
`EmulatorRuns` is a run as its user sees it, from register writes to tags in the file.

**The oscillator.** `DividerSearch` is the search for dividers, `OscillatorProgram` the packed program and its error
bound, `SerdesOscillator` the registers behind the IIC bus.

**File comparison.** `EventMaps` are the four nested maps, `FileCompare` the program.

`Words` (bits, widths, little-endian bytes) and `Outcomes` are shared.

## Assumptions

- The firmware that executes rows is not in the repository. `RowMachine` states its reading: AND and OR act on a
  48-bit mode; LOOP arms a counter with a number the firmware derives from the parameter (any function of it, so
  both "n times" and "n + 1 times" are covered); DO_LOOP goes back its parameter in rows and resumes after the LOOP;
  GOTO goes to its row, REPEAT to the first, and an all-ones parameter of HEARTBEAT, DATA_REQUEST or WAIT stands for
  the keyword.
- Row parameters have 48 bits, so statements about back-jumps and runs are for plans of at most 2^48 rows.
- WAIT with a time unit is converted through doubles in the original. The conversion is a parameter here.
- Hardware never completes a transfer into a slot that has not been given back, transfers carry a positive byte
  count and a size field above 8 (`Proper`), and only the data channel is used, except where a row says otherwise.
  A completed transfer of zero bytes would be counted as held and look like a timeout.
- Sub-events and events are the bytes they wrap, with a byte count read from the header, a tag and a test whether the
  payload can be set up; these are parameters.
- In files the size word of a DMA buffer is below 2^16, and the bytes behind its low two are zero.
- Reals stand for doubles in the oscillator part. A target frequency of 0 makes a quotient infinite, as in the
  original; a present frequency or multiplier of 0 is excluded, because the original then divides by zero.
- Event window tags are added modulo 2^48.

## Where the code does not do what one would expect

Each of these is proved, by the exact condition, by an instance, or by both.

- A number that compiles to all ones is read as a keyword (`RowMeansOp`, `AmbiguousPlanMisread`).
- The end of the file does not check the loop stack: a loop may stay open after the last ending
  (`AcceptedIffDisciplined`, `OpenLoopIsAccepted`).
- `buffers_held_` counts data buffers and is used and lowered on both channels (`DcsReadIsRightIff`,
  `DcsReleaseKeepsOrderIff`, `DcsReleaseRepeatsDaqData`, `HeldBufferIsReachable`).
- `VerifyFile` overwrites its verdict with every event, also the one that a wrong size inside an event has just made
  false (`VerifyFile`, `AcceptsRejectedEvent`).
- The packet counter of the ROC emulator is resynchronised before it is compared, so lost packets are accepted
  (`VerifyROCEmulatorBlock`, `JumpIsAccepted`).
- The divider search refuses N1 = 1 exactly on the lower edge and so finds nothing for two targets (`LosesExactly`).
- A multiplier of 1024 or more wraps (`RfreqRoundTrip`).
- The two timestamp formulas of the file comparison put the words in opposite orders, so a file can differ from itself
  (`SelfComparison`, `DiffersFromItself`).
- A record without its size word makes the remaining size of the CFO loop wrap around (`ExtractRecords`,
  `CounterWraps`).
- In event mode the simulator rounds the number of DTCs down (`EventModeBlocks`).

## Model

| member | source | states |
|---|---|---|
| `PlanMeaning.CompilationPreservesMeaning` | cfoInterfaceLib/CFO_Compiler.cpp:309-359 | Main theorem of the compiler. The lines of every accepted plan of at most 2^48 rows up to its first ending have a reading as nested loops; if no operand among them is ambiguous, then for every firmware loop count, initial mode and number of rounds, the machine running the compiled rows produces exactly the effects and the mode of that reading, and nothing it ever emits goes beyond the source. |
| `PlanMeaning.PlanReadingIsUnique` | cfoInterfaceLib/CFO_Compiler.cpp:529-567 | The reading as nested loops used by the main theorem is the only one a list of operations has. |
| `PlanMeaning.RoundsRun` | cfoInterfaceLib/CFO_Compiler.cpp:574-611 | Every number of passes through a plan that ends in END, REPEAT or GOTO MAIN is reached by the machine, with the source's effects. |
| `PlanMeaning.WellFormedIsAccepted` | cfoInterfaceLib/CFO_Compiler.cpp:309-359 | The compiler accepts every well-formed plan and compiles it to exactly the rows of its blocks. |
| `PlanMeaning.PlanCompiles` | cfoInterfaceLib/CFO_Compiler.cpp:309-359 | Whatever follows the ending, if it compiles, the compiled rows start with those of the plan. |
| `PlanMeaning.OpenLoopIsAccepted` | cfoInterfaceLib/CFO_Compiler.cpp:109-114 | Instance: a plan with a loop opened after its END, and never closed, is accepted. |
| `PlanMeaning.PlanReading` | cfoInterfaceLib/CFO_Compiler.cpp:549-637 | Every accepted list of operations is a well-formed plan followed by lines that are never reached. |
| `PlanMeaning.AmbiguousPlanMisread` | cfoInterfaceLib/CFO_Compiler.cpp:376-397 | Counterexample: a heartbeat asked for with mode 2^48 - 1 is accepted and sent with the registered mode. |
| `RowMachine.RowMeansOp` | cfoInterfaceLib/CFO_Compiler.cpp:376-527 | The rows of one operation have, on every 48-bit mode, the effects of the source operation if and only if its operand is not a number that compiles to all ones, the row for a keyword. |
| `RowMachine.ReadingIsUnique` | cfoInterfaceLib/CFO_Compiler.cpp:529-567 | Two nestings of loops that flatten to the same lines are the same nesting. |
| `RowMachine.CompileBlock` | cfoInterfaceLib/CFO_Compiler.cpp:309-359 | A nested block compiled after any state adds exactly the rows of its blocks and leaves stack and labels alone. |
| `CompilerCorrectness.BlockRuns` | cfoInterfaceLib/CFO_Compiler.cpp:529-567 | From the first row of a compiled block the machine gets to the row after it with the block's effects, at any nesting depth. |
| `CompilerCorrectness.LoopRuns` | cfoInterfaceLib/CFO_Compiler.cpp:549-567 | A loop body with its DO_LOOP is passed once more than the counter says, by back-jumps over the rows between. |
| `CompilerCorrectness.OpRuns` | cfoInterfaceLib/CFO_Compiler.cpp:309-359 | A plain operation, of one row or two, is run with its source meaning. |
| `LoopNesting.AcceptedPlansAreWellFormed` | cfoInterfaceLib/CFO_Compiler.cpp:549-637 | In every accepted plan depth is never negative, it is zero at END, REPEAT, GOTO and LABEL, each DO_LOOP goes back to its own LOOP, each GOTO names the row of the one NOOP row, and there is an ending. |
| `LoopNesting.AcceptedIffDisciplined` | cfoInterfaceLib/CFO_Compiler.cpp:109-114 | A plan is accepted exactly when its operations keep the nesting and label rules and one of them is an ending; the end of the file itself checks no loop. |
| `LoopNesting.CompileFollowsRules` | cfoInterfaceLib/CFO_Compiler.cpp:549-637 | The compiler stops at the first operation that breaks a rule, and loop stack, label map and end flag mean what their names say. |
| `LoopNesting.StepKeepsInvariant` | cfoInterfaceLib/CFO_Compiler.cpp:309-359 | Every accepted operation keeps: the stack lists the open loops, back-jumps reach their LOOP rows, labels and GOTO rows agree. |
| `LoopNesting.CompileKeepsInvariant` | cfoInterfaceLib/CFO_Compiler.cpp:309-359 | The same over every run of operations. |
| `LoopNesting.PopKeepsStack` | cfoInterfaceLib/CFO_Compiler.cpp:549-567 | A DO_LOOP row matches the LOOP on top of the stack, with the rows between balanced, and the outer loops stay open. |
| `LoopNesting.MatchIsUnique` | cfoInterfaceLib/CFO_Compiler.cpp:549-567 | A DO_LOOP has at most one matching LOOP. |
| `LoopNesting.MatchesNeverCross` | cfoInterfaceLib/CFO_Compiler.cpp:549-567 | Two matched pairs are nested or apart. |
| `ModeBits.CompiledModeIsSourceMode` | cfoInterfaceLib/CFO_Compiler.cpp:710-736 | On every 48-bit mode the AND and OR rows of an operation do its bit-field update: SET_MODE_BITS replaces the window by the value's low bits, AND, OR and CLEAR leave bits outside alone. |
| `ModeBits.SetModeLoads` | cfoInterfaceLib/CFO_Compiler.cpp:793-819 | SET_MODE leaves the value modulo 2^48, whatever the mode was. |
| `ModeBits.OtherOpsKeepMode` | cfoInterfaceLib/CFO_Compiler.cpp:376-527 | No other operation changes the mode. |
| `ModeBits.RowsModeBit` | cfoInterfaceLib/CFO_Compiler.cpp:328-343 | Bit by bit: what the one or two rows of an operation do to each of the 48 bits. |
| `ModeBits.WindowBits` | cfoInterfaceLib/CFO_Compiler.cpp:710-736 | Which bits the masked and shifted operands of a window operation have, inverted ones included. |
| `ModeBits.MaskStep` | cfoInterfaceLib/CFO_Compiler.cpp:710-715 | One turn of the mask loop adds exactly the next bit of the window. |
| `RowFormat.DecodeEncode` | cfoInterfaceLib/CFO_Compiler.cpp:294-303 | Decoding the bytes of any rows gives the rows back: opcode and parameter modulo 2^48. |
| `RowFormat.Opcodes` | cfoInterfaceLib/CFO_Compiler.hh:34-55 | The opcode of every instruction as a number. |
| `RowFormat.PlanBytes` | cfoInterfaceLib/CFO_Compiler.cpp:294-359 | Instance: the sixteen bytes of a plan that sets a tag and ends. |
| `RowFormat.RepeatBytes` | cfoInterfaceLib/CFO_Compiler.cpp:294-359 | Instance: the eight bytes of a plan that is one REPEAT. |
| `RowFormat.NamesAreRead` | cfoInterfaceLib/CFO_Compiler.cpp:223-290 | The two tables of names are inverse: the name listed for an opcode is read as that instruction, and opcode 0 is listed as LABEL. |
| `RowFormat.RowsAreCounted` | cfoInterfaceLib/CFO_Compiler.cpp:309-359 | The number of rows is the number of operations plus one for each SET_MODE and SET_MODE_BITS. |
| `RowFormat.ListRows` | cfoInterfaceLib/CFO_Compiler.cpp:136-164 | The listing pass never throws on compiler output and lists each row once, indented by loop depth. |
| `RunPlan.CompileAppend` | cfoInterfaceLib/CFO_Compiler.cpp:309-359 | Compiling a list is compiling its first part and then the rest. |
| `Tokenizer.GetVectorFromString` | cfoInterfaceLib/CFO_Compiler.cpp:1028-1127 | The loop over characters returns the trimmed pieces and the delimiters between them; its own mismatch error cannot occur. |
| `Tokenizer.SplitGlues` | cfoInterfaceLib/CFO_Compiler.cpp:1028-1127 | Gluing the pieces with the delimiters gives the line back; no piece contains a delimiter. |
| `Tokenizer.GlueSplits` | cfoInterfaceLib/CFO_Compiler.cpp:1028-1127 | Delimiter-free pieces glued with delimiters are found again: the cut is unique. |
| `Tokenizer.TrimIsInfix` | cfoInterfaceLib/CFO_Compiler.cpp:1028-1127 | Trimming removes white space at both ends and nothing else. |
| `Numbers.GetNumber` | cfoInterfaceLib/CFO_Compiler.cpp:837-1013 | The in-place accumulator computes the number read left to right modulo 2^16 or 2^64, with the same errors. |
| `Numbers.VerifyToken` | cfoInterfaceLib/CFO_Compiler.cpp:861-917 | A token passes the test of characters exactly when it looks like a hexadecimal, binary or decimal number. |
| `Numbers.EvaluateIsExact` | cfoInterfaceLib/CFO_Compiler.cpp:951-1009 | At every step the running value is the exact integer result modulo the width. |
| `Numbers.ExpressionMeaning` | cfoInterfaceLib/CFO_Compiler.cpp:837-1013 | Terms and operators glued into a text, with white space as one likes, are read as the exact left-to-right value modulo the width. |
| `Numerals.DecimalToken` | cfoInterfaceLib/CFO_Compiler.cpp:928-945 | The decimal digits of any number are read as that number, cut off at 2^63 - 1. |
| `Numerals.HexadecimalToken` | cfoInterfaceLib/CFO_Compiler.cpp:928-945 | So are its hexadecimal digits behind 0x, in both letter cases. |
| `Numerals.BinaryToken` | cfoInterfaceLib/CFO_Compiler.cpp:928-945 | And its binary digits behind b. |
| `Numerals.OperationIsRead` | cfoInterfaceLib/CFO_Compiler.cpp:951-1009 | Two numbers with + - * or / between them are read as sum, difference, product or quotient modulo the width. |
| `Numerals.ComplementIsRead` | cfoInterfaceLib/CFO_Compiler.cpp:951-1009 | A number behind ~ is read as its complement modulo the width. |
| `Numerals.NumberTextIsRead` | cfoInterfaceLib/CFO_Compiler.cpp:837-1013 | Every 64-bit number has a text that is read as it. |
| `RunPlanGrammar.ReadExactly` | cfoInterfaceLib/CFO_Compiler.cpp:364-835 | The language, keyword by keyword: the arguments of a line are read as an operation if and only if they spell it, with the names, argument counts, operands, windows, value widths and time units written out. |
| `RunPlanGrammar.WindowIsRead` | cfoInterfaceLib/CFO_Compiler.cpp:657-690 | A start bit and a bit count are accepted if and only if they lie in the 48 bits of the mode and the count is positive. |
| `RunPlanGrammar.NameIsParsed` | cfoInterfaceLib/CFO_Compiler.cpp:223-255 | Each name, written out, is read as its own instruction. |
| `RunPlanGrammar.TextSpells` | cfoInterfaceLib/CFO_Compiler.cpp:364-835 | Every operation has arguments that spell it. |
| `RunPlanGrammar.ArgumentsAreFound` | cfoInterfaceLib/CFO_Compiler.cpp:73-90 | Arguments with any delimiters between them are the arguments of the line, whatever its line end. |
| `RunPlanGrammar.CleanKeeps` | cfoInterfaceLib/CFO_Compiler.cpp:79-90 | Arguments in front of a comment are kept, the comment is dropped. |
| `RunPlanGrammar.EmptyPiecesAreDropped` | cfoInterfaceLib/CFO_Compiler.cpp:79-82 | Delimiters next to each other make no difference. |
| `RunPlanGrammar.CommentsAreFound` | cfoInterfaceLib/CFO_Compiler.cpp:203-221 | Behind blanks two slashes make a comment, one alone an error, and anything else a line. |
| `RunPlanGrammar.LineIsRead` | cfoInterfaceLib/CFO_Compiler.cpp:60-107 | Every operation is read back from its line. |
| `RunPlanGrammar.PrintedPlansCompile` | cfoInterfaceLib/CFO_Compiler.cpp:60-107 | Every list of operations has a text, and compiling the text is compiling the list. |
| `RunPlanText.TextIsOps` | cfoInterfaceLib/CFO_Compiler.cpp:60-107 | When every line can be read the text compiles, or fails to, exactly as the list of its operations; a line that cannot be read fails it. |
| `RunPlanCompiler.CfoCompiler.constructor` | cfoInterfaceLib/CFO_Compiler.cpp:31-58 | A new compiler has compiled nothing. |
| `RunPlanCompiler.CfoCompiler.OutParameter` | cfoInterfaceLib/CFO_Compiler.cpp:294-303 | Appends the six low bytes of the parameter, least significant first. |
| `RunPlanCompiler.CfoCompiler.BuildMask` | cfoInterfaceLib/CFO_Compiler.cpp:710-715 | The loop over bits builds the mask of the window. |
| `RunPlanCompiler.CfoCompiler.BitsParameter` | cfoInterfaceLib/CFO_Compiler.cpp:639-796 | Parameter and clear mask of the window operations, as in the specification of one step. |
| `RunPlanCompiler.CfoCompiler.WaitParameter` | cfoInterfaceLib/CFO_Compiler.cpp:467-527 | The forms of WAIT, its units and its errors; the conversion of s, ms and us is a parameter. |
| `RunPlanCompiler.CfoCompiler.LoopParameter` | cfoInterfaceLib/CFO_Compiler.cpp:529-567 | LOOP pushes its row, DO_LOOP pops it and takes the distance in rows. |
| `RunPlanCompiler.CfoCompiler.ClosedParameter` | cfoInterfaceLib/CFO_Compiler.cpp:574-637 | REPEAT, END, GOTO and LABEL are refused inside a loop; GOTO needs the label, LABEL must be the first. |
| `RunPlanCompiler.CfoCompiler.CalculateParameterAndErrorCheck` | cfoInterfaceLib/CFO_Compiler.cpp:364-835 | For every opcode the parameter, the new stack and labels or the error are those of the specified step. |
| `RunPlanCompiler.CfoCompiler.ProcessOp` | cfoInterfaceLib/CFO_Compiler.cpp:309-359 | One line of arguments takes the compiler's fields to the next specified state, or stops with its error. |
| `RunPlanCompiler.CfoCompiler.IsCommentLine` | cfoInterfaceLib/CFO_Compiler.cpp:203-221 | Finds the comment mark behind leading blanks. |
| `RunPlanCompiler.CfoCompiler.ReadArguments` | cfoInterfaceLib/CFO_Compiler.cpp:73-90 | The arguments are the non-empty pieces before the first comment. |
| `RunPlanCompiler.CfoCompiler.CleanArguments` | cfoInterfaceLib/CFO_Compiler.cpp:79-90 | The loop that erases in place drops empty elements and everything from a comment on. |
| `RunPlanCompiler.CfoCompiler.ProcessLine` | cfoInterfaceLib/CFO_Compiler.cpp:60-105 | One line: comment, empty, an operation, or an error. |
| `RunPlanCompiler.CfoCompiler.ProcessFile` | cfoInterfaceLib/CFO_Compiler.cpp:31-201 | A file gives the bytes and the listing of its operations, or the first error, or the missing-end error. |
| `RunPlanUpload.SetRunPlanData` | cfoInterfaceLib/CFO_Registers.cpp:1878-1915 | Words go to consecutive cells from the base address, no other cell changes, and the read-back pass accepts; a last word that is not complete takes the bytes behind the data. |
| `RunPlanUpload.WordInside` | cfoInterfaceLib/CFO_Registers.cpp:1887-1895 | A word inside the data does not depend on what lies behind it. |
| `RunPlanUpload.RowInMemory` | cfoInterfaceLib/CFO_Registers.cpp:1887-1895 | An uploaded row is the pair of words at twice its index: low half, then high half under the opcode. |
| `DmaRing.ReadsAreFifo` | dtcInterfaceLib/mu2edev.cpp:189-261 | For every interleaving of completions, driver publishes, refreshes, reads and releases the reads return the completed transfers in order, each once, with the byte count stored before the index moved. |
| `DmaRing.StepKeepsInvariant` | mu2e_driver/mu2e_event.c:140-172 | Each of the six kinds of step keeps the ring invariant, also with stale cached indices. |
| `DmaRing.PublishKeepsInvariant` | mu2e_driver/mu2e_event.c:140-172 | One turn of the poll loop publishes exactly the next completed transfer. |
| `DmaRing.TakeIsNext` | dtcInterfaceLib/mu2edev.cpp:214-243 | A read hands out the oldest transfer not yet read, data and byte count unaltered. |
| `DmaRing.TakeSucceedsIff` | dtcInterfaceLib/mu2edev.cpp:214-255 | After a refresh a read succeeds exactly when a published transfer is unread. |
| `DmaRing.DeltaIsDistance` | mu2e_driver/mu2e_mmap_ioctl.h:340-356 | The delta of two ring indices is the number of transfers between them. |
| `DmaRing.IndexAdds` | mu2e_driver/mu2e_mmap_ioctl.h:139-143 | Adding to a ring index moves that many transfers on. |
| `DmaRing.DcsReadIsRightIff` | dtcInterfaceLib/mu2edev.cpp:214-243 | A read on the other channel adds the held data buffers: it finds the oldest transfer there whenever one is waiting, and in the right slot, if and only if none is held or nothing is waiting. |
| `DmaRing.DcsReleaseKeepsOrderIff` | dtcInterfaceLib/mu2edev.cpp:306-309 | After a release on the other channel the next data read stays in order if and only if nothing was held or nothing was released. |
| `DmaRing.DcsReleaseRepeatsDaqData` | dtcInterfaceLib/mu2edev.cpp:306-309 | Otherwise it returns a transfer already read. |
| `DmaRing.HeldBufferIsReachable` | dtcInterfaceLib/mu2edev.cpp:189-261 | A run of five steps after which a data buffer is held. |
| `DmaDevice.Mu2eDev.PollPackets` | mu2e_driver/mu2e_event.c:140-172 | The loop publishes every completed transfer. |
| `DmaDevice.Mu2eDev.PublishNext` | mu2e_driver/mu2e_event.c:140-172 | One turn of that loop: byte count first, index second. |
| `DmaDevice.Mu2eDev.ReadData` | dtcInterfaceLib/mu2edev.cpp:214-255 | Either the next unread slot with its byte count, and one more held, or nothing because everything published has been read. |
| `DmaDevice.Mu2eDev.ReadRelease` | dtcInterfaceLib/mu2edev.cpp:285-313 | Up to the number of slots seen, releases move on and the held count goes down, not below zero; more than that is ignored. |
| `SubEvents.SubEventIsUnique` | dtcInterfaceLib/DTC.cpp:1143-1269 | The transfers and header determine the sub-event and the least number of transfers that cover it. |
| `SubEvents.PartialStep` | dtcInterfaceLib/DTC.cpp:1223-1269 | One more copied payload, cut to what is missing, keeps the copy equal to what has been gathered. |
| `Framing.PayloadIsReadBack` | dtcInterfaceLib/CFOandDTC_DMAs.cpp:70-77 | A payload of any size that fits is read back from a transfer built around it, low size byte first, whatever stands in the header and behind; the file verifier takes the same size. |
| `Framing.CutSubEventIsThere` | dtcInterfaceLib/DTC.cpp:1143-1269 | A sub-event cut into payloads in any way is the sub-event of the transfers built around them. |
| `DtcReceive.Dtc.GetCurrentBuffer` | dtcInterfaceLib/CFOandDTC_DMAs.cpp:33-55 | The number of held buffers, or a negative number when there is none. |
| `DtcReceive.Dtc.GetBufferByteCount` | dtcInterfaceLib/CFOandDTC_DMAs.cpp:57-77 | The size field of the held buffer at an index; zero beyond the deque. |
| `DtcReceive.Dtc.PollDevice` | dtcInterfaceLib/DTC.cpp:1532-1560 | The retry loop around read_data. |
| `DtcReceive.Dtc.ReadBuffer` | dtcInterfaceLib/DTC.cpp:1514-1590 | A buffer read is appended to the deque exactly when the device counts it as held. |
| `DtcReceive.Dtc.ReleaseBuffers` | dtcInterfaceLib/DTC.cpp:1594-1624 | Everything held is given back, nothing unread is. |
| `DtcReceive.Dtc.ContinueSubEvent` | dtcInterfaceLib/DTC.cpp:1143-1269 | The continuation loop builds exactly the first bytes, as many as the header says, of the concatenated payloads, with the least number of buffers. |
| `DtcReceive.Dtc.ReadNextDAQSubEventDMA` | dtcInterfaceLib/DTC.cpp:1054-1275 | One sub-event from the transfers, or none, or the error of the original. |
| `DtcReceive.Dtc.GetSubEventData` | dtcInterfaceLib/DTC.cpp:166-243 | Before and after every call, also a failed one, deque length and device count agree and exactly what was read before has been given back; both errors called impossible are unreachable; every outcome, each error included, is explained by the transfers then held. |
| `Framing.CutSubEventIsReturned` | dtcInterfaceLib/DTC.cpp:166-243 | When the transfers of a cut sub-event come next, what is read is that sub-event, and no further transfer is taken. |
| `FileVerifier.ContinueEvent` | dtcInterfaceLib/DTC_Data_Verifier.h:433-472 | The file verifier's differently written loop builds the same bytes as the library. |
| `FileVerifier.VerifyFile` | dtcInterfaceLib/DTC_Data_Verifier.h:384-495 | For every shape of file: on complete events success means no event with a bad block header and the last one accepted; wrong sizes where an event starts mean failure; an event cut short is checked as far as it goes and its verdict is the result, or what reading on from there comes to. |
| `FileVerifier.EveryFileHasShape` | dtcInterfaceLib/DTC_Data_Verifier.h:400-480 | Every file has one of those shapes, when event headers have a positive count. |
| `FileVerifier.AcceptsRejectedEvent` | dtcInterfaceLib/DTC_Data_Verifier.h:474-480 | Instance: a file of two events, the first rejected, is accepted. |
| `FileVerifier.NextEvent` | dtcInterfaceLib/DTC_Data_Verifier.h:425-480 | What one turn of the loop cuts off is the next event of the reading. |
| `CalorimeterBlock.VerifyCalorimeterDataBlock` | dtcInterfaceLib/DTC_Data_Verifier.h:62-186 | Accepts exactly the empty block and the well-formed ones, and looks past the data only when it is too short. |
| `BlockVerifier.DataVerifier.VerifyBlock` | dtcInterfaceLib/DTC_Data_Verifier.h:269-333 | Accepts exactly the blocks with a data header, a packet count that agrees with the byte count, and right contents for their subsystem; a bad header, and nothing else, ends the reading of a file. |
| `BlockVerifier.BlockBits` | dtcInterfaceLib/DTC_Data_Verifier.h:269-333 | The same in bits: the type word masked with 0x80F0 is 0x8050; calorimeter checks for subsystem 1 and ROC emulator checks for subsystem 3. |
| `DataHeaders.DataHeaderMask` | dtcInterfaceLib/DTC_Data_Verifier.h:275-278 | The header test is the comparison under the mask. |
| `BlockVerifier.DataVerifier.VerifyROCEmulatorBlock` | dtcInterfaceLib/DTC_Data_Verifier.h:194-267 | Accepts exactly the blocks whose packets have the pattern and the same counter twice: the expected counter follows the one received, so a jump is never an error. |
| `BlockVerifier.DataVerifier.VerifySubEvent` | dtcInterfaceLib/DTC_Data_Verifier.h:336-357 | A sub-event is accepted exactly when every block is, also with the early return. |
| `BlockVerifier.DataVerifier.VerifyEvent` | dtcInterfaceLib/DTC_Data_Verifier.h:359-382 | An event is accepted exactly when every block of every sub-event is; in a file, reading goes on exactly when no block has a bad header. |
| `BlockVerifier.OkHasHeaders` | dtcInterfaceLib/DTC_Data_Verifier.h:278-288 | What is accepted never ends the reading. |
| `BlockVerifier.JumpIsAccepted` | dtcInterfaceLib/DTC_Data_Verifier.h:213-232 | Instance: a block whose ROC packets are numbered 0 and 7 is accepted. |
| `DataHeaders.TypeWord` | mu2e_driver/mu2e_mmap_ioctl.h:56-60 | The packed type word gives back link and subsystem and passes the header test. |
| `CalorimeterBlock.CheckHit` | dtcInterfaceLib/DTC_Data_Verifier.h:114-171 | One hit: accepted exactly when its offset and peak index are right and it lies inside the data. |
| `CalorimeterBlock.CheckPadding` | dtcInterfaceLib/DTC_Data_Verifier.h:173-184 | Accepted exactly when every word up to the 16-byte boundary is there and zero. |
| `CalorimeterBlock.ScanSamples` | dtcInterfaceLib/DTC_Data_Verifier.h:146-164 | The running maximum ends at the first index of the largest sample. |
| `CalorimeterBlock.PeakIsMaximum` | dtcInterfaceLib/DTC_Data_Verifier.h:146-164 | That index holds a maximum, no earlier one does, and it is 0 when every sample is 0. |
| `CalorimeterBlock.OffsetsAddUp` | dtcInterfaceLib/DTC_Data_Verifier.h:114-124 | A right offset is 2n + 6 plus 10 and twice the sample count for each earlier hit. |
| `CalorimeterBlock.CalorimeterBlockSimulator` | dtcInterfaceLib/mu2esim.cpp:712-763 | The pushes and the padding loop build the specified words with a consistent header. |
| `CalorimeterAgreement.SimulatedIsWellFormed` | dtcInterfaceLib/mu2esim.cpp:712-763 | Every block the simulator can build, for every hit count that fits, link and DTC id, is well-formed and long enough. |
| `CalorimeterAgreement.SimulateAndVerify` | dtcInterfaceLib/DTC_Data_Verifier.h:269-333 | Building a block and verifying it always ends in acceptance. |
| `CalorimeterAgreement.ElevenBitCountIff` | mu2e_driver/mu2e_mmap_ioctl.h:62-63 | If the packet count is kept in the 11 bits of the hardware view it agrees with the byte count exactly up to 1259 hits. |
| `EventSimulator.Mu2eSim.OpenEvent` | dtcInterfaceLib/mu2esim.cpp:514-530 | An event of the same tag stays open; any other is written first and a new one opened. |
| `EventSimulator.Mu2eSim.CloseSubEvent` | dtcInterfaceLib/mu2esim.cpp:532-541 | A sub-event with blocks moves into its event; nothing is lost and nothing empty is added. |
| `EventSimulator.Mu2eSim.CloseEvent` | dtcInterfaceLib/mu2esim.cpp:556-569 | The open event is written whole. |
| `EventSimulator.Mu2eSim.AddDataBlock` | dtcInterfaceLib/mu2esim.cpp:760-762 | The log of blocks grows by the block, under the open event's tag. |
| `EventSimulator.Mu2eSim.ReadoutRequest` | dtcInterfaceLib/mu2esim.cpp:237-242 | The link is noted under the tag. |
| `EventSimulator.Mu2eSim.DataRequest` | dtcInterfaceLib/mu2esim.cpp:243-281 | A block is made exactly for a link with an unserved readout request, and goes into the event of the tag; that event is written exactly when its last request has been served. File, open event, log and requests are given whole. |
| `EventSimulator.Mu2eSim.WriteRaw` | dtcInterfaceLib/mu2esim.cpp:209-224 | A write to channel 0 closes the open event first. |
| `EventSimulator.Mu2eSim.ReopenDdrFile` | dtcInterfaceLib/mu2esim.cpp:799-818 | Truncation loses what was written and keeps the open event. |
| `EventSimulator.Mu2eSim.SimulateEvent` | dtcInterfaceLib/mu2esim.cpp:616-674 | One sub-event of six blocks for each whole DTC of each detector, and the event is written. |
| `EventSimulator.Mu2eSim.SimulateDetectors` | dtcInterfaceLib/mu2esim.cpp:631-671 | The sub-events of all DTCs; blocks that were waiting go into the first sub-event that is closed. |
| `EventSimulator.Mu2eSim.CFOEmulator` | dtcInterfaceLib/mu2esim.cpp:394-492 | The whole effect of a run, in every mode: the file grows by exactly as many events as asked for, with consecutive tags, the first completing an open event of its tag, and none is left open. |
| `EmulatorRuns.Run` | dtcInterfaceLib/mu2esim.cpp:338-492 | Writing a 48-bit tag to the two timestamp registers, a count and bit 30 of the control register puts one event for each of that many tags, from the one written on, in order at the end of the file. |
| `EmulatorRuns.StartIsWritten` | dtcInterfaceLib/mu2esim.cpp:403-404 | The first tag has its low 32 bits in one register and its high 16 bits in the low half of the other; the rest of that register does not matter. |
| `EmulatorRuns.RunIsTagged` | dtcInterfaceLib/mu2esim.cpp:418-492 | Event i of a run has the first tag plus i modulo 2^48, whatever was open before. |
| `EmulatorRuns.PacketCounts` | dtcInterfaceLib/mu2esim.cpp:429-455 | Each packet-count register holds the counts of two links, the even one in the low half. |
| `EmulatorRuns.EnabledLinks` | dtcInterfaceLib/mu2esim.cpp:411-416 | A link takes part exactly when its receiver bit or its transmitter bit is set. |
| `EmulatorRuns.ClearsBit30` | dtcInterfaceLib/mu2esim.cpp:396-401 | Clearing bit 30 clears that bit and keeps every other. |
| `EventSimulator.Mu2eSim.Heartbeat` | dtcInterfaceLib/mu2esim.cpp:420-492 | One heartbeat writes one event, or completes and writes the open one of its tag. |
| `EventFile.RunWritesItsEvents` | dtcInterfaceLib/mu2esim.cpp:418-492 | Without an open event of the first tag a run writes what was open and then one event for each of consecutive tags. |
| `EventSimulator.Mu2eSim.WriteRegister` | dtcInterfaceLib/mu2esim.cpp:338-377 | The whole effect of a register write: bit 30 of the control register runs the emulator, bit 31 resets and truncates after that, bit 0 of the detector emulator register truncates when cleared; no block is forgotten. |
| `EventSimulator.Mu2eSim.Init` | dtcInterfaceLib/mu2esim.cpp:115-143 | The mode and the registers of this model after init. |
| `EventFile.EntriesOfAddedBlock` | dtcInterfaceLib/mu2esim.cpp:760-762 | Adding a block adds one entry at the end of what the file and the open event hold. |
| `EventFile.BlocksInLinkOrder` | dtcInterfaceLib/mu2esim.cpp:429-478 | An event of a single-subsystem run has blocks of enabled links only, at most one each, in link order. |
| `EventFile.EnabledLinkHasBlock` | dtcInterfaceLib/mu2esim.cpp:429-478 | Every enabled link has its block. |
| `EventFile.NextTagDiffers` | dtcInterfaceLib/mu2esim.cpp:418-424 | Consecutive 48-bit tags differ, also across the wrap-around. |
| `EventFile.EventModeBlocks` | dtcInterfaceLib/mu2esim.cpp:620-674 | Event mode makes n - n mod 6 blocks of the n configured: the count of DTCs is rounded down. |
| `EventFile.CaloBlockIsAccepted` | dtcInterfaceLib/mu2esim.cpp:712-763 | Every calorimeter block put into an event passes the verifier. |
| `DividerSearch.SearchDividers` | cfoInterfaceLib/CFO_Registers.cpp:3204-3232 | For every positive target: no solution exactly when no pair is eligible, else the largest HSDIV with one and its least N1. |
| `DividerSearch.FirstN1` | cfoInterfaceLib/CFO_Registers.cpp:3207-3216 | The inner loop stops at the first of 1, 2, 4, ... that reaches the window. |
| `DividerSearch.ListCandidates` | cfoInterfaceLib/CFO_Registers.cpp:3204-3220 | The early break loses no HSDIV that can reach the window. |
| `DividerSearch.LosesExactly` | cfoInterfaceLib/CFO_Registers.cpp:3209-3211 | Some pair puts the target in the window and yet none is found if and only if the target is a quarter or a fifth of 4.85 GHz. |
| `DividerSearch.EligiblePairs` | cfoInterfaceLib/CFO_Registers.cpp:3204-3220 | The pairs that may be chosen, in numbers: six HSDIV values, N1 one or even up to 128, 4.85 to 5.67 GHz, and N1 = 1 not on the lower edge. |
| `DividerSearch.StandardClocks` | cfoInterfaceLib/CFO_Registers.cpp:850-866 | The best dividers of the three standard clocks. |
| `OscillatorProgram.UnpackPack` | cfoInterfaceLib/CFO_Registers.cpp:3255-3262 | Unpacking the 48-bit word gives HSDIV and N1 back and the multiplier as encoded. |
| `OscillatorProgram.DividerCodes` | cfoInterfaceLib/CFO_Registers.cpp:3146-3193 | The codes: HSDIV less 4 for 4, 5, 6, 7, 9 and 11, and none for anything else; N1 less 1. |
| `OscillatorProgram.WordLayout` | cfoInterfaceLib/CFO_Registers.cpp:3200-3202 | Which bits of the word are which field, and the unit of the multiplier. |
| `OscillatorProgram.RfreqRoundTrip` | cfoInterfaceLib/CFO_Registers.h:1434-1438 | The multiplier comes back from below within 2^-28 if and only if it is less than 1024. |
| `OscillatorProgram.CalculateFrequencyForProgramming` | cfoInterfaceLib/CFO_Registers.cpp:3186-3262 | The one outcome for every target and program: the best dividers and the multiplier they need; nothing without dividers, at target 0 or with an invalid code; a negative target and an invalid code cancel out. |
| `OscillatorProgram.ComputesOnce` | cfoInterfaceLib/CFO_Registers.cpp:3186-3262 | That outcome is unique. |
| `OscillatorProgram.NoProgramIff` | cfoInterfaceLib/CFO_Registers.cpp:3240-3254 | On a crystal from 5.54 MHz to 4.85 GHz there is no program if and only if the target is 0, the HSDIV code is invalid or no dividers exist. |
| `OscillatorProgram.FrequencyError` | cfoInterfaceLib/CFO_Registers.cpp:3186-3262 | The frequency achieved is at most the target and short of it by less than fXTAL * 2^-28 / (HSDIV * N1). |
| `OscillatorProgram.ProgrammedFrequency` | cfoInterfaceLib/CFO_Registers.cpp:3186-3262 | The same bound for the program actually computed, on any crystal of at least 5.54 MHz. |
| `OscillatorProgram.EstimateDrifts` | cfoInterfaceLib/CFO_Registers.cpp:3197-3198 | Estimating the crystal from the program just written never gives less, and more by less than fXTAL * 2^-28 over the multiplier. |
| `OscillatorProgram.CrystalSign` | cfoInterfaceLib/CFO_Registers.cpp:3194-3198 | The estimate is positive exactly when the HSDIV code is a valid one. |
| `SerdesOscillator.CfoRegisters.ReadSERDESOscillatorParameters` | cfoInterfaceLib/CFO_Registers.cpp:816-825 | Six byte reads give the stored program. |
| `SerdesOscillator.CfoRegisters.SetSERDESOscillatorParameters` | cfoInterfaceLib/CFO_Registers.cpp:826-839 | The writes in order: freeze, six bytes from the high one down, unfreeze, new frequency. Reading back gives the program written and no other register changes. |
| `SerdesOscillator.CfoRegisters.SetNewOscillatorFrequency` | cfoInterfaceLib/CFO_Registers.cpp:3037-3060 | The oscillator is reprogrammed if and only if the target is off by at least 30 ppm, up or down, and there is a program; then the registers hold that program and the target, otherwise nothing changes. |
| `SerdesOscillator.WordOfBytes` | cfoInterfaceLib/CFO_Registers.cpp:816-825 | Splitting a program into six bytes and joining them loses nothing. |
| `FileCompare.Compare` | dtcInterfaceLib/DTC_binary_file_compare.cc:122-250 | For every pair of files: under each key the first map ends with what the first file has more often, the second, under the key with its outer timestamp words exchanged, with what the second file has more often; no nested map or list is left empty; both are empty if and only if the second file has every block as often as the first has it with the outer words exchanged. |
| `FileCompare.KeysSeparate` | dtcInterfaceLib/DTC_binary_file_compare.cc:69-192 | Two blocks share a key if and only if their three timestamp words, subsystem, DTC and link agree, for both ways of making keys; a block is looked up where the one with the outer words exchanged is filed. |
| `FileCompare.CleanComparisonIff` | dtcInterfaceLib/DTC_binary_file_compare.cc:253 | Nothing is reported if and only if the blocks of the first file are, with multiplicity, those of the second with the outer timestamp words exchanged. |
| `FileCompare.RemaindersOfBlocks` | dtcInterfaceLib/DTC_binary_file_compare.cc:122-250 | How often each block is left over on either side. |
| `FileCompare.PayloadOf` | dtcInterfaceLib/DTC_binary_file_compare.cc:70-77 | The contents of a block are the bytes behind its 16-byte header. |
| `FileCompare.DifferencesOfAgreeingFiles` | dtcInterfaceLib/DTC_binary_file_compare.cc:64-80 | On files whose two timestamp formulas agree both remainders are the multiset differences under the key itself. |
| `FileCompare.RemaindersAreDisjoint` | dtcInterfaceLib/DTC_binary_file_compare.cc:192-246 | Contents looked up under a key are left over on one side at most: what remains of the first file under a key does not remain of the second under the swapped key. |
| `FileCompare.AgreeingRemaindersAreDisjoint` | dtcInterfaceLib/DTC_binary_file_compare.cc:192-246 | On files whose two timestamp formulas agree the two remainders share no block. |
| `FileCompare.ReportIsCleanIff` | dtcInterfaceLib/DTC_binary_file_compare.cc:253 | Nothing is reported if and only if what was filed of the first file is what was looked up of the second. |
| `FileCompare.SelfComparison` | dtcInterfaceLib/DTC_binary_file_compare.cc:69-189 | A file compared with itself is reported equal if and only if exchanging the outer timestamp words of all blocks leaves its contents as they are. |
| `FileCompare.DiffersFromItself` | dtcInterfaceLib/DTC_binary_file_compare.cc:69-189 | Counterexample: a file with one empty block of event 1 differs from itself. |
| `FileCompare.StampsAgreeIff` | dtcInterfaceLib/DTC_binary_file_compare.cc:189 | The two timestamp formulas agree on a block exactly when its outer timestamp words are equal. |
| `FileCompare.LookedUpIsSwapped` | dtcInterfaceLib/DTC_binary_file_compare.cc:184-192 | What is looked up under a key is what would be filed under the exchanged one. |
| `FileCompare.LoadFirstFile` | dtcInterfaceLib/DTC_binary_file_compare.cc:137-156 | After the first file every key holds the multiset of its blocks. |
| `FileCompare.MatchBlock` | dtcInterfaceLib/DTC_binary_file_compare.cc:184-249 | One block takes one equal block out of the first map, if there is one, and otherwise goes into the second. |
| `FileCompare.EventMapVariable.AddToMap` | dtcInterfaceLib/DTC_binary_file_compare.cc:64-80 | One block appended under its key; a block shorter than its header throws. |
| `FileCompare.EventMapVariable.FindAgreement` | dtcInterfaceLib/DTC_binary_file_compare.cc:194-214 | The first element with the block's size and bytes, or the end of the list exactly when there is none. |
| `FileCompare.EventMapVariable.EraseAgreement` | dtcInterfaceLib/DTC_binary_file_compare.cc:215-235 | One element erased, and exactly the levels this empties. |
| `EventMaps.ErasedAt` | dtcInterfaceLib/DTC_binary_file_compare.cc:217-234 | Erasing changes the list of one key only. |
| `EventMaps.ErasedKeepsClean` | dtcInterfaceLib/DTC_binary_file_compare.cc:217-234 | After erasing no level is empty. |
| `EventMaps.AddedAt` | dtcInterfaceLib/DTC_binary_file_compare.cc:73-77 | Adding changes the list of one key only, and no level is empty after it. |
| `EventMaps.CleanIsEmptyIff` | dtcInterfaceLib/DTC_binary_file_compare.cc:253 | In a map without empty levels the count of events is zero exactly when it holds no block. |
| `CfoRecords.ExtractRecords` | cfoInterfaceLib/CFO.cpp:232-288 | The loop succeeds if and only if the size less one is a multiple of record plus size word and no tag repeats the one before; it then returns the records at these offsets; a remainder below a record is reported, one of a record or more wraps the counter and runs out of the buffer or into a repeated tag. |
| `CfoRecords.LaidRecordsAreExtracted` | cfoInterfaceLib/CFO.cpp:232-288 | A buffer built from records behind size words is taken apart into just those records, without a fault if and only if no tag repeats the one before. |
| `CfoRecords.RemainsAfter` | cfoInterfaceLib/CFO.cpp:257-276 | One turn of the unsigned counter, wrap-around included. |
| `CfoRecords.RemainsAtEnd` | cfoInterfaceLib/CFO.cpp:283-288 | At the end of the loop exactly the whole strides have been taken. |
| `CfoRecords.CounterWraps` | cfoInterfaceLib/CFO.cpp:257-288 | Instance: with room for one record without its size word the counter ends at 2^64 - 8 and the loop never succeeds. |

## Left out

- File, terminal and ioctl calls, logging, JSON, register formatters, dumps and command lines: plumbing.
- The packet and event classes of artdaq-core-mu2e are not part of this model; blocks, sub-events and events are
  records of what the algorithms use of them.
- `GetData`, `ReadNextDAQDMA` beyond its shared continuation loop, and `ReadNextPacket`.
- The test of the stamp the library writes into a buffer (`bufferIndex` at byte 4): only the comparison of buffer
  addresses is modelled, and it alone already makes the error unreachable.
- DCS locking and DCS traffic, apart from the statements about the shared counter.
- The simulator's read side and its channel-1 ring: `read_data` moves the position of the file that writes use too,
  so the event file is modelled without reads in between.
- The mode bytes and MAC addresses of events and sub-events, and the words of tracker, CRV and performance blocks.
- The threaded start of the CFO emulator, which is compiled out, and cancellation from another thread.
- Warnings of the block verifier that do not change its verdict, and its position fields, which only go into messages.
- How an event's bytes divide into sub-events and blocks: the verifier of blocks starts from blocks, the file loop from
  the verdict on an event's bytes.
- The binary comparison takes a file as its blocks: the split of a file into DMA buffers, and the last turn of the read
  loop after the end of the file, which works on an uninitialised size, are not modelled.
- Timeouts, retries and sleeps: a read that finds nothing is a nondeterministic step.
- The jitter attenuator tables, single-bit register accessors and the DTC's copies of the oscillator functions, which
  would repeat the ones modelled.
- Conversions of doubles beyond 2^64 and of negative doubles to integers, which the original leaves undefined; the
  truncation of a multiplier is modelled on an unbounded integer.
- RunPlanCompiler.CfoCompiler.WaitParameter: does not model the conversion of s, ms and us, which goes through doubles;
  it is a parameter.
- FileVerifier.VerifyFile: what the stream reads as from inside a record, after a wrong size within an event, is a
  parameter, because records carry no mark of where they start; and a file that ends inside a record is not modelled,
  because the check then works on memory that was never set.
