# Veriforge: verified models of its streaming hardware and source analyses

Veriforge is a Python toolkit for Verilog: a hardware DSL with example designs, a preprocessor, constant and width
semantics, lint and clock analyses, and a language server. This project models the parts of it whose correctness is
an argument rather than a glance, and proves what each of them is for. `dafny verify dfyconfig.toml` checks everything.

| file | what it models |
|---|---|
| `RegisterSlice.dfy`, `StagePipeline.dfy` | the AXI4-Stream register slice and the enable-gated stage pipeline |
| `Streamify.dfy` | `axis_streamify`, which puts a pipeline between two slices |
| `AxiMemory.dfy` | the AXI-Lite register file and the AXI4 memory of the pause demo, as one clocked class |
| `VerilogExpr.dfy` | a bit-level evaluator of context-determined Verilog expressions |
| `DriverWidth.dfy` | the width given to a wire from its driver |
| `ConstOps.dfy`, `ConstEval.dfy` | constant folding on unbounded integers |
| `CycleGuard.dfy` | the guard against circular parameters |
| `Operators.dfy`, `Packing.dfy` | what the folded operators, concatenations, replications and selects compute |
| `FoldedOperators.dfy`, `Folding.dfy` | folded operations and expressions against exact ones |
| `RecordedWidths.dfy` | what widths recorded on expression nodes can change about a folded constant |
| `WidthInference.dfy` | width inference recorded on shared expression nodes, against the width function of the engines |
| `Conditionals.dfy`, `MacroArguments.dfy` | the conditional-compilation stack machine and the macro-argument parser |
| `TextEdits.dfy` | applying LSP text edits one by one |
| `BytecodeLoops.dfy`, `LatchLint.dfy`, `ClockReset.dfy` | worklist reachability, the latch lint, memoised clock promotion |
| `Firmware.dfy` | RV32I instruction encoders and the 32-bit constant load |
| `Numbers.dfy`, `Congruences.dfy`, `Options.dfy` | powers and bits of integers, arithmetic modulo a power of two, optional values |

Hardware is modelled one clock edge at a time. An object whose registers or fields the original updates is a class;
each method is proved against a specification function, and the theorems are about that function: over every run
(`EmittedIsMappedPrefix`, `RunsAreAtomic`), every tree (`MachineIsMeaning`), every graph (`GuardIsExact`) or every
text (`DistinctStartsAreExact`). A step that several registers take at one edge computes all new values before it
stores any.

## Where the code and its documentation part

The model follows the code. Each of these is proved, most with the condition under which the documented claim holds.

* `driver_width` is documented to give the same bits as any wider declaration. `~a >> 1` and a signed `a >> 1` lose a
  bit (`InvertedShiftLosesABit`, `SignedLogicalShiftLosesABit`); with harmless right shifts the low bits always agree
  (`DriverWidthKeepsBits`, `RightShiftExact`, `AllStableExactly`). The wire does not always read back as the wider
  one. Only a bare unsized integer directly inside a concatenation is refused, so `{a, b & 1}` is sized 2 where
  Verilog has 33 bits, and `a` is lost (`UnsizedIntegerInsideAPartLosesA`); an unsigned driver whose upper bits would
  all be one, such as `~a`, reads back as another number. Exactly: all bits from the driver's width on must be the one
  that reading back puts there (`ReadsBackExactly`), for a concatenation the bits without room must be zero
  (`ConcatReadsBackExactly`), as in `{b & 1, a}` (`FirstPartMisfit`). All parts of a concatenation are sized right if
  and only if the whole is and none is too wide (`PartsFitExactly`, `WiderPartHidesAMisfit`).
* Folding is documented as exact for any width up to 2^16 bits. A shift count or exponent that was itself reduced can
  break this: `1 << (1 << 65536)` folds to 1, `1 << (P - (1 << 65536))` with P = 2^65536 folds to 0 instead of 1,
  `1 << ((1 << 65536) - 1)` has no answer, and `2 ** (1 << 65536)` folds to 1 (`ReducedCountIsWrong`,
  `CancelledCountIsWrong`, `NegativeCountHasNoAnswer`, `EvenPowerIsWrong`). `ShiftFoldsExactly` and
  `PowerFoldsExactly` say exactly when it does; an odd base survives any reduced exponent that is not negative. Right
  shifts, selects, division, comparisons and logical operators see reduced operands even under literal counts:
  `(1 << 65536) >> 1` folds to 0 instead of 2^65535 (`ShiftedBackIsWrong`, `SelectedIsWrong`, `DividedIsWrong`,
  `ComparedIsWrong`, `ConjoinedIsWrong`). A right shift or select is right if and only if the folded and the exact
  operand agree on the bits it takes, up to 65536 of them (`RightShiftFoldsExactly`, `SelectFoldsExactly`).
  Concatenations of what folds right always fold right, and so do replications and width casts with counts that are
  not reduced (`ConcatFoldsRight`, `InnerDecides`).
* Width inference is documented to set a node's width. Counts and bounds are folded through widths recorded so far,
  and are not inferred first, so what is recorded depends on the order of visits and on repetition: for
  `{$bits(b){x}} + y` the sum gets the width of `y` if it is visited before `b` (`PassDependsOnOrder`,
  `PassDependsOnRepetition`). It does not for a node where no count or bound its width comes from fails, folded with
  nothing recorded, for want of a width (`FoldSettledExactly`, `FoldOverPassesExactly`, `PassIsOrderFree`).
* Text edits that start at one position are applied in the opposite of LSP's order, and a replacement that follows an
  insertion there removes inserted text (`DistinctStartsAreExact`, `ReplacementEatsInsertion`).
* The latch lint is documented to compare every branch. Branches of a case with a default are not compared
  (`DefaultHidesALatch`, `DefaultCaseExactly`), a loop that may turn zero times is not reported (`LoopExactly`), and a
  default value assigned up front is reported all the same (`CompleteBodyCanBeReported`), because a report is empty if
  and only if the paths of every statement in the body agree, not just those of the body (`CleanExactly`).
* `infer_expr_width` and `expr_width` differ on `**` with a wider exponent, unary `^~`, unsized decimals from 2^31 on,
  width casts, bounds that do not fold and calls of other widths (`SameBelowExactly`, `AllSameExactly`). The note at
  `src/veriforge/semantics.py:407-413` on the width of a product does not describe the code, which takes the maximum.

## Model

| member | source | states |
|---|---|---|
| `RegisterSlice.Slice.Initialized` | examples/axis/slice/axi_stream_slice.py:64-80 | with its declared initial values the slice starts as an empty queue |
| `RegisterSlice.Slice.Contents` | examples/axis/slice/axi_stream_slice_iface.py:70-78 | while a skidded beat implies a full output register, the slice holds at most two beats, is ready exactly when it holds fewer, and shows the oldest at m_axis |
| `RegisterSlice.Slice.Tick` | examples/axis/slice/axi_stream_slice_iface.py:80-121 | under any valid/ready pattern one edge is one cycle of a two-place queue: nothing lost, duplicated or reordered; reset empties it and clears both payload registers |
| `RegisterSlice.PresentedBeatIsStable` | examples/axis/slice/axi_stream_slice.py:97-121 | a presented beat stays, unchanged, until taken (AXI4-Stream, section 2.2.1) |
| `RegisterSlice.FullThroughput` | examples/axis/slice/axi_stream_slice.py:3-7 | from every content, k streaming cycles accept exactly k beats (k - 1 from full) and emit exactly k (k - 1 from empty) |
| `StagePipeline.Pipeline.Tick` | examples/composability/pipeline_generator.py:55-78 | under enable all stages advance at once from pre-edge values, without it all hold, reset fills the stages with bubbles |
| `StagePipeline.ShiftAt` | examples/composability/pipeline_generator.py:69-78 | stage i ends up with its own function of what stage i - 1 held before the edge |
| `StagePipeline.RegistersStep` | examples/composability/pipeline_generator.py:64-71 | separate data and valid registers updated stage by stage are one shift of the row of beats |
| `Streamify.Top.Tick` | examples/axis/slice/axis_streamify.py:142-189 | slice, pipeline and slice, with the output slice's registered ready as the one clock enable, take one step of the composed state; after a reset edge, whatever the registers held, m_axis offers nothing, s_axis is ready and no stage is valid |
| `Streamify.ResetEmpties` | examples/composability/pipeline_generator.py:64-67 | a reset cycle leaves both slices empty and a bubble in every stage, whatever was held |
| `Streamify.ShiftConserves` | examples/composability/pipeline_generator.py:55-78 | one shift puts out the last stage's beat and takes in one, losing and reordering none, each as it will leave the last stage |
| `Streamify.CycleMovesBeats` | examples/axis/slice/axis_streamify.py:142-189 | in every reachable state what leaves followed by what is then in flight is what was in flight followed by what came in |
| `Streamify.EmittedIsMappedPrefix` | examples/axis/slice/axis_streamify.py:142-189 | over every run from reset, for every stage list and stall pattern, the beats taken are a prefix, in order, of the composed stages mapped over the beats accepted; the rest is in flight, at most n + 4 |
| `Streamify.OutputIsStable` | examples/axis/slice/axis_streamify.py:174-189 | m_axis of the composition keeps a presented beat until taken |
| `Streamify.StreamsAtFullRate` | examples/axis/slice/axis_streamify.py:142-189 | streaming from reset, every cycle accepts its beat and every cycle after the first n + 2 emits the next one |
| `Streamify.IdleCycleDrains` | examples/axis/slice/axis_streamify.py:142-189 | while the output slice has room, an idle cycle with the consumer ready empties one part more, from the input on |
| `Streamify.DrainProgress` | examples/axis/slice/axis_streamify.py:142-189 | so after any run k + 1 such cycles leave room at the output and have emptied the parts k cycles reach |
| `Streamify.DrainsCompletely` | examples/axis/slice/axis_streamify.py:142-189 | no deadlock: after any run, n + 4 such cycles leave the composition empty with every accepted beat emitted |
| `AxiMemory.MemorySlave.Tick` | examples/pause_demo/pause_demo.py:144-192 | one activation of the AXI-Lite register file's block, by the clock or by the asynchronous fall of reset, takes one step of the atomic-memory state, whichever handshakes coincide |
| `AxiMemory.ResetClears` | examples/pause_demo/pause_demo.py:144-149 | after reset every byte of the register file is 0 and no channel holds anything; the other memory keeps its bytes |
| `AxiMemory.ChannelsTake` | examples/pause_demo/pause_demo.py:150-192 | which offered beats a channel takes, when a pair commits and frees both channels, and when responses go |
| `AxiMemory.PortsAreBeats` | examples/pause_demo/pause_demo.py:150-153 | each channel's ports are one beat, there when its valid is up, with its own identifier, address, data and strobe |
| `AxiMemory.AddressesWrap` | examples/pause_demo/pause_demo.py:154-154 | addresses past the end come round to the start |
| `AxiMemory.MemorySlave.TickReads` | examples/pause_demo/pause_demo.py:417-423 | a read is accepted only when none waits, samples the memory before the edge, and keeps data and identifier until taken |
| `AxiMemory.MemorySlave.TickWrites` | examples/pause_demo/pause_demo.py:391-416 | address and data are latched in either order, committed together to the strobed bytes of one word, and answered once with the address's identifier |
| `AxiMemory.StoreWritesBytes` | examples/pause_demo/pause_demo.py:409-415 | a committed write changes exactly the bytes of the addressed word whose strobe bit is set, to the bytes on their lanes |
| `AxiMemory.LoadReadsBytes` | examples/pause_demo/pause_demo.py:417-421 | a read returns the four bytes of the addressed word and the address's identifier |
| `AxiMemory.LastWriteCounts` | examples/pause_demo/pause_demo.py:153-181 | after any sequence of writes each byte holds what the last write that covers it put there, or its initial value |
| `AxiMemory.WritesStayAtomic` | examples/pause_demo/pause_demo.py:397-415 | every step keeps the memory equal to the first k address beats paired with the first k data beats, each applied once, in order |
| `AxiMemory.ResponsesStayMatched` | examples/pause_demo/pause_demo.py:409-416 | every step keeps the responses one per write, in write order, with the write's identifier |
| `AxiMemory.ReadsStayAnswered` | examples/pause_demo/pause_demo.py:417-423 | every step keeps each read's answer the memory at the edge that accepted it, held until taken |
| `AxiMemory.RunsAreAtomic` | examples/pause_demo/pause_demo.py:144-192 | all of this over every run and stall pattern; reads never go back in time and see every write whose response was taken before them |
| `AxiMemory.ResponsesAreStable` | examples/pause_demo/pause_demo.py:181-192 | a response or read beat once presented stays until taken (AMBA AXI, sections A3.2.1 and A3.3.1) |
| `AxiMemory.PairsComplete` | examples/pause_demo/pause_demo.py:153-182 | an address and a data beat that wait are committed and answered in two cycles, after which both channels are free |
| `VerilogExpr.Eval` | src/veriforge/dsl/_driver_type.py:3-12 | an expression evaluated in a context of width w has w bits (IEEE 1364-2005, sections 5.4.1 and 5.5.2, of which this is the evaluator) |
| `VerilogExpr.RangeCoversBothEnds` | src/veriforge/dsl/_driver_type.py:141-142 | a range select is as wide as the positions from its lower to its upper bound |
| `DriverWidth.DriverSignedExactly` | src/veriforge/dsl/_driver_type.py:52-94 | a driver is signed if and only if every operand its sign comes from (through ~, unary signs and width casts, both sides of bitwise and arithmetic operators, the left of shifts, both branches of a conditional) is a signed signal or literal, a word of a signed memory or a $signed |
| `DriverWidth.DriverAnsweredExactly` | src/veriforge/dsl/_driver_type.py:97-149 | any driver, sized or not, gets a width if and only if nothing its width comes from can grow, is unknown or consists of integers only |
| `DriverWidth.BareIntsExactly` | src/veriforge/dsl/_driver_type.py:152-163 | an expression counts as one of integers only if and only if all its operands through bitwise operators, muxes, ~ and + are unsized integers |
| `DriverWidth.BareIntegerWidthExactly` | src/veriforge/dsl/_driver_type.py:104-110 | a bare integer counts at the least positive number of bits that hold it, and a negative one in an unsigned expression is refused |
| `DriverWidth.BareIntegerWidthIsLeast` | src/veriforge/dsl/_driver_type.py:104-110 | the width a bare integer counts at is the narrowest that holds it in an expression of that signedness |
| `DriverWidth.AnsweredExactly` | src/veriforge/dsl/_driver_type.py:97-149 | a sized expression gets a width exactly when nothing its width comes from carries or grows and all widths are known |
| `DriverWidth.SizedWidthIsSelfWidth` | src/veriforge/dsl/_driver_type.py:97-149 | on sized expressions the width is the standard's self-determined width |
| `DriverWidth.Widens` | src/veriforge/dsl/_driver_type.py:3-6 | where right shifts are harmless and parts have the width Verilog gives them, in any context from the driver's width on, narrower than the expression itself included, the low bits are the same and every bit above is one fixed bit, the sign bit when signed |
| `DriverWidth.DriverWidthKeepsBits` | src/veriforge/dsl/_driver_type.py:57-59 | where right shifts are harmless a wire declared at the driver's width and one declared wider agree on the low bits, whatever the expression joins; where parts have the width Verilog gives them the extra bits are one fixed bit |
| `DriverWidth.AllStableExactly` | src/veriforge/dsl/_driver_type.py:57-59 | a whole expression, and every operand its width comes from, has the same low bits in all contexts a wire's declaration can give it if and only if its right shifts are harmless, where nothing of no bits is shifted |
| `DriverWidth.DriverWidthIsEnough` | src/veriforge/dsl/_driver_type.py:3-12 | where every right shift is arithmetic in a signed expression or moves in zeros over an operand without inversion the low bits agree for every value of every signal; with sized or fitting parts, and signed or without inversion, the wider wire is the extension of the narrow one |
| `DriverWidth.RightShiftExact` | src/veriforge/dsl/_driver_type.py:124-125 | over a fine operand a right shift keeps its low bits in every wider context if and only if it moves by zero, shifts in zeros over zeros, or is arithmetic in a signed expression |
| `DriverWidth.AllKeepLowExactly` | src/veriforge/dsl/_driver_type.py:57-59 | the same as `AllStableExactly` in all contexts from the driver's width on, where parts of what is shifted right fit |
| `DriverWidth.ReadsBackExactly` | src/veriforge/dsl/_driver_type.py:52-59 | where right shifts are harmless reading the narrow wire with `driver_signed` gives every wider declaration's value if and only if all bits from the driver's width on, those without room and the fixed bit above, are the one that reading back puts there |
| `DriverWidth.FittingReadsBackExactly` | src/veriforge/dsl/_driver_type.py:52-59 | with parts that fit that means the driver is signed or its upper bits are zero |
| `DriverWidth.UninvertedReadsBackExactly` | src/veriforge/dsl/_driver_type.py:52-59 | for an unsigned driver without inversion it means that the bits without room are zero |
| `DriverWidth.InvertedShiftLosesABit` | src/veriforge/dsl/_driver_type.py:124-125 | `~a >> 1` differs at its driver width |
| `DriverWidth.SignedLogicalShiftLosesABit` | src/veriforge/dsl/_driver_type.py:124-125 | signed `a >> 1` differs at its driver width |
| `DriverWidth.UnsizedIntegerInsideAPartLosesA` | src/veriforge/dsl/_driver_type.py:131-134 | `{a, b & 1}` is sized 2 and loses `a`, which Verilog puts at bit 32 |
| `DriverWidth.NowhereWiderExactly` | src/veriforge/dsl/_driver_type.py:97-149 | the driver counts no operand wider than Verilog makes it, all through an expression, if and only if no unsigned unsized integer from 2^31 on is counted as signed in it |
| `DriverWidth.PartsFitExactly` | src/veriforge/dsl/_driver_type.py:131-148 | all a concatenation joins is sized as Verilog sizes it if and only if the whole is and no part is wider; for a sign cast, or a replication that repeats at all, if and only if the whole is |
| `DriverWidth.WiderPartHidesAMisfit` | src/veriforge/dsl/_driver_type.py:131-148 | a part counted 31 bits too wide and one counted 31 bits too narrow add up to the right width |
| `DriverWidth.ConcatReadsBackExactly` | src/veriforge/dsl/_driver_type.py:131-134 | a concatenation declared at its driver width reads back as every wider declaration does if and only if the bits it has no room for are zero |
| `DriverWidth.ReplicateReadsBackExactly` | src/veriforge/dsl/_driver_type.py:135-136 | the same for the bits of all copies of a replication |
| `DriverWidth.FirstPartMisfit` | src/veriforge/dsl/_driver_type.py:131-134 | when only the first part is sized wrong nothing is lost if and only if it is not too narrow or its upper bits are zero |
| `DriverWidth.LaterMisfitCutsFirstPart` | src/veriforge/dsl/_driver_type.py:131-134 | when later parts are sized too narrow just the missing number of top bits is lost, the first part's before those of the later ones, and that shows if and only if one of them is set |
| `ConstEval.Evaluator.EvalConst` | src/veriforge/semantics.py:152-246 | evaluation with the module-level guard set computes the guarded value and restores the set on success and on failure, on every finite parameter graph |
| `ConstEval.Evaluator.EvalConstViaResolved` | src/veriforge/semantics.py:254-278 | following a parameter puts it in the guard set for just as long as its default value is evaluated |
| `ConstEval.Evaluator.EvalConcat` | src/veriforge/semantics.py:204-214 | the loop over the parts folds the concatenation, and stops at the first part without a value or width |
| `ConstEval.Evaluator.EvalReplicate` | src/veriforge/semantics.py:215-225 | a replication evaluates its count, then its value, then asks for the value's width, and fails at the first that has no answer |
| `ConstEval.Replicated` | src/veriforge/semantics.py:222-225 | the loop pushes the masked value count times, and gives 0 for a count that is not positive |
| `ConstEval.Evaluator.EvalSelect` | src/veriforge/semantics.py:226-243 | selects and width casts shift and mask the value of their target, and fail on negative shifts or widths |
| `ConstEval.ConstPartWidth` | src/veriforge/semantics.py:281-294 | the width found for a part is the recorded one, else a literal's own, else the sum over a nested concatenation if all of it is known |
| `ConstEval.Evaluator.EvalConstFunc` | src/veriforge/semantics.py:297-320 | sign casts, `$clog2`, `$pow` and `$bits`, whose answer is a recorded width and otherwise an environment entry |
| `ConstEval.Under` | src/veriforge/semantics.py:271-278 | following a parameter lowers the number of parameters not being resolved, which is why evaluation ends |
| `CycleGuard.Transfer` | src/veriforge/semantics.py:173-181 | expressions see the limit only through the parameters they follow |
| `CycleGuard.GuardCarries` | src/veriforge/semantics.py:271-278 | parameters being resolved cannot hide a result a finite evaluation finds, because the shortest one never returns to its own parameter |
| `CycleGuard.GuardIsExact` | src/veriforge/semantics.py:249-278 | the guarded result is the result of unguarded evaluation at some depth whenever there is one, and a cycle is reported if and only if no depth is enough |
| `FoldedOperators.ShiftFoldsExactly` | src/veriforge/semantics.py:114-120 | a shift whose count folds to r and is exactly c gives the exact result modulo 2^65536, or no answer with it, if and only if both counts are negative, or neither is and they are the same or the smaller leaves no bit below the bound |
| `FoldedOperators.PowerFoldsExactly` | src/veriforge/semantics.py:81-95 | the same for `**`: with exponents not negative if and only if they are the same, the base is odd, or the smaller one leaves no bit; with a negative one by the cases of the base |
| `Congruences.PowersAgreeExactly` | src/veriforge/semantics.py:93-95 | exponents that differ by a multiple of 2^n give the same power modulo 2^n if and only if the base is odd or the smaller power is 0 there |
| `FoldedOperators.RightShiftFoldsExactly` | src/veriforge/semantics.py:136-138 | a right shift folds right if and only if both counts are negative, or neither is and folded and exact operand agree on the 65536 bits from their counts on |
| `FoldedOperators.SelectFoldsExactly` | src/veriforge/semantics.py:226-239 | n bits selected from position r instead of c fold right if and only if neither select has an answer or folded and exact operand agree on these bits, up to 65536 of them |
| `FoldedOperators.SelectIsSameExactly` | src/veriforge/semantics.py:226-239 | and are the same number if and only if they agree on all n |
| `Folding.BinaryFoldsExactly` | src/veriforge/semantics.py:184-195 | over operands that fold right an operation of an evaluated expression folds right if and only if that condition holds for what its operands fold to and what they are |
| `Folding.ConcatFoldsRight` | src/veriforge/semantics.py:204-214 | a concatenation folds right whenever its parts do, whatever they were cut to |
| `Folding.InnerDecides` | src/veriforge/semantics.py:215-243 | so do sign operators, replications, width casts and `$pow` over an operand that folds right, with counts and sizes not reduced, and a select if and only if it takes the right bits |
| `Folding.AllRightExactly` | src/veriforge/semantics.py:75-120 | in an expression of + - * ~ << >> **, bitwise operators, conditionals, casts, concatenations, replications and selects over parts of any kind that are not reduced, all of it and of what it follows folds right if and only if no shift, power, select or choice of a branch is spoilt by what its operands were cut to |
| `Folding.FoldsModulo` | src/veriforge/semantics.py:75-120 | then the folded value is congruent modulo 2^65536 to the exact integer, and there is none where that has none |
| `Folding.FoldsExactly` | src/veriforge/semantics.py:152-246 | in every expression, whatever its kind, where nothing that is evaluated is reduced the folded value is the exact one, and there is none where that has none |
| `Folding.PlainCountsAreHarmless` | src/veriforge/semantics.py:75-120 | counts, exponents, conditions and what is shifted right or selected from spoil nothing where they are not reduced themselves |
| `Folding.ExactInEveryWidth` | src/veriforge/semantics.py:75-79 | cut to any width up to 65536 the folded and the exact value are the same |
| `Folding.ReducedCountIsWrong` | src/veriforge/semantics.py:114-120 | `1 << (1 << 65536)` folds to 1, which is not congruent to the exact value modulo 2^65536 |
| `Folding.CancelledCountIsWrong` | src/veriforge/semantics.py:114-120 | `1 << (P - (1 << 65536))` with P = 2^65536 folds to 0, and its exact value is 1 |
| `Folding.NegativeCountHasNoAnswer` | src/veriforge/semantics.py:114-120 | `1 << ((1 << 65536) - 1)` has no answer, and its exact value is 0 in every width up to the bound |
| `Folding.EvenPowerIsWrong` | src/veriforge/semantics.py:81-95 | `2 ** (1 << 65536)` folds to 1, which is not congruent to the exact value modulo 2^65536 |
| `Folding.ShiftedBackIsWrong` | src/veriforge/semantics.py:136-138 | `(1 << 65536) >> 1` folds to 0, and is exactly 2^65535, which has a bit below the bound |
| `Folding.DividedIsWrong` | src/veriforge/semantics.py:99-105 | so does `(1 << 65536) / 2` |
| `Folding.ComparedIsWrong` | src/veriforge/semantics.py:139-144 | `(1 << 65536) == 0` folds to 1 |
| `Folding.ConjoinedIsWrong` | src/veriforge/semantics.py:147-148 | `(1 << 65536) && 1` folds to 0 |
| `Folding.SelectedIsWrong` | src/veriforge/semantics.py:226-231 | bit 65536 of `1 << 65536` folds to 0, and is exactly 1 |
| `Operators.DivisionTruncates` | src/veriforge/semantics.py:99-111 | quotient times divisor plus remainder is the dividend, the remainder is smaller than the divisor and has the dividend's sign, and only zero has no answer |
| `Operators.ComparisonsDecide` | src/veriforge/semantics.py:139-142 | of <, == and > exactly one gives 1, by the sign of the operands' difference |
| `Operators.OppositeComparisons` | src/veriforge/semantics.py:140-144 | and >=, <= and != are their opposites |
| `Operators.LogicDecides` | src/veriforge/semantics.py:147-148 | `&&`, logical or, `!` and the or and nor reductions give 0 or 1 by whether operands are zero |
| `Operators.BitsOfBitwise` | src/veriforge/semantics.py:130-134 | bit i of a bitwise operation in an evaluated expression is the operation on the operands' bits i |
| `Operators.ReductionValues` | src/veriforge/semantics.py:56-71 | reduction xor is the parity of the set bits and has no answer for a negative number; and, nand and xnor never have one |
| `Operators.ArithmeticValues` | src/veriforge/semantics.py:124-127 | sums, differences, products and signs are those of the integers |
| `Operators.QuotientValues` | src/veriforge/semantics.py:99-111 | `/` and `%` in an evaluated expression truncate toward zero, and have no answer by zero |
| `Operators.LeftShiftValues` | src/veriforge/semantics.py:114-120 | a left shift by less than 65536 is exact, by a negative count it has no answer |
| `Operators.RightShiftValues` | src/veriforge/semantics.py:136-138 | a right shift rounds down, by a negative count it has no answer |
| `Operators.PowerValues` | src/veriforge/semantics.py:81-95 | a power that stays below 65536 bits is exact, and a negative exponent gives the inverse of a unit, no answer for 0 and 0 for the rest |
| `Operators.ChosenBranch` | src/veriforge/semantics.py:201-206 | a conditional is the branch its condition chooses; sign casts, typical values and concatenations of one part are what they hold |
| `Operators.NamesInOrder` | src/veriforge/semantics.py:173-181 | a name is looked up by its path, then by itself, and is unknown when neither is known and it is no parameter with a default |
| `Operators.Clog2IsLeast` | src/veriforge/semantics.py:299-301 | `$clog2` is the least exponent whose power of two is no smaller |
| `Operators.CastValue` | src/veriforge/semantics.py:242-243 | a width cast leaves the number in [0, 2^n) that differs by a multiple of 2^n |
| `Operators.BitwiseByBit` | src/veriforge/semantics.py:130-134 | the bitwise operators act bit by bit on two's complement integers of any size and sign |
| `Operators.SignedLiteralReads` | src/veriforge/semantics.py:168-172 | a sized signed literal's pattern is read as its two's complement value |
| `Packing.PartsInPlace` | src/veriforge/semantics.py:204-214 | each part of a folded concatenation lies at the total width of the parts after it, cut to its own width |
| `Packing.ConcatIsInRange` | src/veriforge/semantics.py:207-214 | two or more parts fold to a value in [0, 2^(sum of widths)) |
| `Packing.SelectsReturnParts` | src/veriforge/semantics.py:226-239 | [hi:lo] in either order, +: and -: at a part's position all return that part cut to its width |
| `Packing.ReplicationIsConcatenation` | src/veriforge/semantics.py:215-225 | {n{v}} for n of two or more folds to what the n-fold concatenation folds to, errors included |
| `Packing.FewCopies` | src/veriforge/semantics.py:222-225 | no copies are 0, one copy is the value cut to its width |
| `Packing.PartWidthKinds` | src/veriforge/semantics.py:281-294 | the width of a part: recorded, else a literal's own, else the sum over a concatenation all of whose parts have one, else none |
| `RecordedWidths.MoreKeeps` | src/veriforge/semantics.py:281-305 | recording widths changes no folded value and no failure but the one for want of a width, as long as they agree with what is known without them, `$bits:` entries of the environment included |
| `WidthInference.Annotator.InferExprWidth` | src/veriforge/analysis/width_inference.py:136-148 | a call returns a width and records widths as the state-passing definition says; a width found and positive is left on the node |
| `WidthInference.Annotator.InferImpl` | src/veriforge/analysis/width_inference.py:151-269 | the same for each kind of node, with counts and bounds folded through what is recorded at that moment |
| `WidthInference.Annotator.InferWidths` | src/veriforge/analysis/width_inference.py:272-307 | a pass over the nodes in any order records what the definition says |
| `WidthInference.OperatorWidths` | src/veriforge/analysis/width_inference.py:64-72 | comparisons, logical operators and reductions other than `^~` have one bit, shifts the left operand's width, all others the larger known one |
| `WidthInference.NodeWidths` | src/veriforge/analysis/width_inference.py:151-269 | the width of every other kind of node, from what counts and bounds fold to |
| `WidthInference.FoldSettledExactly` | src/veriforge/semantics.py:281-305 | a count or bound folds the same whatever widths are recorded, as long as they agree with those known without, if and only if folded with nothing recorded it does not fail for want of a width |
| `WidthInference.FoldOverPassesExactly` | src/veriforge/analysis/width_inference.py:272-307 | a count or bound that reads only widths which do not depend on records folds the same after every pass if and only if it folds the same with all of those recorded |
| `WidthInference.InferIsWidth` | src/veriforge/analysis/width_inference.py:136-148 | where the counts and bounds that a node's width comes from are so, a call returns the width inferred without recording, whatever calls on any nodes of the program recorded before |
| `WidthInference.FirstVisitDecides` | src/veriforge/analysis/width_inference.py:142-147 | in any program the first call that finds a positive width of a node settles it for all later calls and passes |
| `WidthInference.PassIsOrderFree` | src/veriforge/analysis/width_inference.py:272-307 | every pass that visits such a node leaves its inferred width on it, if positive: in any order, over any nodes, however often repeated, whatever else is in the program |
| `WidthInference.FullPassIsPositive` | src/veriforge/analysis/width_inference.py:272-307 | where all nodes are such, a full pass leaves exactly the positive inferred widths |
| `WidthInference.PassDependsOnOrder` | src/veriforge/analysis/width_inference.py:221-227 | for `{$bits(b){x}} + y` visiting the sum before b records the width of y for good, and visiting b first the larger width |
| `WidthInference.PassDependsOnRepetition` | src/veriforge/analysis/width_inference.py:221-227 | one pass over `{$bits(b){x}}`, each node before its parts, leaves it without a width, and a second one records it |
| `WidthInference.SameExactlyWhenAgreeing` | src/veriforge/semantics.py:400-476 | over operands on which inference and the engines' width agree they agree on a node if and only if it meets a condition on that node alone |
| `WidthInference.EnginesWidths` | src/veriforge/semantics.py:394-476 | the engines' width by operator and kind of node |
| `WidthInference.SameBelowExactly` | src/veriforge/semantics.py:400-476 | the two widths agree on an expression and all its width comes from if and only if each node of those meets its condition |
| `WidthInference.AllSameExactly` | src/veriforge/semantics.py:400-476 | the two widths agree on all nodes of a program if and only if every node meets its condition |
| `WidthInference.RecordedIsEnginesWidth` | src/veriforge/analysis/width_inference.py:272-307 | and then any pass that visits the expression leaves the engines' width on it, if positive, in any order and whatever else is in the program |
| `Conditionals.PreprocessContext.ProcessSource` | src/veriforge/preprocessor.py:235-404 | the loop computes the line-by-line run, with the macros it leaves defined on every way out |
| `Conditionals.PreprocessContext.ProcessLine` | src/veriforge/preprocessor.py:262-394 | one line moves the condition stack and the macros, and puts out a line or raises an error, as the line-by-line run says |
| `Conditionals.ActiveLines` | src/veriforge/preprocessor.py:318-336 | over every run of plain lines in an active place a name is a macro with a body if and only if the last line that defines or undefines it says so, or none does and it was one before; a text line puts out its expansion under exactly the macros in force there, every other line a blank |
| `Conditionals.UnsoundLineFails` | src/veriforge/preprocessor.py:330-334 | the first malformed define or nameless undef among them is the error, at its line, with the macros in force there |
| `Conditionals.InactiveLines` | src/veriforge/preprocessor.py:318-321 | in an inactive place plain lines are blank and change no macro |
| `Conditionals.ConditionalRefusedExactly` | src/veriforge/preprocessor.py:262-315 | which conditional lines are refused where, and with which error |
| `Conditionals.StepKeepsConsistent` | src/veriforge/preprocessor.py:240-315 | every line keeps: active at a level means a branch taken there and every outer level active |
| `Conditionals.AllActiveIsTopActive` | src/veriforge/preprocessor.py:424-431 | so all levels are active exactly when the top one is |
| `Conditionals.RunBlock` | src/veriforge/preprocessor.py:247-396 | on a flattened block followed by any lines, on any stack, the machine does what the block means and goes on with the stack unchanged |
| `Conditionals.MachineIsMeaning` | src/veriforge/preprocessor.py:235-404 | on a flattened if/elsif/else tree output, final macros, error and error line are the tree's recursive meaning (IEEE 1364-2005, section 19.4) |
| `Conditionals.ReadBlock` | src/veriforge/preprocessor.py:262-315 | an accepted run can be read back as a tree whose flattening is the source |
| `Conditionals.AcceptedExactly` | src/veriforge/preprocessor.py:235-404 | a source is accepted if and only if it is the flattening of a tree whose meaning has no error |
| `Conditionals.OneLineOutPerLineIn` | src/veriforge/preprocessor.py:265-268 | an accepted source gives one output line per input line |
| `MacroArguments.ParseMacroArgs` | src/veriforge/preprocessor.py:658-710 | the scanning loop computes the parse, and refuses a text without an opening parenthesis |
| `MacroArguments.StripExactly` | src/veriforge/preprocessor.py:688-704 | stripping an argument removes its surrounding space, all of it, and nothing else |
| `MacroArguments.SpaceCharacters` | src/veriforge/preprocessor.py:688-704 | space is the blank and the characters from tab to carriage return |
| `MacroArguments.SelfContainedExactly` | src/veriforge/preprocessor.py:674-707 | what the scan leaves whole is what stands alone: quotes that no backslash precedes pair up, no bracket outside strings stays open (more opened than closed from some place on), and commas and closing parentheses stand only where one is open |
| `MacroArguments.PrintParses` | src/veriforge/preprocessor.py:658-710 | parsing the printed form of arguments that stand alone, whatever follows, returns them and the index past the closing parenthesis |
| `MacroArguments.ClosedTextGivesWholeArguments` | src/veriforge/preprocessor.py:674-707 | whatever a closed text parses to stands alone |
| `MacroArguments.ClosesExactly` | src/veriforge/preprocessor.py:674-707 | the scan ends right past the first closing parenthesis outside strings where no bracket is open, and takes in the whole text if there is none |
| `MacroArguments.UnclosedParses` | src/veriforge/preprocessor.py:708-710 | an unclosed text gives its arguments, the last one up to its end |
| `MacroArguments.ParsingUndoesPrinting` | src/veriforge/preprocessor.py:658-710 | parsing undoes printing if and only if there is an argument and each stands alone |
| `TextEdits.LineOffsets` | veriforge_lsp/handlers/refactor.py:782-787 | the loop computes the line starts |
| `TextEdits.StartsExactly` | veriforge_lsp/handlers/refactor.py:782-787 | line starts are zero and the offsets just past each newline, in increasing order |
| `TextEdits.OffsetOfPosition` | veriforge_lsp/handlers/refactor.py:790-799 | an offset's own position leads back to it |
| `TextEdits.PositionOfOffset` | veriforge_lsp/handlers/refactor.py:790-799 | an in-range position is the position of its offset |
| `TextEdits.OutsideIsNearest` | veriforge_lsp/handlers/refactor.py:793-799 | any other position means the nearest line and on it the nearest character |
| `TextEdits.OffsetIsLocal` | veriforge_lsp/handlers/refactor.py:757-778 | a position at or before which the text did not change keeps its offset, though offsets are recomputed |
| `TextEdits.ApplyTextEdits` | veriforge_lsp/handlers/refactor.py:745-779 | the loop applies the edits in stable descending order, and on legal edits with distinct starts returns the simultaneous splice |
| `TextEdits.BackwardsIsSplice` | veriforge_lsp/handlers/refactor.py:757-778 | working through consecutive ranges from the last one is one splice of the original text |
| `TextEdits.LoopIsSplice` | veriforge_lsp/handlers/refactor.py:757-779 | when only insertions start together the result is one splice with those insertions in reverse list order |
| `TextEdits.DistinctStartsSuffice` | veriforge_lsp/handlers/refactor.py:745-779 | for every text and all legal edits with distinct starts the result is the one LSP asks for ("TextEdit[]", LSP 3.17) |
| `TextEdits.DistinctStartsAreExact` | veriforge_lsp/handlers/refactor.py:757-779 | for every set of ranges LSP allows, the result is right for all replacement texts if and only if no two ranges start together |
| `TextEdits.ReplacementEatsInsertion` | veriforge_lsp/handlers/refactor.py:757-777 | inserting a character and replacing the next one from the same position replaces the inserted character instead |
| `BytecodeLoops.PositionsExactly` | src/veriforge/dsl/_varname.py:92-92 | an offset leads to the last instruction that has it, and to none if there is none |
| `BytecodeLoops.EdgeExactly` | src/veriforge/dsl/_varname.py:97-104 | control goes to the next instruction unless straight-line flow ends, and from a jump that sets up no handler to the last instruction at the offset it names |
| `BytecodeLoops.Visit` | src/veriforge/dsl/_varname.py:97-104 | visiting an instruction keeps every edge out of the reached ones pointing to something reached, waiting or current |
| `BytecodeLoops.CoveredIsReachableSet` | src/veriforge/dsl/_varname.py:93-104 | with nothing left to do the reached set is exactly what some walk from the entry reaches |
| `BytecodeLoops.Reach` | src/veriforge/dsl/_varname.py:93-104 | the worklist ends on every instruction list, with exactly the instructions reachable from the entry |
| `BytecodeLoops.Loops` | src/veriforge/dsl/_varname.py:82-114 | returns the loops among the instructions reachable by normal flow, in order |
| `BytecodeLoops.LoopsAreExact` | src/veriforge/dsl/_varname.py:105-114 | a pair is returned if and only if it is a reachable backward jump that is neither a handler setup nor a resend loop |
| `LatchLint.Visitor.CollectTargets` | src/veriforge/analysis/lint.py:148-159 | the visitor adds exactly the names assigned anywhere under a statement |
| `LatchLint.Visitor.CheckLatchInferred` | src/veriforge/analysis/lint.py:162-217 | the walk adds exactly the warnings of all statements under the body |
| `LatchLint.OwnWarningsExactly` | src/veriforge/analysis/lint.py:171-214 | one statement's warnings by kind: all an if without else assigns, what just one branch of an if with else assigns, all a case without default assigns |
| `LatchLint.ReportedExactly` | src/veriforge/analysis/lint.py:171-214 | over clean parts a statement is reported for a signal if and only if some path through it assigns the signal and some path does not |
| `LatchLint.CleanExactly` | src/veriforge/analysis/lint.py:162-217 | the report on a body is empty if and only if the paths of every statement in it assign the same names, where branches of cases with a default do and each loop turns at least once or assigns nothing |
| `LatchLint.CleanMeansEveryPathAssignsAll` | src/veriforge/analysis/lint.py:162-217 | an empty report on such a body, however nested, means every path assigns exactly the collected targets |
| `LatchLint.CleanHasAPath` | src/veriforge/analysis/lint.py:162-217 | and there is such a path |
| `LatchLint.DefaultCaseExactly` | src/veriforge/analysis/lint.py:200-214 | a case with a default over clean branches is never reported, and its paths agree if and only if all branches assign the same names |
| `LatchLint.LoopExactly` | src/veriforge/analysis/lint.py:171-214 | a loop over a clean body is never reported, and its paths agree if and only if it turns at least once or assigns nothing |
| `LatchLint.CompleteBodyCanBeReported` | src/veriforge/analysis/lint.py:172-184 | assigning a default value first makes every path assign, and is still reported |
| `LatchLint.DefaultHidesALatch` | src/veriforge/analysis/lint.py:200-214 | a case whose default branch assigns nothing is clean though paths differ |
| `ClockReset.Extractor.Extract` | src/veriforge/analysis/clock_reset.py:412-481 | ends on every finite instance graph, cyclic or not, and reports only signals that a finite chain of plain connections leads down to a block that shows them; without cycles and with unique names the memoised result is the plain recursive definition |
| `ClockReset.FewerUnseen` | src/veriforge/analysis/clock_reset.py:418-425 | the sentinel makes the number of uncached names smaller before any instance is followed, which is why extraction ends on cycles |
| `ClockReset.Extractor.PromoteThrough` | src/veriforge/analysis/clock_reset.py:435-474 | promotion through one instance does not depend on the order in which clock ports are taken |
| `ClockReset.PortMapConnects` | src/veriforge/analysis/clock_reset.py:442-455 | a port leads to the signal of its last connection by plain identifier |
| `ClockReset.PromotedResetsExactly` | src/veriforge/analysis/clock_reset.py:462-474 | a promoted reset comes from the first reset port that leads to its signal, with that reset's style, polarity and edge; resets already found stay |
| `ClockReset.PromotedClocksExactly` | src/veriforge/analysis/clock_reset.py:457-460 | a promoted clock is a rising edge, a clock found before keeps its edge |
| `ClockReset.PromotesSignals` | src/veriforge/analysis/clock_reset.py:457-474 | promotion adds exactly the signals connected to a clock (reset) port of the instantiated module |
| `ClockReset.PlainFindsSignals` | src/veriforge/analysis/clock_reset.py:385-398 | a clock (reset) is reported if and only if the module's own blocks show it or, when they show no clock, a chain of plain connections leads to one |
| `ClockReset.PromotedIsTraced` | src/veriforge/analysis/clock_reset.py:457-474 | promotion through an instance adds only signals that have such a chain |
| `ClockReset.SignalsAreTraced` | src/veriforge/analysis/clock_reset.py:385-398 | without cycles and with unique names every signal that has such a chain is reported, so there the report is exact |
| `Firmware.FieldsReadBack` | examples/ibex/gen_firmware.py:70-103 | or-ing shifted fields of any contiguous layout loses none: every field reads back from the word |
| `Firmware.STypeRoundTrip` | examples/ibex/gen_firmware.py:74-75 | decoding an S-type word gives every register field back, and the immediate if and only if it has 12 bits |
| `Firmware.BTypeRoundTrip` | examples/ibex/gen_firmware.py:78-88 | the same for a branch, whose offset must have 13 bits and be even |
| `Firmware.UTypeRoundTrip` | examples/ibex/gen_firmware.py:91-92 | the same for a U-type word, which keeps the low 20 bits of any immediate |
| `Firmware.JTypeRoundTrip` | examples/ibex/gen_firmware.py:95-103 | the same for a jump, whose offset must have 21 bits and be even |
| `Firmware.ITypeRoundTrip` | examples/ibex/gen_firmware.py:70-71 | the same for an I-type word, which reads back the low 12 bits sign-extended |
| `Firmware.UpperAndLower` | examples/ibex/gen_firmware.py:291-295 | rounding the upper part makes good what sign extension of the lower part takes away, for every 32-bit value |
| `Firmware.FirmwareBuilder.Emit` | examples/ibex/gen_firmware.py:284-287 | appends the words in order, each cut to 32 bits |
| `Firmware.FirmwareBuilder.EmitLi32` | examples/ibex/gen_firmware.py:289-297 | executing the appended pair leaves the value modulo 2^32 in the register, for every integer, and no other register changed |

## Left out

- DriverWidth.DriverWidthIsEnough: its conditions are sufficient, not necessary, for one expression: a bit that a right shift loses can be masked away further up. `AllStableExactly` is exact for an expression together with its operands, `ReadsBackExactly` for reading back.
- Folding.FoldsModulo: an expression can come out right though a part of it was folded wrong, multiplied by zero say; `AllRightExactly` is about all parts together. Division, comparisons and `&&` over reduced operands have witnesses and no condition; the remaining logical and reduction operators and `$clog2` have neither, nor have reduced counts and positions of replications, casts and selects in `AllRightExactly`.
- WidthInference.FoldSettledExactly: exact over all recorded widths that agree with the known ones; over those that passes leave `FoldOverPassesExactly` is, for counts and bounds that read only widths which do not depend on records.
- WidthInference.PassIsOrderFree: of a node with a count or bound that does depend on records, only `FirstVisitDecides` is stated.
- AxiMemory.MemorySlave.Tick: the constant response codes, `rlast` and the protection, length, size and burst inputs, which it ignores, are not modelled.
- StagePipeline.Pipeline.Tick: `pipeline` with an empty stage list leaves `dout` undriven; here an empty row passes its input on, as the body of the composition may.
- RegisterSlice.Slice.Tick: payload registers that hold no beat are not specified, except after reset.
- Streamify.Top.Tick: pipeline bodies are rows of stages that each apply a function; bodies with other state under `ce`, and the `sof` input derived from tuser, are not modelled. Sideband fields are part of the payload type.
- LatchLint.CleanExactly: loops that assign something and may turn zero times, and cases with a default whose branches differ, are excluded; `LoopExactly` and `DefaultCaseExactly` say what happens there.
- ClockReset.Extractor.Extract: on cyclic instance graphs and with repeated module names nothing says which of the traceable signals are reported, since what the sentinel gives depends on the order of visits. What a module's own always blocks show is a parameter, and the call without a design is not modelled.
- WidthInference.SameExactlyWhenAgreeing: the condition is per node, over operands that agree; a disagreement below a node can cancel out above it.
- Conditionals.PreprocessContext.ProcessSource: lines come classified; the directive patterns, continuations, includes, comments and multi-line macro calls are not modelled, and macro expansion is a parameter.
- LatchLint.Visitor.CheckLatchInferred: warnings are a set of kinds and signals; their order and wording are not modelled.
- x and z values, real and string literals and user functions in the expression models; `/`, `%` and `**` in the bit-level evaluator; selects outside their target read 0 there, and every vector is declared [w-1:0].
- The internal calls `$__2state` and `$__vf_real` in the engines' width function, whose constants are taken as folded with nothing recorded; operators outside the tables, and constant functions called with another number of arguments.
- Python's recursion limit; identity of expression nodes other than as positions in a list.
- CRLF normalisation, UTF-16 columns and malformed edit objects in text edits; Unicode space in `strip`.
- `_calls_in_loops`, the bytecode decoder, and naming of hardware objects.
- R-type words and the remaining instruction helpers of the firmware generator.
- Simulation engines, parser, emitter, elaboration, command line and language-server wiring: I/O or outside these arguments.
