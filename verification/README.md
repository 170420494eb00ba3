# Verified models of umbra and its externals

A Dafny model of algorithmic code in umbra and in the libraries that umbra carries under `externals/`, with proofs of what that code computes. Each part models code as it is written: same branches, same constants, same error conditions. Where a property that one would expect does not hold, the model keeps the code, gives an input that fails, and proves exactly when the property does hold.

`dafny verify dfyconfig.toml` checks the whole project.

## What is modelled

**Division by an invariant multiplier** (`Arithmetic`, `MagicNumbers`, `Quantize`; xbyak's `quantize.cpp`). The search for a magic multiplier, its fall-back, the stripping of zeros and the emission of `mov/mul/add/adc/shr`. The emitted instructions are executed on a small x86 state (shift counts taken modulo 32). For every divisor whose odd part is below 2^30, and every 32-bit numerator, eax ends up holding the quotient. The generated table code does to memory what the reference loop does, overlapping arrays included, and restores the registers it saves.

**The biscuit RISC-V assembler** (`Words`, `RiscV`, `LoadImmediate`, `Branches`, `Linking`, `Assembler`). Words are sequences of bits. Encoders follow biscuit, decoders and the step function follow sections 2.2, 2.3, 2.5, 5.2 and 16.4 of the RISC-V unprivileged specification. Proved: what `LI` emits loads any 64-bit constant; when `CALL` reaches its target; that any interleaving of plain emission, branches to labels, binding and buffer growth leaves the bytes that a two-pass assembler would, in which every branch decodes to its own operation and registers and to its label. Labels are heap objects patched in place, as in biscuit.

**The Catch2 section tracker** (`Tracking`, `SectionRuns`, `SectionOrder`, `SectionVisits`, `RunContexts`). The tracker tree, the section guard and the loop of `runTest`, driven by a static tree of sections and an oracle that says where each cycle's body throws. Proved: what every cycle keeps, that the loop ends, how many cycles there are, which section path each cycle enters, and that no section is passed over: one that completed successfully has complete subsections, and if only leaves throw every section has been entered.

**A Brainfuck compiler** (`Brainfuck`, `BrainfuckCompiler`; xbyak's `bf.cpp`). The one-pass compile loop with its run folding and two label stacks, a machine for the emitted instructions, and an interpreter for the source. The compiled code simulates the interpreter.

**A calculator's two evaluators** (`Calculator`, `CalculatorJit`; xbyak's `calc2.cpp`). The stack machine and the register-stack code generator, over an arbitrary value type and arbitrary arithmetic, so that nothing depends on rounding.

**docopt patterns** (`Alternatives`, `Docopt`, `DocoptMatch`, `DocoptLanguage`, `DocoptLoss`; fmt's `docopt.py`). `transform` against the product/union expansion of a pattern tree, the `match` methods, a declarative language of patterns that both are compared with, and what of that language `transform` loses.

**umbra's soft float** (`FloatGrid`, `FloatRounding`, `FloatPacking`, `FloatUnpacking`, `FloatConversion`; `src/umbra/common/fp`). Rounding an unpacked number to 16, 32 or 64 bits in five modes, with subnormal numbers, the carry into the exponent, overflow, the alternative half-precision format and the exception flags, against a definition of correct rounding among all representable magnitudes; unpacking; and the conversions between formats, which are correct rounding, exact to a wider format and undone by the conversion back.

**umbra's fused multiplication and addition** (`WideIntegers`, `FloatSticky`, `StickySums`, `FusedSums`, `FloatNaNs`, `FloatMulAdd`, `CancelledSums`). 128-bit integers from pairs of words, sums with a sticky bit, the choice among NaN operands, and the whole operation on bits. A number whose last bit is odd stands for any value strictly between its neighbours, and rounds like it; the operation returns such a number for the exact a*b + c, unless the sum cancels almost completely.

**umbra's optimisation passes** (`RegisterBlocks`, `GetSetElimination`, `ForwardedWidths`, `ConstantFolding`; `src/umbra/ir/opt`). The elimination of redundant A64 register accesses over blocks with an arbitrary meaning of the other instructions, and the folding of constants in additions and multiplications.

**Catch2's text code** (`TextFlow`, `TeamCity`, `TestSpec`, `TestSpecRoundTrip`, `TestSpecItems`, `TestSpecParsing`). Line breaking of a column, the six-pass TeamCity escape, and the test specification parser: its handling of escapes, and the round trip of whole specifications with tags, quoted and bare names, exclusions and commas.

`Wrappers` holds the option type that several parts share.

## Where an expected property fails

- `CALL` on RV64 misses for offsets in the last 2048 bytes below 2^31: `CallMisses`, exact condition in `CallReachesIff`.
- C.J and C.JAL place offset bits 3:1 where the instruction set has others. 8 and 64 encode alike (`CompressedJumpCollision`); a jump lands if and only if its displacement is a multiple of 16 (`DecodesCJIff`).
- The 64-bit calculator code keeps x in xmm7, where an eighth live constant also goes, and its guards compare with one register index only. `ClobberExample` is accepted by the generator and returns something else than the stack machine; `JitAgreesIff` gives the exact condition.
- The docstring calls the result of `transform` almost equivalent. What it describes is the pattern with its optional parts required and its repeated parts required twice (`TransformStrict`). Nothing is lost if and only if every way to leave out optional parts and to repeat repeated ones, up to one more leaf than the largest alternative has, is covered leaf by leaf by an alternative (`TransformLosesNothingIff`); for a pattern without choices, if and only if no leaf stands below an optional or repeated part (`SingleLosesNothingIff`). `OptionalIsLost` is an instance.
- A column exactly one character wider than its indent satisfies the iterator's assertions and can stall for ever. `StallExample` reaches such a place; `FlowsIff` says for which columns the text flows at all, `NarrowMovesIff` what that means for the narrowest, `AdvancesIff` when a single step moves on.
- `replaceInPlace` with an empty search string and a string that is not empty goes on for ever (`EmptySearchGoesOn`).
- A quoted test name does not always parse back to itself; `RoundTripIff` says exactly when. An argument can leave part of a pattern behind, and the escape positions of the next one are then misplaced: `NextParseAligned` says exactly when, by a scan of the argument. Any name that would round trip does not after such an argument (`LeftoverSpoils`); `BackslashSpoilsNext` is an instance.
- The residual of a right shift by more than 64 is taken for more than half if the highest bit of the mantissa is set, so that rounding to nearest gives the smallest number instead of zero: `MisjudgedExample`. `RoundedIff` with `MisjudgedIff` gives the exact condition; numbers in the normal form that the header describes are never affected (`NormalNotMisjudged`).
- `FusedMulAdd` returns a difference below 2^64 units of the 128-bit sum with the exponent of the sum, 2^62 times too large: `CancelledExample`. `FusedMulAdd` gives the exact condition for its own result, `MulAddRightIff` for bits and flags after rounding.
- The elimination of register accesses replaces a get by the operand of the last set, also where the set stores less than its operand: raw flags keep four bits, scalar sets 32 or 64 of 128. `FlagsExample` changes a value. `KeptIff` says of every block, by the widths of its values, whether all its runs are kept; `PreservesIff` says it of every single run. In a typed block only scalars and raw flags can go wrong (`WholeKinds`).
- `FoldAdd` drops the carry of an addition whose constants cancel out: `CarryExample`, exact condition in `FoldAddIff` for given surroundings and in `FoldAddAlwaysIff` for all.

## Model

| member | source | states |
|---|---|---|
| `Quantize.ILog2` | externals/xbyak/sample/quantize.cpp:54-59 | the loop returns the position of the highest bit, below 30 for every odd part in range |
| `Quantize.SplitOdd` | externals/xbyak/sample/quantize.cpp:70-74 | the divisor is its odd part times a power of two below 2^31 |
| `MagicNumbers.RoundUpExact` | externals/xbyak/sample/quantize.cpp:96-98 | a multiplier just above 2^(32+len)/d gives the exact quotient of every 32-bit numerator by truncating the product |
| `MagicNumbers.RoundDownExact` | externals/xbyak/sample/quantize.cpp:99-106 | a multiplier just below it does so for the incremented numerator |
| `MagicNumbers.SearchStarts` | externals/xbyak/sample/quantize.cpp:84-90 | the search starts with mLow the floor and mHigh within the error bound, and no 64-bit overflow |
| `MagicNumbers.SearchSteps` | externals/xbyak/sample/quantize.cpp:92-94 | every halving keeps the bracket, and after the first mHigh fits in 32 bits |
| `MagicNumbers.SearchEnds` | externals/xbyak/sample/quantize.cpp:92-106 | the loop ends with an exact upper multiplier if it took a step; otherwise the remainder is at most half the divisor, so mLow + 1 is never chosen |
| `MagicNumbers.HalveRoundUp` | externals/xbyak/sample/quantize.cpp:107-109 | dropping a trailing zero keeps an upper multiplier exact and never takes len below zero |
| `MagicNumbers.HalveRoundDown` | externals/xbyak/sample/quantize.cpp:107-109 | the same for a lower multiplier |
| `Quantize.SearchBounds` | externals/xbyak/sample/quantize.cpp:85-90 | the starting values are a bracket of 2^(32+len)/d from which the search can run |
| `Quantize.FallBack` | externals/xbyak/sample/quantize.cpp:100-104 | picks the multiple nearest to 2^(32+len), the lower one when the remainder is in the lower half |
| `Quantize.FindMultiplier` | externals/xbyak/sample/quantize.cpp:83-106 | always finds a 32-bit multiplier that is exact for its kind |
| `Quantize.StripZeros` | externals/xbyak/sample/quantize.cpp:107-109 | ends with an odd multiplier that is still exact, len not below zero |
| `Quantize.TrivialCode` | externals/xbyak/sample/quantize.cpp:76-81 | for a power of two, load and shift divide every numerator |
| `Quantize.MagicQuotient` | externals/xbyak/sample/quantize.cpp:110-121 | high word of the product, with or without the addition, shifted by len + exponent is the quotient |
| `Quantize.MultiplyDivides` | externals/xbyak/sample/quantize.cpp:112-121 | executing mov, mul, optional add and adc, shr, mov leaves the quotient in eax and touches only eax, edx and the carry |
| `Quantize.Generator.Udiv` | externals/xbyak/sample/quantize.cpp:66-122 | the appended code divides every 32-bit word at esi + offset exactly |
| `Quantize.Generator.Entry` | externals/xbyak/sample/quantize.cpp:133-136 | one more table entry makes the code do one more step of the reference loop |
| `Quantize.Generator.constructor` | externals/xbyak/sample/quantize.cpp:126-140 | called with two arrays, the whole code does to memory what the reference loop over the table does, returns, and restores esi and edi |
| `Quantize.RunPrologue` | externals/xbyak/sample/quantize.cpp:128-132 | esi and edi are saved below the stack pointer and take the two arguments |
| `Quantize.RunEpilogue` | externals/xbyak/sample/quantize.cpp:137-139 | they are restored and the function returns |
| `Quantize.FunctionReturns` | externals/xbyak/sample/quantize.cpp:126-140 | between prologue and epilogue, code that quantizes makes a function that does, the caller's registers and the rest of the stack kept |
| `Quantize.QuantizedPointwise` | externals/xbyak/sample/quantize.cpp:143-148 | on disjoint arrays every destination word is source over divisor and nothing else changes |
| `RiscV.DecodesI` | externals/biscuit/src/assembler_util.hpp:117-123 | an encoded I-type instruction decodes to its register numbers and sign-extended immediate |
| `RiscV.DecodesU` | externals/biscuit/src/assembler_util.hpp:182-184 | a U-type instruction decodes to the immediate wrapped to 20 bits |
| `RiscV.DecodesSlli` | externals/biscuit/src/assembler.cpp:435-443 | SLLI decodes to its shift amount |
| `LoadImmediate.LevelDrops` | externals/biscuit/src/assembler.cpp:355-364 | the recursion is on a value of smaller signed magnitude, and ctz is never taken of zero |
| `LoadImmediate.LiLength` | externals/biscuit/src/assembler.cpp:307-370 | one to eight instructions for any immediate, at most two on RV32 |
| `LoadImmediate.LiLoads` | externals/biscuit/src/assembler.cpp:307-370 | executing the words writes the immediate, at register width, to rd and falls through |
| `LoadImmediate.LiSetsOnlyRd` | externals/biscuit/src/assembler.cpp:307-370 | rd reads back as the immediate and every other register is unchanged |
| `LoadImmediate.CallParts` | externals/biscuit/src/assembler.cpp:202-215 | the two parts add up to the offset, except that an upper part reaching 2^19 wraps |
| `LoadImmediate.RunCall` | externals/biscuit/src/assembler.cpp:202-215 | where the pair lands, with pc + 8 in x1 |
| `LoadImmediate.CallReachesIff` | externals/biscuit/src/assembler.cpp:202-215 | pc + offset is reached if and only if the hart is RV32 or the offset is below 2^31 - 2048 |
| `LoadImmediate.CallMisses` | externals/biscuit/src/assembler.cpp:202-215 | the largest even offset on RV64 lands 2^32 too low |
| `Branches.SizeRecognised` | externals/biscuit/src/assembler.cpp:1340-1359 | the low halfword alone tells the size of every pending branch |
| `Branches.PatchIsEncode` | externals/biscuit/src/assembler.cpp:1368-1397 | ORing the offset into a pending branch equals emitting it with the label bound |
| `Branches.DecodesB` | externals/biscuit/src/assembler_util.hpp:61-68 | a conditional branch decodes to its displacement, rounded down to even |
| `Branches.DecodesJ` | externals/biscuit/src/assembler_util.hpp:71-78 | the same for JAL |
| `Branches.DecodesCB` | externals/biscuit/src/assembler_util.hpp:81-89 | the same for C.BEQZ and C.BNEZ |
| `Branches.DecodesCJIff` | externals/biscuit/src/assembler_util.hpp:92-103 | a compressed jump decodes to its displacement if and only if that is a multiple of 16 |
| `Branches.CompressedJumpCollision` | externals/biscuit/src/assembler_util.hpp:92-103 | displacements 8 and 64 give one word |
| `Branches.FamilyDecoded` | externals/biscuit/src/assembler_util.hpp:107-131 | the instruction set recognises the family of every encoded branch |
| `Branches.FieldsDecoded` | externals/biscuit/src/assembler_util.hpp:106-131 | whatever the displacement, every other field decodes to the branch's own: comparison and both registers, link register, tested register and sense, link or not |
| `Branches.Lands` | externals/biscuit/src/assembler_util.hpp:61-103 | each of the four families is decoded as the branch it is, and where it lands |
| `Linking.EmitConsistent` | externals/biscuit/include/biscuit/code_buffer.hpp:162-180 | appending an item keeps every earlier item as shown |
| `Linking.EmitSites` | externals/biscuit/src/assembler.cpp:1311-1328 | a branch adds exactly its own offset to its label's sites |
| `Linking.ConsistentIsAssembled` | externals/biscuit/src/assembler.cpp:1330-1399 | a consistent image is the two-pass reference byte for byte |
| `Linking.PatchingStarts` | externals/biscuit/src/assembler.cpp:1361-1363 | an unbound label's pending sites all hold a zero displacement |
| `Linking.PatchingStep` | externals/biscuit/src/assembler.cpp:1363-1398 | patching one site resolves it and touches no other item |
| `Linking.PatchingEnds` | externals/biscuit/src/assembler.cpp:1302-1309 | with no site left the image is consistent with the label bound |
| `Linking.LinkedImage` | externals/biscuit/src/assembler.cpp:1302-1399 | each branch is decoded as itself and lands on its label, every other byte is the one emitted |
| `Linking.LittleEndian` | externals/biscuit/include/biscuit/code_buffer.hpp:162-180 | a word is stored with its lower bytes first |
| `Assembler.CodeBuffer.Emit` | externals/biscuit/include/biscuit/code_buffer.hpp:162-170 | the contents grow by exactly the bytes |
| `Assembler.CodeBuffer.Grow` | externals/biscuit/src/code_buffer.cpp:67-89 | reallocation keeps contents and cursor |
| `Assembler.CodeBuffer.Overwrite` | externals/biscuit/src/assembler.cpp:1397 | bytes already emitted are replaced, no others |
| `Assembler.Assembler.Plain` | externals/biscuit/include/biscuit/code_buffer.hpp:162-180 | emission without a label keeps the invariant |
| `Assembler.Assembler.Grow` | externals/biscuit/src/code_buffer.cpp:67-89 | growth at any time keeps the invariant |
| `Assembler.CodeReadBack` | externals/biscuit/include/biscuit/code_buffer.hpp:162-180 | the words emitted are read back from the bytes, little end first |
| `Assembler.EmittedLoads` | externals/biscuit/src/assembler.cpp:307-370 | executing the words read back from what LI emits loads the immediate |
| `Assembler.EmittedCalls` | externals/biscuit/src/assembler.cpp:202-215 | executing those that CALL emits reaches the target under the condition of CallReachesIff |
| `Assembler.Assembler.LI` | externals/biscuit/src/assembler.cpp:307-370 | emits exactly the words that LiLoads is about |
| `Assembler.Assembler.CALL` | externals/biscuit/src/assembler.cpp:202-215 | emits exactly the words that CallReachesIff is about |
| `Assembler.Assembler.LinkAndGetOffset` | externals/biscuit/src/assembler.cpp:1311-1328 | the displacement to a bound label, or zero and one more pending offset |
| `Assembler.Assembler.BranchTo` | externals/biscuit/src/assembler.cpp:52-55 | a branch, bound or pending, is logged with its own operation and registers and the invariant kept; what is decoded from the buffer in the end is stated by Linked |
| `Assembler.Assembler.Bind` | externals/biscuit/src/assembler.cpp:1302-1309 | binding patches every pending use and keeps the invariant |
| `Assembler.Assembler.ResolveLabelOffsets` | externals/biscuit/src/assembler.cpp:1330-1399 | the loop leaves no pending site |
| `Assembler.Assembler.PatchOne` | externals/biscuit/src/assembler.cpp:1364-1397 | load, classify, OR and store resolve one site |
| `Assembler.Linked` | externals/biscuit/src/assembler.cpp:1302-1399 | in every reachable state with all labels bound the buffer is the two-pass image, and every branch in it is decoded as itself and lands |
| `RunContexts.RunContext.OpenChild` | externals/catch/extras/catch_amalgamated.cpp:6665-6672 | refines Tracking.OpenChild on the object's fields |
| `RunContexts.RunContext.Close` | externals/catch/extras/catch_amalgamated.cpp:6713-6741 | refines Tracking.Close, about which RepeatedThorough says that nothing is closed as successful before its subsections are complete |
| `RunContexts.RunContext.Fail` | externals/catch/extras/catch_amalgamated.cpp:6742-6749 | refines Tracking.Fail |
| `RunContexts.RunContext.Acquire` | externals/catch/extras/catch_amalgamated.cpp:6785-6814 | finds the child by name and location or creates it, and opens it unless the cycle is over or it is complete |
| `RunContexts.RunContext.SectionStarted` | externals/catch/extras/catch_amalgamated.cpp:5702-5720 | refines Tracking.SectionStarted |
| `RunContexts.RunContext.SectionEnded` | externals/catch/extras/catch_amalgamated.cpp:5768-5780 | closes the innermost active section, if any |
| `RunContexts.RunContext.SectionEndedEarly` | externals/catch/extras/catch_amalgamated.cpp:5782-5791 | fails the innermost section of an unwinding, closes the outer ones |
| `RunContexts.RunContext.RunSection` | externals/catch/src/catch2/internal/catch_section.cpp:26-57 | the section guard around a body |
| `RunContexts.RunContext.Cycle` | externals/catch/extras/catch_amalgamated.cpp:5885-5934 | one run of the test, its tracker always closed |
| `SectionRuns.RunSectionKeeps` | externals/catch/extras/catch_amalgamated.cpp:6665-6814 | one section of a body, whatever it throws: complete trackers are kept, only its subtree changes, one more tracker is completed unless it is skipped, nothing illogical |
| `SectionRuns.RunBodyKeeps` | externals/catch/extras/catch_amalgamated.cpp:6665-6814 | the same for the rest of a body |
| `SectionRuns.UnfinishedForgotten` | externals/catch/extras/catch_amalgamated.cpp:5949-5959 | after the unwinding nothing is closed twice |
| `SectionRuns.CycleKeeps` | externals/catch/extras/catch_amalgamated.cpp:5885-5934 | every cycle keeps all complete trackers, completes another one and reaches no illogical state |
| `SectionOrder.CycleInOrder` | externals/catch/extras/catch_amalgamated.cpp:5623-5640 | without exceptions a cycle enters exactly the path to the next leaf |
| `SectionOrder.RepeatedKeeps` | externals/catch/extras/catch_amalgamated.cpp:5623-5640 | after k cycles at least k trackers are complete or the test is |
| `SectionOrder.RepeatedEnds` | externals/catch/extras/catch_amalgamated.cpp:5623-5640 | the loop ends after at most one cycle per section plus one |
| `SectionOrder.RepeatedInOrder` | externals/catch/extras/catch_amalgamated.cpp:5623-5640 | without exceptions it ends after exactly one cycle per leaf, in document order |
| `SectionVisits.RunSectionThorough` | externals/catch/extras/catch_amalgamated.cpp:6713-6749 | one section of a body, whatever it throws: what is done successfully below it has complete subsections |
| `SectionVisits.RunBodyThorough` | externals/catch/extras/catch_amalgamated.cpp:6713-6749 | the same for the rest of a body |
| `SectionVisits.CycleThorough` | externals/catch/extras/catch_amalgamated.cpp:5885-5934 | the same for a cycle; for the test itself if its own body throws nothing |
| `SectionVisits.RepeatedThorough` | externals/catch/extras/catch_amalgamated.cpp:5623-5640 | after any number of cycles, whatever was thrown, a section that completed successfully has complete subsections; if only leaves throw, so has one that failed |
| `SectionVisits.RepeatedEnters` | externals/catch/extras/catch_amalgamated.cpp:5623-5640 | a section that is complete was entered in some cycle |
| `SectionVisits.EverySectionEntered` | externals/catch/extras/catch_amalgamated.cpp:5623-5640 | if only leaves throw, a complete test has entered every section |
| `SectionVisits.HistoryVisits` | externals/catch/extras/catch_amalgamated.cpp:5623-5640 | all of this for the history of a complete run |
| `RunContexts.RunContext.RunTest` | externals/catch/extras/catch_amalgamated.cpp:5623-5640 | all of these for the loop over the object: it ends, without exceptions in exactly one cycle per leaf and in order; whatever is thrown no successful section has an incomplete subsection, and if only leaves throw every section is entered |
| `Brainfuck.FoldedRun` | externals/xbyak/sample/bf.cpp:68-85 | one instruction for a run of + - > < equals the repeated steps |
| `Brainfuck.LoopHead` | externals/xbyak/sample/bf.cpp:111-121 | an opening bracket goes on or to just past its own closing one |
| `Brainfuck.LoopTail` | externals/xbyak/sample/bf.cpp:122-129 | a closing bracket returns to its own opening one |
| `Brainfuck.TokenSimulates` | externals/xbyak/sample/bf.cpp:66-133 | from matching states one token leads to matching states |
| `Brainfuck.SourceEndsMachineEnds` | externals/xbyak/sample/bf.cpp:66-133 | if the interpreter ends so does the code, in the same state |
| `Brainfuck.MachineEndsSourceEnds` | externals/xbyak/sample/bf.cpp:66-133 | and conversely |
| `Brainfuck.CompiledCorrect` | externals/xbyak/sample/bf.cpp:66-133 | for every tape, input and output: same termination, cells, pointer, remaining input and output |
| `Brainfuck.FollowsForever` | externals/xbyak/sample/bf.cpp:66-133 | a run without end is matched at every token boundary |
| `BrainfuckCompiler.GetContinuousChar` | externals/xbyak/sample/bf.cpp:14-24 | the length of a run, blanks skipped, and where it ends |
| `BrainfuckCompiler.OpenToken` | externals/xbyak/sample/bf.cpp:111-121 | an opening bracket keeps the compile loop's invariant |
| `BrainfuckCompiler.CloseToken` | externals/xbyak/sample/bf.cpp:122-129 | a closing bracket binds the innermost loop both ways and keeps it |
| `BrainfuckCompiler.Compile` | externals/xbyak/sample/bf.cpp:64-133 | gives code for every source in which each closing bracket has a partner: if all brackets are balanced it behaves like the source on every tape and input, otherwise a jump is left without a target |
| `BrainfuckCompiler.CompiledBehaves` | externals/xbyak/sample/bf.cpp:66-133 | code that corresponds to a source reaches exactly the end states that the source reaches |
| `Calculator.PostfixEvaluates` | externals/xbyak/sample/calc2.cpp:213-223 | the stack machine on an expression's postfix code pushes its value, whatever follows |
| `Calculator.Vm.Step` | externals/xbyak/sample/calc2.cpp:65-92 | one case of the switch, on the array |
| `Calculator.Vm.Call` | externals/xbyak/sample/calc2.cpp:57-96 | returns the top value; the assertion fails exactly when 16 values are alive at once |
| `CalculatorJit.Jit.GenPush` | externals/xbyak/sample/calc2.cpp:144-151 | emits the load, or gives up on a full table or the guarded register |
| `CalculatorJit.Jit.GenVarX` | externals/xbyak/sample/calc2.cpp:152-161 | the same for x, with the guard of each build |
| `CalculatorJit.Jit.GenBinary` | externals/xbyak/sample/calc2.cpp:162-177 | the four arithmetic generators |
| `CalculatorJit.Jit.GenNeg` | externals/xbyak/sample/calc2.cpp:178-181 | the sign flip |
| `CalculatorJit.Generate` | externals/xbyak/sample/calc2.cpp:241-251 | driven by postfix code, gives up exactly when a guard fires, and otherwise emits and tabulates as specified |
| `CalculatorJit.CodeAgrees` | externals/xbyak/sample/calc2.cpp:144-181 | the registers hold the machine's stack after every instruction, and xmm7 still holds x while at most seven values are alive |
| `CalculatorJit.JitAgrees` | externals/xbyak/sample/calc2.cpp:55-181 | safe code leaves in xmm0 what the stack machine returns, in any arithmetic |
| `CalculatorJit.JitDisagrees` | externals/xbyak/sample/calc2.cpp:144-161 | unsafe code that the generator accepts differs in a counting arithmetic |
| `CalculatorJit.JitAgreesIff` | externals/xbyak/sample/calc2.cpp:55-181 | agreement in every arithmetic and on every x if and only if x is never read after a constant went to xmm7 |
| `CalculatorJit.ClobberExample` | externals/xbyak/sample/calc2.cpp:144-161 | eight constants, two sums and then x: the generator accepts it, and the code returns another value than the stack machine |
| `CalculatorJit.ShallowAccepted` | externals/xbyak/sample/calc2.cpp:144-161 | seven live values and 32 constants are accepted and safe in both builds |
| `CalculatorJit.ExpressionCompiled` | externals/xbyak/sample/calc2.cpp:55-181 | every such expression is compiled, and both evaluators return its value |
| `Docopt.NextAlts` | externals/fmt/support/docopt.py:82-94 | replacing a group by its successors keeps its alternatives as a bag |
| `Docopt.NextSteps` | externals/fmt/support/docopt.py:81-94 | and leaves less work |
| `Docopt.Round` | externals/fmt/support/docopt.py:81-95 | one round of the worklist keeps the alternatives and shortens the work |
| `Docopt.AltsOfSingleEither` | externals/fmt/support/docopt.py:96 | each alternative of the result is the bag of leaves of one list |
| `Docopt.Transform` | externals/fmt/support/docopt.py:72-96 | ends on every tree, with a single choice among lists of leaves whose bag of leaf bags is the product/union expansion of the tree |
| `DocoptMatch.MatchLeaf` | externals/fmt/support/docopt.py:112-117 | the loop finds the argument that the leaf consumes |
| `DocoptMatch.MatchRequired` | externals/fmt/support/docopt.py:221-229 | all children in turn, or nothing taken |
| `DocoptMatch.MatchOptional` | externals/fmt/support/docopt.py:234-238 | each child in turn, failures ignored |
| `DocoptMatch.MatchOneOrMore` | externals/fmt/support/docopt.py:248-265 | the loop, which runs its child at most len(left) + 2 times |
| `DocoptMatch.MatchEither` | externals/fmt/support/docopt.py:270-279 | collects the outcomes that match and takes the least |
| `DocoptMatch.Min` | externals/fmt/support/docopt.py:277-278 | the earliest of the outcomes that leave fewest |
| `DocoptMatch.Match` | externals/fmt/support/docopt.py:112-279 | nothing is added, a failed match returns left unchanged |
| `DocoptMatch.MatchTakesAway` | externals/fmt/support/docopt.py:112-279 | what is left is a subsequence of the input |
| `DocoptMatch.LeafTakesFirst` | externals/fmt/support/docopt.py:152-208 | a leaf takes the first argument that fits; a command only looks at the first positional one |
| `DocoptMatch.OptionsFitIff` | externals/fmt/support/docopt.py:204-212 | options are told by their long names where they have them, whatever the short ones, and otherwise by the short ones |
| `DocoptMatch.RequiredInTurn` | externals/fmt/support/docopt.py:221-229 | required parts match in turn on what the earlier ones left, all or nothing |
| `DocoptMatch.OptionalInTurn` | externals/fmt/support/docopt.py:234-238 | optional parts are tried in turn whether or not the earlier ones matched |
| `DocoptMatch.OneOrMoreExhausts` | externals/fmt/support/docopt.py:248-265 | repetition matches if and only if its child does, and stops only when the child takes nothing |
| `DocoptMatch.EitherLeavesFewest` | externals/fmt/support/docopt.py:270-279 | a choice matches if and only if an alternative does, with the result of the earliest that leaves fewest |
| `DocoptLanguage.MatchSound` | externals/fmt/support/docopt.py:112-279 | what a successful match consumed is a bag of arguments that the pattern describes |
| `DocoptLanguage.ExpansionAccepted` | externals/fmt/support/docopt.py:72-96 | whatever the expansion describes the pattern describes |
| `DocoptLanguage.PlainExpanded` | externals/fmt/support/docopt.py:72-96 | the converse for patterns without optional or repeated parts |
| `DocoptLanguage.TransformMeaning` | externals/fmt/support/docopt.py:72-96 | the result of transform never describes more than the pattern, and exactly as much without optional or repeated parts |
| `DocoptLoss.StrictAlts` | externals/fmt/support/docopt.py:82-94 | requiring optional parts, and repeated parts twice, leaves the expansion as it is |
| `DocoptLoss.TransformStrict` | externals/fmt/support/docopt.py:72-96 | the result of transform describes exactly what the pattern so tightened describes, and exactly what its expansion lists |
| `DocoptLoss.LenientAccepted` | externals/fmt/support/docopt.py:234-265 | whatever is listed with optional parts left out and parts repeated a few times, the pattern describes |
| `DocoptLoss.LenientReached` | externals/fmt/support/docopt.py:234-265 | whatever the pattern describes is listed so, or a larger bag than any given number is |
| `DocoptLoss.TransformLosesNothingIff` | externals/fmt/support/docopt.py:72-96 | for every pattern: transform keeps the language if and only if a finite list of alternatives, with parts left out and repeated, is covered leaf by leaf |
| `DocoptLoss.SingleLosesNothingIff` | externals/fmt/support/docopt.py:72-96 | without choices: if and only if no leaf stands below an optional or repeated part |
| `DocoptLoss.OptionalIsLost` | externals/fmt/support/docopt.py:72-96 | no arguments at all suit an optional leaf, but not the result of transform |
| `TextFlow.ConstIterator.Break` | externals/catch/extras/catch_amalgamated.cpp:7220-7242 | a filled column is broken at its last boundary less whitespace, or hyphenated only when there is none; on the characters, at its last natural break |
| `TextFlow.ConstIterator.CalcLength` | externals/catch/extras/catch_amalgamated.cpp:7201-7244 | computes the line at the current place, as told by boundaries and by characters |
| `TextFlow.LineByCharacters` | externals/catch/extras/catch_amalgamated.cpp:7170-7244 | without reference to boundaries: a broken line stops after a character that is not whitespace, where the text ends, whitespace or one of the five opening marks follows or one of the fifteen closing and joining marks precedes, all spelled out, at the last such place; it is hyphenated exactly when there is none |
| `TextFlow.ConstIterator.constructor` | externals/catch/extras/catch_amalgamated.cpp:7267-7275 | starts at the first line, or at the end when that is empty |
| `TextFlow.ConstIterator.Line` | externals/catch/extras/catch_amalgamated.cpp:7252-7280 | indent, slice and hyphen, within the width |
| `TextFlow.ConstIterator.Advance` | externals/catch/extras/catch_amalgamated.cpp:7282-7298 | the next line starts past one newline or past all whitespace |
| `TextFlow.LineUnique` | externals/catch/extras/catch_amalgamated.cpp:7201-7244 | the description of a line determines it |
| `TextFlow.LineFits` | externals/catch/extras/catch_amalgamated.cpp:7201-7265 | a line with indent and hyphen keeps within the width |
| `TextFlow.AdvancesIff` | externals/catch/extras/catch_amalgamated.cpp:7282-7298 | when the iterator moves on |
| `TextFlow.StallExample` | externals/catch/extras/catch_amalgamated.cpp:7267-7298 | a column whose second line, which the iterator reaches, is empty and where it stays |
| `TextFlow.EmptyFirstIff` | externals/catch/extras/catch_amalgamated.cpp:7267-7275 | the first line is empty, and iteration over at once, exactly for room for one character and a text that starts with whitespace or cannot be broken after one |
| `TextFlow.GoesOn` | externals/catch/extras/catch_amalgamated.cpp:7282-7298 | where a column can move, every step moves and leads to a place of the same kind |
| `TextFlow.FlowsIff` | externals/catch/extras/catch_amalgamated.cpp:7267-7298 | a column has lines that carry its whole text if and only if it can move everywhere |
| `TextFlow.NarrowMovesIff` | externals/catch/extras/catch_amalgamated.cpp:7267-7298 | with room for one character, if and only if the text can be broken after each character but whitespace |
| `TextFlow.Write` | externals/catch/extras/catch_amalgamated.cpp:7306-7317 | for every column that can move: iteration ends, every line is the line at its place, told by its characters, and keeps within the width, and the slices with the whitespace skipped between them are the text; no lines when the first is empty |
| `TextFlow.LinesUnique` | externals/catch/extras/catch_amalgamated.cpp:7201-7298 | those conditions determine the lines |
| `TeamCity.Text.ReplaceInPlace` | externals/catch/extras/catch_amalgamated.cpp:6298-6310 | the loop replaces left to right without looking at what it put in, and says whether there was anything, for every search that ends |
| `TeamCity.EmptySearchGoesOn` | externals/catch/extras/catch_amalgamated.cpp:6298-6310 | searching for nothing in a string that is not empty: after any number of rounds the whole string is still ahead |
| `TeamCity.ReplacedIsPass` | externals/catch/extras/catch_amalgamated.cpp:6298-6310 | for one character that is a substitution character by character |
| `TeamCity.SixPassesAtOnce` | externals/catch/extras/catch_amalgamated.cpp:11023-11032 | the six passes equal one simultaneous substitution |
| `TeamCity.EscapedUndone` | externals/catch/extras/catch_amalgamated.cpp:11023-11032 | a left-to-right unescape gives the string back |
| `TeamCity.EscapedEnclosable` | externals/catch/extras/catch_amalgamated.cpp:11023-11032 | in the escaped text each bar has one of the six letters after it and no quote, bracket or line end stands elsewhere |
| `TeamCity.EnclosableMarks` | externals/catch/extras/catch_amalgamated.cpp:11023-11032 | so it has no line end, and its quotes and brackets come after a bar |
| `TeamCity.Escape` | externals/catch/extras/catch_amalgamated.cpp:11023-11032 | all of these, for the method: one substitution, undone by unescaping, no line end left, quotes and brackets only after a bar |
| `TestSpec.VisitChar` | externals/catch/extras/catch_amalgamated.cpp:6965-7000 | every step keeps the escape positions increasing and in range, and pointing at backslashes if they did |
| `TestSpec.VisitAll` | externals/catch/extras/catch_amalgamated.cpp:6952-6957 | so does every sequence of steps |
| `TestSpec.NextParseAligned` | externals/catch/extras/catch_amalgamated.cpp:6943-6960 | from any state and for any argument, the positions stay aligned for the next argument if and only if a scan of the text finds that no part of a pattern is left behind |
| `TestSpec.ScanAll` | externals/catch/extras/catch_amalgamated.cpp:6965-7059 | the scan decides what any sequence of steps leaves behind, and another whether it is rejected |
| `TestSpec.InvalidIff` | externals/catch/extras/catch_amalgamated.cpp:6952-6960 | an argument is reported as invalid, once, if and only if an unescaped comma stands inside a tag or quote |
| `TestSpecRoundTrip.RemoveAdded` | externals/catch/extras/catch_amalgamated.cpp:7107-7121 | removing the recorded positions gives the quoted name back |
| `TestSpecRoundTrip.ReadAll` | externals/catch/extras/catch_amalgamated.cpp:6965-7059 | the parser's state after any part of a quoted name, quoted name in quotes or tag |
| `TestSpecRoundTrip.VisitWeight` | externals/catch/extras/catch_amalgamated.cpp:6965-7059 | a character adds at most itself to the patterns, and one that directs the parser adds nothing |
| `TestSpecRoundTrip.RoundTripIff` | externals/catch/extras/catch_amalgamated.cpp:6943-7136 | a quoted name parses to exactly one filter requiring, or after a tilde forbidding, exactly that name if and only if its first character that needs no escape exists and is not a blank, tilde or quote, and it does not start with exclude: |
| `TestSpecRoundTrip.ExcludedName` | externals/catch/extras/catch_amalgamated.cpp:7107-7136 | after exclude: exactly the rest of the name is forbidden, unless there is none |
| `TestSpecRoundTrip.LeftoverToken` | externals/catch/extras/catch_amalgamated.cpp:6943-7121 | the token read for a quoted name after a leftover: escapes are removed where they would be without it |
| `TestSpecRoundTrip.LeftoverSpoils` | externals/catch/extras/catch_amalgamated.cpp:6943-7136 | after any leftover no name that would round trip does |
| `TestSpecRoundTrip.BackslashSpoilsNext` | externals/catch/extras/catch_amalgamated.cpp:6943-7121 | after a lone backslash the quoted name a,b is read as two backslashes, a comma and b |
| `TestSpecItems.ItemRead` | externals/catch/extras/catch_amalgamated.cpp:7003-7160 | a tag in brackets, a name in quotes or a bare name, each excluded or not and of any text, adds exactly its patterns to the filter |
| `TestSpecItems.FilterRead` | externals/catch/extras/catch_amalgamated.cpp:7003-7160 | items one after the other add up, a bare name ending at the bracket of a tag |
| `TestSpecItems.SpecRoundTrip` | externals/catch/extras/catch_amalgamated.cpp:6943-7160 | a whole specification written out parses to exactly its filters, one for each part between commas, patterns required and forbidden in their order |
| `TestSpecItems.TagIff` | externals/catch/extras/catch_amalgamated.cpp:7138-7160 | a tag in brackets is exactly required, or after a tilde forbidden, with a leading dot as two patterns, if and only if it is not empty and does not start with exclude: |
| `TestSpecItems.ExcludedTag` | externals/catch/extras/catch_amalgamated.cpp:7021-7029 | a tag after the word exclude: is exactly forbidden, unless it is empty |
| `TestSpecParsing.TestSpecParser.PreprocessPattern` | externals/catch/extras/catch_amalgamated.cpp:7107-7121 | the loop removes every escape, in range each time |
| `TestSpecParsing.TestSpecParser.VisitChar` | externals/catch/extras/catch_amalgamated.cpp:6965-7000 | refines TestSpec.VisitChar on the object's fields |
| `TestSpecParsing.TestSpecParser.Parse` | externals/catch/extras/catch_amalgamated.cpp:6943-6960 | refines TestSpec.Parsed, which SpecRoundTrip, RoundTripIff and TagIff are about, and reports the argument exactly when InvalidIff says so |
| `TestSpecParsing.TestSpecParser.TestSpec` | externals/catch/extras/catch_amalgamated.cpp:6961-6964 | the filters so far and the current one |
| `TestSpecParsing.ParseQuoted` | externals/catch/extras/catch_amalgamated.cpp:6943-7136 | the round trip of one name through the parser object, excluded or not |
| `TestSpecParsing.ParseWritten` | externals/catch/extras/catch_amalgamated.cpp:6943-7160 | the round trip of whole specifications |
| `FloatGrid.FloorOnGrid` | src/umbra/common/fp/unpacked.cpp:126-141 | the significand before the increment gives the largest representable magnitude not above |
| `FloatGrid.CeilOnGrid` | src/umbra/common/fp/unpacked.cpp:126-141 | the incremented one gives the smallest not below |
| `FloatRounding.ResidualClass` | src/umbra/common/fp/mantissa_util.h:18-42 | the residual of a shift compares what is shifted out with half a place, except beyond 64 bits with the highest bit set |
| `FloatRounding.MagnitudeOnGrid` | src/umbra/common/fp/unpacked.cpp:71-79 | the shifted mantissa and the residual split the number at its last place, subnormal or not |
| `FloatRounding.ChosenCorrect` | src/umbra/common/fp/unpacked.cpp:107-145 | the increment chosen is correct rounding in each of the five modes: nearest with ties to even, the two infinities, zero, odd |
| `FloatPacking.CarriedValue` | src/umbra/common/fp/unpacked.cpp:126-141 | the increment, with its carries from subnormal to normal and into the exponent, gives fields that stand for the incremented significand |
| `FloatPacking.PackedEncodes` | src/umbra/common/fp/unpacked.cpp:152-186 | the bits stand for that magnitude, or for infinity, the largest number or the alternative format's limit exactly when it is out of range |
| `FloatPacking.Increment` | src/umbra/common/fp/unpacked.cpp:126-141 | the three branches of the increment |
| `FloatPacking.Assemble` | src/umbra/common/fp/unpacked.cpp:147-187 | the bits and the flags after the increment |
| `FloatPacking.RoundedIff` | src/umbra/common/fp/unpacked.cpp:81-188 | bits and flags are those of the correctly rounded magnitude if and only if rounding is not to nearest or the residual is not misjudged |
| `FloatPacking.MisjudgedIff` | src/umbra/common/fp/mantissa_util.h:23-25 | it is misjudged exactly for mantissas of 64 bits and exponents far below the smallest number |
| `FloatPacking.MisjudgedBits` | src/umbra/common/fp/mantissa_util.h:23-25 | and the smallest number is returned then |
| `FloatPacking.MisjudgedExample` | src/umbra/common/fp/mantissa_util.h:23-25 | a quarter of the smallest single-precision number is an instance |
| `FloatPacking.Round` | src/umbra/common/fp/unpacked.cpp:81-188 | flushes subnormal numbers if told to, and otherwise meets RoundedIff in every unit of measurement |
| `FloatUnpacking.NormalizedValue` | src/umbra/common/fp/unpacked.h:39-50 | normalising keeps the value and puts the highest bit at position 62 |
| `FloatUnpacking.UnpackedValue` | src/umbra/common/fp/unpacked.cpp:19-65 | what is unpacked is in normal form and has the magnitude and sign of the bits |
| `FloatUnpacking.NormalNotMisjudged` | src/umbra/common/fp/unpacked.h:27-33 | numbers in normal form are never misjudged |
| `FloatUnpacking.UnpackedZero` | src/umbra/common/fp/unpacked.cpp:33-49 | the kind is zero exactly for zero and for what is flushed |
| `FloatUnpacking.UnpackedSpecial` | src/umbra/common/fp/unpacked.cpp:51-60 | infinities and NaNs are exactly the bits from infinity on, and not in the alternative format |
| `FloatUnpacking.DefaultNaNUnpacked` | src/umbra/common/fp/info.h:42-44 | in every format the default NaN fits and is unpacked as a quiet NaN, positive, its payload zero |
| `FloatUnpacking.InfinityUnpacked` | src/umbra/common/fp/info.h:34-36 | infinity of either sign is unpacked as that |
| `FloatUnpacking.ZeroUnpacked` | src/umbra/common/fp/info.h:30-32 | and zero as that |
| `FloatUnpacking.GreatestFinite` | src/umbra/common/fp/info.h:38-40 | the number returned in place of one beyond the finite ones is the greatest of them, in the alternative format too |
| `FloatUnpacking.OverflowDirected` | src/umbra/common/fp/unpacked.cpp:107-161 | rounding to nearest overflows to infinity; in a direction, to the greatest finite number exactly if that is on the right side of the exact value; otherwise to the greatest finite number |
| `FloatUnpacking.RoundTrip` | src/umbra/common/fp/unpacked.cpp:19-188 | in every mode, whatever rounds what was unpacked correctly gives the same bits and raises no flag |
| `FloatConversion.ConvertedNaN` | src/umbra/common/fp/op/FPConvert.cpp:17-41 | a converted NaN is quiet, fits, and keeps its sign and its payload, or as many of the leading bits as there is room for |
| `FloatConversion.Convert` | src/umbra/common/fp/op/FPConvert.cpp:44-81 | a nonzero number is correctly rounded, or flushed; zeros, infinities and NaNs become the other format's, of the same sign, the default NaN or one with the payload kept, and zero or the greatest number where the format has none, with their flags |
| `FloatConversion.Repack` | src/umbra/common/fp/unpacked.cpp:19-188 | unpacking and rounding gives the same bits and no flags |
| `FloatConversion.Widened` | src/umbra/common/fp/op/FPConvert.cpp:80 | to a wider format a number keeps its value, and no flag is raised |
| `FloatConversion.FormatsWider` | src/umbra/common/fp/info.h:13-113 | single is wider than half, and double than both |
| `FloatConversion.ThereAndBack` | src/umbra/common/fp/op/FPConvert.cpp:44-81 | to a wider format and back, in any two modes, is the identity without flags |
| `WideIntegers.AddValue` | src/umbra/common/u128.h:51-56 | the sum modulo 2^128, the carry between the words included |
| `WideIntegers.SubValue` | src/umbra/common/u128.h:58-63 | the difference modulo 2^128, the borrow included |
| `WideIntegers.GreaterValue` | src/umbra/common/u128.h:65-71 | comparison of the words is comparison of the values |
| `WideIntegers.MultiplyValue` | src/umbra/common/u128.cpp:9-38 | four partial products and two carries give the whole product |
| `WideIntegers.ShiftLeftValue` | src/umbra/common/u128.cpp:40-63 | the product with a power of two, modulo 2^128, for every amount |
| `WideIntegers.ShiftRightValue` | src/umbra/common/u128.cpp:65-88 | the quotient, and which bits make up the remainder |
| `WideIntegers.StickyValue` | src/umbra/common/u128.cpp:90-137 | the quotient, its lowest bit set if and only if something is shifted out |
| `FloatSticky.CorrectAlike` | src/umbra/common/fp/fused.cpp:16-17 | what is correct rounding of one magnitude is so of any other between the same neighbours and on the same side of the middle |
| `FloatSticky.StandsRounded` | src/umbra/common/fp/fused.cpp:16-17 | a number with an odd last bit rounds, bits and flags, to what the value it stands for rounds to |
| `StickySums.JamSum` | src/umbra/common/fp/fused.cpp:47 | a number plus another shifted by the sticky shift stands for the exact sum |
| `StickySums.JamDifference` | src/umbra/common/fp/fused.cpp:71-75 | and so for the difference |
| `StickySums.Reduced` | src/umbra/common/fp/fused.cpp:14-18 | cut down to 64 bits it still stands for it |
| `StickySums.Product` | src/umbra/common/fp/fused.cpp:22-30 | the exact product of the mantissas, between 2^124 and 2^125, and its exponent |
| `StickySums.SumSame` | src/umbra/common/fp/fused.cpp:42-54 | for equal signs, the result stands for the exact sum |
| `FusedSums.Difference` | src/umbra/common/fp/fused.cpp:56-76 | for opposite signs, sign, exponent and magnitude of the exact difference, exact if small |
| `FusedSums.Normalise` | src/umbra/common/fp/fused.cpp:78-85 | a small difference is returned as it is, any other normalised |
| `FusedSums.FusedMulAdd` | src/umbra/common/fp/fused.cpp:20-86 | the result is, or stands for, the exact sum if and only if it is not cancelled, and is 2^62 times too large if it is |
| `FloatMulAdd.UnpackedEven` | src/umbra/common/fp/unpacked.cpp:19-65 | unpacked operands have their last bit clear, and the exponent of some number of the format |
| `FloatMulAdd.RoundSum` | src/umbra/common/fp/op/FPMulAdd.cpp:67-71 | an exact zero is negative only when rounding down, anything else is correctly rounded or flushed |
| `FloatNaNs.ProcessNaN` | src/umbra/common/fp/process_nan.cpp:18-36 | a NaN operand is made quiet and keeps its sign and payload, or becomes the default NaN; a signalling one raises the flag |
| `FloatNaNs.ProcessNaNs3` | src/umbra/common/fp/process_nan.cpp:63-84 | of three operands the first signalling NaN is taken, otherwise the first quiet one, otherwise none |
| `FloatMulAdd.MulAdd` | src/umbra/common/fp/op/FPMulAdd.cpp:18-72 | for all operands: NaNs are chosen and made quiet, invalid operations give the default NaN, that is a quiet positive one without payload, infinities and zeros are as the source has them, and finite operands give the exact a*b + c rounded once, unless it is cancelled |
| `CancelledSums.MulAddRightIff` | src/umbra/common/fp/op/FPMulAdd.cpp:67-71 | bits and flags are those of the exact sum, rounded once, if and only if it is not cancelled or 2^62 times it is still negligible in the format |
| `CancelledSums.CancelledExample` | src/umbra/common/fp/fused.cpp:78-80 | three doubles whose sum is -2^-104 and comes out as -2^-42 |
| `RegisterBlocks.EraseSame` | src/umbra/ir/opt/a64_get_set_elimination_pass.cpp:39-43 | without a set that is overwritten before anything touches its location, every run gives the same values, registers and world |
| `RegisterBlocks.ForwardSame` | src/umbra/ir/opt/a64_get_set_elimination_pass.cpp:63-66 | so it does with a get replaced by what it loads |
| `GetSetElimination.TrackIsSummary` | src/umbra/ir/opt/a64_get_set_elimination_pass.cpp:71-155 | what the pass knows of a location is what the last instruction left that touches it tells |
| `GetSetElimination.SummaryHolds` | src/umbra/ir/opt/a64_get_set_elimination_pass.cpp:51-69 | and that is true of the location in every run |
| `GetSetElimination.AllNeeded` | src/umbra/ir/opt/a64_get_set_elimination_pass.cpp:15-156 | nothing redundant is left: no set overwritten untouched, no get of a known value |
| `GetSetElimination.NoneRedundant` | src/umbra/ir/opt/a64_get_set_elimination_pass.cpp:15-156 | of two accesses left with nothing between that touches the location, a set never follows a set nor a get an access of its own kind |
| `GetSetElimination.PreservesIff` | src/umbra/ir/opt/a64_get_set_elimination_pass.cpp:15-156 | in a given run, each instruction gives the same value and registers and world end the same if and only if no get was replaced by an operand wider than what was stored |
| `ForwardedWidths.KeptIff` | src/umbra/ir/opt/a64_get_set_elimination_pass.cpp:15-156 | a block is kept in every run, whatever the other instructions mean and the registers hold, if and only if each get replaced by the operand of a set takes it in whole, by the widths of the values in the block |
| `ForwardedWidths.WholeKinds` | src/umbra/ir/opt/a64_get_set_elimination_pass.cpp:73-134 | a typed block in which no get of scalars or raw flags is replaced by the operand of a set is kept in every run |
| `ForwardedWidths.TypedWhole` | src/umbra/ir/opt/verification_pass.cpp:17-27 | the types that are checked bound the widths |
| `GetSetElimination.FlagsExample` | src/umbra/ir/opt/a64_get_set_elimination_pass.cpp:102-105 | a register moved to the flags and back |
| `GetSetElimination.Pass.DoSet` | src/umbra/ir/opt/a64_get_set_elimination_pass.cpp:39-49 | erases the set still unread and remembers the new one |
| `GetSetElimination.Pass.DoGet` | src/umbra/ir/opt/a64_get_set_elimination_pass.cpp:51-69 | replaces the get if the kind is known, otherwise remembers it |
| `GetSetElimination.Pass.Eliminate` | src/umbra/ir/opt/a64_get_set_elimination_pass.cpp:71-155 | the loop gives the block that PreservesIff and AllNeeded are about |
| `ConstantFolding.FoldAddIff` | src/umbra/ir/opt/constant_propagation_pass.cpp:75-115 | the addition keeps its value if and only if its constants do not cancel out or its carry is clear |
| `ConstantFolding.FoldAddAlwaysIff` | src/umbra/ir/opt/constant_propagation_pass.cpp:75-115 | it does so in all surroundings if and only if its constants do not cancel out or its carry is the constant zero |
| `ConstantFolding.FoldAddReplacedIff` | src/umbra/ir/opt/constant_propagation_pass.cpp:75-115 | an addition goes away if and only if no flags are taken from it and it has three constants, which become their sum, or constants that cancel out, or adds nothing |
| `ConstantFolding.CarryExample` | src/umbra/ir/opt/constant_propagation_pass.cpp:95-99 | an addition that loses its carry |
| `ConstantFolding.FoldMultiplyKeeps` | src/umbra/ir/opt/constant_propagation_pass.cpp:260-269 | the multiplication always keeps its value, constants combined across two instructions included |
| `ConstantFolding.FoldMultiplyStaysIff` | src/umbra/ir/opt/constant_propagation_pass.cpp:37-73 | two constants become their product; otherwise a multiplication stays if and only if its constant factor, combined with that of the product it multiplies, is missing or beyond one |

## Left out

- The rest of umbra: the A32 and A64 decoders and translators, the other optimisation passes and folds, the register allocators and code emitters, the block cache and the other soft-float operations.
- The instruction tables of biscuit and xbyak beyond the instructions used here.
- `udiv` for divisor 0 and for odd parts of 2^30 and above, where `ilog2` and the conversion to int leave the signed range.
- xbyak's instruction encoder: generated code is a sequence of instructions, not of bytes. The Brainfuck and calculator models take the instructions of the 64-bit System V build, the calculator also those of the 32-bit build.
- Assembler.Assembler.BranchTo: one method stands for the B-type, JAL, C.BEQZ, C.BNEZ, C.J and C.JAL label overloads; the range assertions are preconditions.
- Assembler.Assembler.Bind: binding at an offset other than the cursor, rewinding the cursor and swapping buffers are not modelled.
- RV128, and the mmap variant of buffer growth.
- Generator trackers, section filters, aborting, and bodies that catch exceptions thrown through their sections; sections with equal names and locations among siblings are excluded.
- Reporters, assertion counting and timing in the Catch2 run loop.
- Brainfuck.CompiledCorrect: the tape has no bounds, as in the generated code, which does not check any.
- BrainfuckCompiler.Compile: a closing bracket without a partner, which is undefined in the source, gives no program; what a jump without a target does when reached is not modelled.
- Calculator.Vm.Call: code without enough operands, which the grammar cannot produce, is excluded.
- CalculatorJit.Generate: the bare throw of a guard, which ends the program, and xbyak's refusal of registers above xmm15 both make the generator give up; the calling sequence around the code is not modelled.
- The Boost.Spirit grammars of the calculator: the postfix code of an expression is taken as given by a function.
- DocoptMatch.Match: the collected values are not modelled, as they influence neither the verdict nor the arguments left; a repetition with other than one child, on which the source asserts, is excluded.
- docopt's parsing of usage texts and option descriptions, and the argument counts and values of options.
- TextFlow.Write: joining several columns side by side is not modelled; columns on which the iteration does not end are the ones that FlowsIff excludes.
- TeamCity.Text.ReplaceInPlace: the search that does not end is excluded, see EmptySearchGoesOn.
- TestSpecParsing.TestSpecParser.Parse: tag aliases are an arbitrary function; RoundTripIff and SpecRoundTrip are about the identity.
- TestSpecParsing.ParseWritten: a bare name has to be one that the parser takes for a name, and what follows it a tag or a comma; otherwise the same text means something else.
- Wildcards, case folding and matching of test names and tags.
- FloatPacking.Round: trapped exceptions, on which the source asserts, and exponents near the limits of int are not modelled; the flags are a value handed in and out.
- FloatUnpacking.UnpackedZero: the flag for flushed subnormal operands is not modelled.
- FusedSums.FusedMulAdd: operands are zero or in normal form with their last bit clear, as every caller passes them.
- CancelledSums.MulAddRightIff: rounding to odd, which the control register cannot select, is excluded, and the flags start out clear.
- GetSetElimination.Pass.Eliminate: an erased instruction stays as an empty place; other instructions touch exactly the registers that the source classes them as reading or writing, so callbacks that look at registers behind the block's back are not covered.
- ForwardedWidths.WholeKinds: results narrower than 32 bits count as 32-bit ones; no set takes them.
- ConstantFolding.FoldAddIff: instructions are values, not updated in place.
