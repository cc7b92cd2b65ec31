# Jadren core: a Dafny model

Jadren is a programming language with its own compiler, C binding generator and desktop runtime.
This project models the parts of it whose correctness is hardest to see by reading, and proves what
they promise for every input, every run or every reachable state:

- **Reference executor** (`Jir`, `IntegerSemantics`, `Execution`, `ReferenceExecutor`, `Executor*`):
  the step-limited interpreter of the SSA intermediate representation that native code is compared
  with. Integers of 1 to 128 bits live in a masked 128-bit word. `Dominators` and `JirVerifier` model
  the verifier that guards it, including the iterative dominator computation, and `ExecutorSafety`
  proves that a verified module never meets a typing error.
- **C ABI boundary** (`BindgenTypes`, `CScalarSpec`, `CScalarCorrect`, `CLayoutSpec`, `CLayout`, `CLayoutCorrect`,
  `CLayoutGraph`, `Float8Boundary`): C struct layout (section 6.7.2.1 of ISO C11) over a possibly cyclic graph of
  records in checked 64-bit arithmetic, and the by-value `Float8` check.
- **PE subsystem selection** (`GuiReachability`): cross-module worklist reachability.
- **Retained UI state** (`EventQueue`, `RetainedRows`, `Utf8`, `InputText`, `GuardedRefresh`,
  `ScrollLayout`, `ScrollPlacement`, `ScrollRuns`, `LayoutBuilder`, `ScopeStack`): the state machines of the X11 and Win32
  runtimes. `ScopeStack` drives the tree of `LayoutBuilder`, and its `AppRun` hands that tree to the
  window of `ScrollLayout`, so the layout theorems hold of every tree the portable calls can build.
- **Determinism** (`PathNormalization`, `StableHasher`): lexical path normalization and FNV-1a over
  length-delimited fields.

Code that updates state in place is a class or a loop, proved equal to a specification function on
values; the theorems are about that function, so they hold of the code. Foreign state is a parameter:
the clock-like `app_data_revision` counter, the `app_state_*` store (`Model`), the client area of a
window, the key bytes delivered by the input method, and whether a control could be built.

Where the code and its documentation differ, the model follows the code:

- Executor memory belongs to one activation, so a pointer passed to a callee indexes the wrong memory.
  `ExecutorPointerCalls.PointerArgumentsConfuseMemory` gives a verified module that fails this way;
  type safety is proved for the modules in which no call reachable from the entry exchanges a pointer
  with a function of the module. Imports may have any signature, since calling one ends the run.
- The verifier's dominator rows are not always the textbook ones: a dead block that jumps into a join
  hides the entry block from the join's row, so a legal use behind it is rejected
  (`Dominators.DeadBlockHidesEntry`). `ComputeDominators` is exact for paths that start at the entry or
  at a block without predecessors, and `RowIsTextbookExactly` says when the two agree.
- `normalize_path` moves drive-relative paths (`c:x` becomes `c:/x`) and relative paths whose first
  surviving component looks like a drive. `NormalizationKeepsLocation` and
  `NormalizationIsIdempotent` are therefore equivalences, with `DriveRelativeMoves` and
  `DriveRelativeClimbs` as concrete failures; `PlainPathsAreKept` gives the families on which both hold
  in terms of the path as written.
- A verified entry block may declare parameters that nothing supplies; the executor then reports an
  incoming-value mismatch at its first step. `MismatchExactly` is the exact condition and
  `ExecutorEntryBlocks.EntryBlockParametersNeverStart` a verified module that can never start.
- A window with several root columns may need two layouts to settle, because a later root can lower the
  scroll offset after an earlier one has been placed (`ScrollRuns.TwoRootsNeedTwoLayouts`);
  `ControlsRepeatExactly` says when one is enough, `ControlsSettle` that two always are.
- Signed 128-bit minimum divided by -1 aborts the executor; it is the outcome `ArithmeticPanic`.

`dafny verify dfyconfig.toml` checks the whole project.

## Model

| member | source | states |
|---|---|---|
| `ExecutorSafety.EntrySafe` | crates/jadren-codegen-llvm/src/differential.rs:44-65 | For every verified module in which no call reachable from the entry exchanges a pointer with a function of the module, and every step budget, the entry ends in a value in the Int32 range, in an error a verified module may meet (step limit, import, unreachable, uninitialized load, unsupported operation, division by zero, arithmetic panic, a reachable entry block with parameters) or in one of the three entry errors (absent, parameters, not Int32); never in a missing value, a wrong shape, a bad target, or a failed Int32 conversion. |
| `ExecutorSafety.FunctionSafe` | crates/jadren-codegen-llvm/src/differential.rs:67-187 | A call with arguments of the declared types returns nothing exactly for a unit result and otherwise a value of the result type, with every integer below 2^bits at any depth, or a tolerated error. |
| `ExecutorSafety.BlocksSafe` | crates/jadren-codegen-llvm/src/differential.rs:97-186 | From every reachable state at a block boundary, whatever path led there, the rest of the run is safe. |
| `ExecutorSafety.BlockSafe` | crates/jadren-codegen-llvm/src/differential.rs:97-186 | From a reachable state at the head of a block, body and terminator run safely. |
| `ExecutorSafety.BodySafe` | crates/jadren-codegen-llvm/src/differential.rs:114-126 | Running any suffix of a block's instructions keeps the reachable-state invariant: values, recorded types, memory cells and the definitions that dominate the point. |
| `ExecutorSafety.TerminatorSafe` | crates/jadren-codegen-llvm/src/differential.rs:129-185 | A terminator reached with the invariant returns a typed result, fails tolerably, or continues safely. |
| `ExecutorSafety.TransferSafe` | crates/jadren-codegen-llvm/src/differential.rs:129-185 | Each edge taken leads to an existing block with values of exactly that block's parameter types, and every dominator of the target other than itself has finished. |
| `ExecutorSafety.InstructionSafe` | crates/jadren-codegen-llvm/src/differential.rs:189-287 | Every verified instruction, calls included, yields a value of its result type and leaves memory typed. |
| `ExecutorSafety.EvaluationSafe` | crates/jadren-codegen-llvm/src/differential.rs:189-275 | The same for each non-call instruction, including range preservation of arithmetic and typed allocation. |
| `ExecutorSafety.RecordReaches` | crates/jadren-codegen-llvm/src/differential.rs:114-126 | Recording a typed result under single assignment reaches the state just after the instruction. |
| `ExecutorSafety.EntryParametersMismatch` | crates/jadren-codegen-llvm/src/differential.rs:97-108 | A function whose entry block declares parameters reports a mismatch at its first step, with exactly one step spent. |
| `ExecutorSafety.MismatchExactly` | crates/jadren-codegen-llvm/src/differential.rs:97-108 | When none of the other functions in reach declares entry-block parameters, a verified function reports a mismatch if and only if its own entry block does and a step is left: no jump, branch or switch ever causes one. |
| `ExecutorEntryBlocks.EntryBlockParametersNeverStart` | crates/jadren-jir/src/verifier.rs:170-311 | A verified module whose every run ends in a mismatch after one step. |
| `ExecutorReturns.EntryAnswersWord` | crates/jadren-codegen-llvm/src/differential.rs:56-65 | When the entry's signature passes and it returns the word w below 2^32, the executor answers the one integer of the Int32 range congruent to w modulo 2^32, with the steps the entry left. |
| `ExecutorReturns.AnswersAreInt32` | crates/jadren-codegen-llvm/src/differential.rs:62-65 | Whatever the module, verified or not, an answer lies in the Int32 range. |
| `ExecutorReturns.EntryReportsError` | crates/jadren-codegen-llvm/src/differential.rs:56-58 | An error inside the entry is the executor's answer, with the same steps left. |
| `ExecutorReturns.EntryReportsShape` | crates/jadren-codegen-llvm/src/differential.rs:56-62 | An entry that returns nothing and one that returns no integer are told apart, each exactly. |
| `ExecutorReturns.CallBindsArguments` | crates/jadren-codegen-llvm/src/differential.rs:85-96 | A called function starts its first block with parameter i holding argument i and with empty memory. |
| `ExecutorReturns.ReturnHandsBack` | crates/jadren-codegen-llvm/src/differential.rs:129-137 | A block ending in a return hands back exactly the value its instructions gave that id. |
| `ExecutorReturns.CallReceivesReturn` | crates/jadren-codegen-llvm/src/differential.rs:276-287 | The call that entered a one-block function binds its result to exactly the value returned, keeps its own memory, and pays the callee's steps and two more. |
| `ExecutorReturns.EntryAnswersConstant` | crates/jadren-codegen-llvm/src/differential.rs:44-65 | A program whose entry returns one constant answers that constant, wrapped to 32 bits, two steps later, for every integer. |
| `ExecutorTyping.UseIsTyped` | crates/jadren-jir/src/verifier.rs:3024-3093 | A use the verifier accepts finds its value bound, with the recorded type and a value of that type. |
| `ExecutorTyping.UsesAreTyped` | crates/jadren-jir/src/verifier.rs:2986-3021 | The same for lists of uses: collecting them cannot fail and gives values of the listed types. |
| `ExecutorTyping.EnterBlock` | crates/jadren-codegen-llvm/src/differential.rs:97-112 | Binding incoming values of the parameter types gives the reachable state at the head of the block. |
| `ExecutorTyping.FinishBlock` | crates/jadren-codegen-llvm/src/differential.rs:129-185 | After the last instruction every definition of the block is bound. |
| `ExecutorTyping.BindAllTyped` | crates/jadren-codegen-llvm/src/differential.rs:97-112 | Binding typed values to definitions keeps the frame typed and binds each of them. |
| `ExecutorTyping.TypeSurvivesAllocation` | crates/jadren-codegen-llvm/src/differential.rs:236-240 | A value keeps its type when memory grows. |
| `ExecutorTyping.TypeIgnoresStore` | crates/jadren-codegen-llvm/src/differential.rs:90-95 | A value of a pointer-free type has that type whatever the memory, hence in another activation. |
| `ExecutorPointerCalls.PointerArgumentsConfuseMemory` | crates/jadren-codegen-llvm/src/differential.rs:90-95 | A verified two-function module that passes a pointer fails with an outside-memory error at every sufficient budget, an error safety excludes. |
| `ExecutorFuel.EntryFuel` | crates/jadren-codegen-llvm/src/differential.rs:44-65 | A run that ends in anything but the step limit ends the same way with any larger budget, leaving exactly the difference more. |
| `ExecutorFuel.FunctionFuel` | crates/jadren-codegen-llvm/src/differential.rs:67-187 | The same for every function and arguments. |
| `ExecutorFuel.BlocksFuel` | crates/jadren-codegen-llvm/src/differential.rs:97-186 | The same from every block boundary. |
| `ExecutorFuel.InstructionFuel` | crates/jadren-codegen-llvm/src/differential.rs:189-287 | The same for one instruction, whose call may recurse. |
| `ExecutorFuel.InstructionsFuel` | crates/jadren-codegen-llvm/src/differential.rs:114-126 | The same for a block body. |
| `ExecutorFuel.LimitLeavesNothing` | crates/jadren-codegen-llvm/src/differential.rs:416-423 | The step-limit error is reported only when the whole budget is spent. |
| `ReferenceExecutor.Executor.constructor` | crates/jadren-codegen-llvm/src/differential.rs:31-42 | A new executor holds the module and a budget of 10000 steps. |
| `ReferenceExecutor.Executor.ExecuteEntry` | crates/jadren-codegen-llvm/src/differential.rs:44-65 | The imperative entry point equals the specification run: outcome and remaining steps. |
| `ReferenceExecutor.Executor.ExecuteFunction` | crates/jadren-codegen-llvm/src/differential.rs:67-187 | The block loop, mutating frame, memory, current block and budget, equals the recursive specification. |
| `ReferenceExecutor.Executor.ExecuteBody` | crates/jadren-codegen-llvm/src/differential.rs:114-126 | The instruction loop equals the recursive specification. |
| `ReferenceExecutor.Executor.ExecuteInstruction` | crates/jadren-codegen-llvm/src/differential.rs:189-287 | One instruction, recursive calls included, equals the specification. |
| `ExecutorLaws.LoadAfterStore` | crates/jadren-codegen-llvm/src/differential.rs:241-261 | A load through the pointer just stored through gives the stored value; every other cell is unchanged. |
| `ExecutorLaws.AllocationIsFresh` | crates/jadren-codegen-llvm/src/differential.rs:236-240 | An allocation points past the old memory, keeps it, and cannot be loaded before a store. |
| `ExecutorLaws.SlotRoundTrip` | crates/jadren-codegen-llvm/src/differential.rs:236-261 | Allocating, storing and loading in three instructions gives the stored value back in one new slot, for exactly three steps, and changes nothing else. |
| `ExecutorLaws.ExtractAfterAggregate` | crates/jadren-codegen-llvm/src/differential.rs:262-275 | Extracting element i of a built aggregate gives the i-th operand. |
| `ExecutorLaws.CollectedInOrder` | crates/jadren-codegen-llvm/src/differential.rs:446-451 | Collected operands are the bound values, in order. |
| `ExecutorLaws.BoundByPosition` | crates/jadren-codegen-llvm/src/differential.rs:97-112 | Block parameter i receives incoming value i and its declared type. |
| `ExecutorLaws.UnboundUnchanged` | crates/jadren-codegen-llvm/src/differential.rs:97-112 | Binding parameters leaves every other value and type alone. |
| `ExecutorLaws.DiamondIsSelect` | crates/jadren-codegen-llvm/src/differential.rs:138-156 | Branching around two empty blocks to a join reaches it in exactly the state a select into the join's parameter gives, two steps later, with the first value exactly when the condition holds. |
| `ExecutorLaws.SwitchDecides` | crates/jadren-codegen-llvm/src/differential.rs:157-181 | A switch takes the first case equal to the discriminant modulo 2^bits, with that case's arguments, else the default. |
| `ExecutorArithmetic.BinaryIsExact` | crates/jadren-codegen-llvm/src/differential.rs:328-365 | Add, subtract, multiply, divide and remainder equal the mathematical operation on the operands' signed or unsigned meaning, reduced modulo 2^bits, at every width; zero divisors give their errors and only the 128-bit minimum over -1 panics. |
| `ExecutorArithmetic.SignedResultWraps` | crates/jadren-codegen-llvm/src/differential.rs:328-365 | Read as signed, each result is the exact one wrapped into the two's-complement range. |
| `ExecutorArithmetic.TruncatedDivisionLaw` | crates/jadren-codegen-llvm/src/differential.rs:328-365 | Quotient and remainder satisfy a = b*q + r with \|r\| < \|b\| and r of the dividend's sign. |
| `ExecutorArithmetic.UnaryIsExact` | crates/jadren-codegen-llvm/src/differential.rs:301-326 | Negation is exact modulo 2^bits and bitwise not is the complement within the width. |
| `ExecutorArithmetic.BitwiseIsExact` | crates/jadren-codegen-llvm/src/differential.rs:328-365 | And, or and exclusive or act bit by bit and stay in range. |
| `ExecutorArithmetic.CompareIsExact` | crates/jadren-codegen-llvm/src/differential.rs:367-407 | Every comparison holds exactly when the sign of the difference of the signed or unsigned meanings is one it admits. |
| `ExecutorArithmetic.ConstantIsExact` | crates/jadren-codegen-llvm/src/differential.rs:289-299 | An integer constant of either sign is its value modulo 2^bits. |
| `ExecutorMeaning.ConstantSupportedExactly` | crates/jadren-codegen-llvm/src/differential.rs:289-299 | A constant has a value if and only if its kind fits the type; otherwise it is refused by name. |
| `ExecutorMeaning.ZeroIsZero` | crates/jadren-codegen-llvm/src/differential.rs:289-299 | The zero constant is the integer 0 at integer types and false at Bool. |
| `ExecutorMeaning.LogicIsExact` | crates/jadren-codegen-llvm/src/differential.rs:301-407 | Truth constants, not, and the comparisons of truth values agree with logic; ordering them is refused. |
| `ExecutorMeaning.BinaryInstructionIsExact` | crates/jadren-codegen-llvm/src/differential.rs:210-216 | A binary instruction computes modulo 2^bits at the type recorded for its left operand. |
| `ExecutorMeaning.CompareInstructionIsExact` | crates/jadren-codegen-llvm/src/differential.rs:217-222 | A comparison instruction holds exactly when the sign of the difference, at its left operand's type, is one the comparison admits. |
| `ExecutorMeaning.WrongKindsAreNamed` | crates/jadren-codegen-llvm/src/differential.rs:138-185 | Branching or switching on the wrong kind, and reaching unreachable, give their own errors. |
| `ExecutorMeaning.ComparisonErrorsAreNamed` | crates/jadren-codegen-llvm/src/differential.rs:367-407 | A comparison fails for its type exactly on integers without an integer type, and for its kinds exactly on other or mixed kinds. |
| `ExecutorArithmetic.SwitchTakesFirstMatch` | crates/jadren-codegen-llvm/src/differential.rs:157-181 | The chosen case is the first congruent one; none is chosen exactly when none is congruent. |
| `IntegerSemantics.NormalizeIsRemainder` | crates/jadren-codegen-llvm/src/differential.rs:453-463 | Wrapping to 128 bits and masking is the remainder modulo 2^bits, for every integer and width. |
| `IntegerSemantics.SignedIsTwosComplement` | crates/jadren-codegen-llvm/src/differential.rs:465-477 | The sign-extension by masks equals the two's-complement reading. |
| `IntegerSemantics.SignedInvertsNormalize` | crates/jadren-codegen-llvm/src/differential.rs:453-477 | Normalizing then reading signed wraps any integer, and is the identity on the signed range. |
| `IntegerSemantics.NormalizeInvertsSigned` | crates/jadren-codegen-llvm/src/differential.rs:453-477 | Reading signed then normalizing is the identity on normalized words. |
| `IntegerSemantics.SignedIsInjective` | crates/jadren-codegen-llvm/src/differential.rs:465-477 | Equal signed readings mean equal words, so equality can compare either. |
| `Dominators.ComputeDominators` | crates/jadren-jir/src/verifier.rs:347-378 | The iteration terminates on every graph in the greatest solution of the dominator equations, whose rows hold exactly the blocks on every path from the entry or from a block without predecessors. |
| `Dominators.Sweep` | crates/jadren-jir/src/verifier.rs:355-376 | One sweep stays above every solution and either shrinks the table or is itself a solution. |
| `Dominators.MeetRow` | crates/jadren-jir/src/verifier.rs:355-376 | A row is the block itself plus what all its predecessors share. |
| `Dominators.TableIsSound` | crates/jadren-jir/src/verifier.rs:347-378 | Every member of a block's row lies on every path to that block, whether it starts at the entry or at a dead block. |
| `Dominators.GreatestTableIsExact` | crates/jadren-jir/src/verifier.rs:347-378 | On every graph, d is in the row of b if and only if d lies on every path to b. |
| `Dominators.PathTableIsTable` | crates/jadren-jir/src/verifier.rs:347-378 | On every graph the path-based relation itself solves the equations. |
| `Dominators.RowIsTextbookExactly` | crates/jadren-jir/src/verifier.rs:347-378 | A row is the textbook dominators (paths from the entry alone) if and only if it names the entry block. |
| `Dominators.DeadBlockHidesEntry` | crates/jadren-jir/src/verifier.rs:347-378 | On the join of the entry and a dead block every solution leaves the entry out of the join's row, though the entry dominates it. |
| `Dominators.EdgeShrinks` | crates/jadren-jir/src/verifier.rs:347-378 | Along an edge only the target is added: what dominates it dominates the source or is the target. |
| `JirVerifier.Sources` | crates/jadren-jir/src/verifier.rs:335-345 | The predecessors listed for a block are exactly the blocks whose terminator can go to it. |
| `Jir.EntryIndex` | crates/jadren-codegen-llvm/src/differential.rs:44-52 | The entry is the first exported function named `jadren_entry`, or none. |
| `CLayoutGraph.LayoutSucceedsExactly` | crates/jadren-bindgen/src/lib.rs:622-688 | Record layout succeeds if and only if no chain of by-value embeddings repeats a record, every reached record is non-empty with field types built from named scalars and records, and no part of the expanded type exceeds 64 bits. |
| `CLayoutGraph.ExpansionExistsExactly` | crates/jadren-bindgen/src/lib.rs:622-795 | A record expands to a finite C type if and only if its by-value graph is acyclic and supported. |
| `CLayoutGraph.FailureIsExplained` | crates/jadren-bindgen/src/lib.rs:622-795 | Every failure names a real cause reached by embedding alone: an empty record, a repeated record, a type that is neither scalar nor record, or a length that is no constant. |
| `CScalarCorrect.ScalarLayoutSound` | crates/jadren-bindgen/src/lib.rs:703-721 | Every size and alignment in the scalar table is what the name says: its width in bits over 8, its lanes times Float32, or its number of machine words. |
| `CScalarCorrect.ScalarLayoutComplete` | crates/jadren-bindgen/src/lib.rs:703-721 | Every name with such a meaning is in the table with that size and alignment. |
| `CScalarCorrect.ScalarPathIsExact` | crates/jadren-bindgen/src/lib.rs:700-728 | The text of a path finds a scalar if and only if the path is the bare scalar name. |
| `BindgenTypes.TextIsUnqualified` | crates/jadren-bindgen/src/lib.rs:1252-1258 | The text of a path equals a name without a dot if and only if the path is that one segment. |
| `CLayoutCorrect.RecordLayoutSound` | crates/jadren-bindgen/src/lib.rs:622-688 | A successful layout equals the unbounded C layout of the expansion: size, alignment, and the name and offset of every field. |
| `CLayoutCorrect.TypeLayoutSound` | crates/jadren-bindgen/src/lib.rs:690-795 | The same for every type reference, from any visiting set. |
| `CLayoutCorrect.RecordLayoutComplete` | crates/jadren-bindgen/src/lib.rs:622-688 | A record with an expansion gets that layout, or an overflow error exactly when it does not fit, from any visiting set of records too large to be embedded in it. |
| `CLayoutCorrect.TypeLayoutComplete` | crates/jadren-bindgen/src/lib.rs:690-795 | The same for every type reference. |
| `CLayoutCorrect.RecordLayoutSucceedsExactly` | crates/jadren-bindgen/src/lib.rs:622-688 | Success from an empty visiting set if and only if a fitting expansion exists. |
| `CLayoutCorrect.OverflowIsExact` | crates/jadren-bindgen/src/lib.rs:650-687 | Overflow is reported if and only if a true size exceeds the 64-bit range. |
| `CLayoutCorrect.ResultIgnoresPath` | crates/jadren-bindgen/src/lib.rs:622-648 | A successful result does not depend on the visiting set it started with. |
| `CLayoutCorrect.RecordExpansionUnique` | crates/jadren-bindgen/src/lib.rs:622-688 | A record has at most one expansion, so the layout is determined. |
| `CLayoutCorrect.AlignUpCheckedIsExact` | crates/jadren-bindgen/src/lib.rs:797-807 | Checked alignment gives the true aligned value, or none exactly when that value overflows. |
| `CLayoutCorrect.ArrayLayoutIsExact` | crates/jadren-bindgen/src/lib.rs:739-779 | An array occupies exactly count times the element size at the element alignment, or overflows exactly when that does not fit. |
| `CLayoutSpec.AlignUpIsLeast` | crates/jadren-bindgen/src/lib.rs:797-807 | Aligning gives the least multiple not below the value. |
| `CLayoutSpec.OffsetIsLeastAligned` | crates/jadren-bindgen/src/lib.rs:650-687 | A field sits at the least offset aligned for it at or after the previous field's end. |
| `CLayoutSpec.MembersAreDisjoint` | crates/jadren-bindgen/src/lib.rs:650-687 | Any two fields are ordered and disjoint. |
| `CLayoutSpec.SizeCovers` | crates/jadren-bindgen/src/lib.rs:650-687 | The size is the least multiple of the alignment that covers the fields. |
| `CLayoutSpec.MemberAlignmentDivides` | crates/jadren-bindgen/src/lib.rs:650-687 | The alignment is a power of two that every field alignment divides. |
| `CLayoutSpec.SizeIsMultiple` | crates/jadren-bindgen/src/lib.rs:690-795 | Every size is a multiple of its alignment, so array elements stay aligned. |
| `CLayout.Walk.constructor` | crates/jadren-bindgen/src/lib.rs:573-574 | A walk starts with an empty visiting set. |
| `CLayout.Walk.LayoutRecord` | crates/jadren-bindgen/src/lib.rs:622-688 | The field loop over the shared visiting set terminates, equals the specification, and restores the set on success. |
| `CLayout.Walk.LayoutType` | crates/jadren-bindgen/src/lib.rs:690-795 | The same for type references. |
| `Float8Boundary.RejectIsExact` | crates/jadren-bindgen/src/lib.rs:1159-1238 | From an empty visiting set an error is reported if and only if `Float8` is reachable by value. |
| `Float8Boundary.QualifiedRecordIsExact` | crates/jadren-bindgen/src/lib.rs:1192-1210 | Under any qualifier a record name is rejected if and only if one of that record's own fields reaches `Float8`: the last segment names it. |
| `Float8Boundary.SpecialNamesAreBare` | crates/jadren-bindgen/src/lib.rs:1166-1178 | `Float8`, `Slice` and `Pointer` are recognised exactly as bare names. |
| `Float8Boundary.RejectSound` | crates/jadren-bindgen/src/lib.rs:1159-1238 | Every rejection, from any visiting set, has a by-value path to `Float8`, and is reported at the place from which that path meets it: the last field followed, or the start. |
| `Float8Boundary.RejectComplete` | crates/jadren-bindgen/src/lib.rs:1159-1238 | A by-value path that avoids the records being visited is always found. |
| `Float8Boundary.AddressesAreAccepted` | crates/jadren-bindgen/src/lib.rs:1159-1238 | `Slice` and `Pointer` are accepted whatever they point to, and hold nothing by value. |
| `Float8Boundary.Check.constructor` | crates/jadren-bindgen/src/lib.rs:146-147 | A check starts with an empty visiting set. |
| `Float8Boundary.Check.RejectType` | crates/jadren-bindgen/src/lib.rs:1159-1238 | The mutating walk terminates, equals the specification, and restores the visiting set on every path. |
| `Float8Boundary.Check.RejectEach` | crates/jadren-bindgen/src/lib.rs:1159-1238 | The same over argument and parameter lists. |
| `GuiReachability.RequiresGui` | crates/jadren-cli/src/windows_subsystem.rs:11-68 | The worklist terminates and answers true if and only if a listed GUI import with no exported definition is reachable from the exported entry. |
| `GuiReachability.Expand` | crates/jadren-cli/src/windows_subsystem.rs:35-65 | Expanding a node reports exactly an unresolved GUI import, and otherwise pushes exactly its edges. |
| `GuiReachability.PushMentioned` | crates/jadren-cli/src/windows_subsystem.rs:59-65 | Exactly the functions called or whose address is taken are pushed. |
| `GuiReachability.PushBlock` | crates/jadren-cli/src/windows_subsystem.rs:59-65 | The same for one block. |
| `GuiReachability.TargetIsNamed` | crates/jadren-cli/src/windows_subsystem.rs:59-65 | An instruction's target is exactly the function it calls or takes the address of. |
| `GuiReachability.ResolvesToDefinition` | crates/jadren-cli/src/windows_subsystem.rs:12-21 | The export table maps a name to its last exported definition and to nothing when there is none. |
| `GuiReachability.VerifiedCallsResolve` | crates/jadren-jir/src/verifier.rs:2467-2518 | In a verified module every call and every taken address names a function of the module, so the worklist never indexes outside it. |
| `EventQueue.RunsAreAccounted` | crates/jadren-cli/src/x11_desktop_runtime.c:185-206 | Over every run, delivered then pending equals the accepted events in order since the last clear, and emitted = delivered + pending + dropped until the drop counter saturates. |
| `EventQueue.StepAccounted` | crates/jadren-cli/src/x11_desktop_runtime.c:3528-3620 | Each operation keeps that account. |
| `EventQueue.Drive` | crates/jadren-cli/src/x11_desktop_runtime.c:3528-3620 | A fresh ring buffer driven through any operations, with any buffer sizes, holds and has delivered exactly what the abstract run says, and that run is accounted. |
| `EventQueue.Perform` | crates/jadren-cli/src/x11_desktop_runtime.c:3547-3620 | Each operation on the ring is one step of the abstract run, including the reads rejected for lack of room. |
| `EventQueue.Ring.constructor` | crates/jadren-cli/src/x11_desktop_runtime.c:185-189 | A new ring is the empty queue. |
| `EventQueue.Ring.Clear` | crates/jadren-cli/src/x11_desktop_runtime.c:185-189 | Clearing empties the queue and its drop counter. |
| `EventQueue.Ring.Enqueue` | crates/jadren-cli/src/win32_desktop_runtime.c:1003-1024 | The ring write refines appending to a bounded FIFO; event 0 is ignored and a full queue counts a saturating drop. |
| `EventQueue.Ring.CopyOut` | crates/jadren-cli/src/x11_desktop_runtime.c:3547-3564 | The wrapped copy writes the first n pending events and nothing past them. |
| `EventQueue.Ring.PeekExact` | crates/jadren-cli/src/x11_desktop_runtime.c:3547-3564 | Peek succeeds exactly with adequate buffers, shows the queue, never changes it, and writes nothing when rejected. |
| `EventQueue.Ring.PollExact` | crates/jadren-cli/src/x11_desktop_runtime.c:3566-3585 | Poll delivers the whole queue in order, empties it and leaves the rest of the output alone; a rejected poll changes nothing. |
| `EventQueue.Ring.PollBatchExact` | crates/jadren-cli/src/x11_desktop_runtime.c:3590-3620 | A batch delivers the first min(pending, max) events, keeps the rest pending and leaves the rest of the output alone; a rejected one changes nothing. |
| `EventQueue.Ring.Advance` | crates/jadren-cli/src/win32_desktop_runtime.c:7742-7834 | Advancing the head drops exactly the first n events. |
| `RetainedRows.SelectionFollowsRow` | crates/jadren-cli/src/x11_desktop_runtime.c:1444-1607 | Over every run of edits -1 <= selection < count <= capacity holds, and the selection is empty or still the same row. |
| `RetainedRows.EditFollowsRow` | crates/jadren-cli/src/x11_desktop_runtime.c:2150-2302 | One edit loses a selection only by removing the selected row. |
| `RetainedRows.Drive` | crates/jadren-cli/src/x11_desktop_runtime.c:1444-1607 | The in-place store driven through any edits is where the abstract run says, so the run theorems hold of it. |
| `RetainedRows.InsertKeepsRows` | crates/jadren-cli/src/x11_desktop_runtime.c:1444-1470 | Insert places the item and shifts each other row and the selection by its position. |
| `RetainedRows.RemoveKeepsRows` | crates/jadren-cli/src/x11_desktop_runtime.c:1563-1587 | Remove keeps every other row and selection, -1 exactly when the selected one went. |
| `RetainedRows.MoveKeepsRows` | crates/jadren-cli/src/x11_desktop_runtime.c:1500-1540 | Move is a permutation of the rows that carries the selection along. |
| `RetainedRows.MoveBack` | crates/jadren-cli/src/x11_desktop_runtime.c:1500-1540 | move(i, j) then move(j, i) restores items and selection. |
| `RetainedRows.RemoveUndoesInsert` | crates/jadren-cli/src/x11_desktop_runtime.c:1444-1470 | Removing an inserted row restores items and selection. |
| `RetainedRows.InsertUndoesRemove` | crates/jadren-cli/src/x11_desktop_runtime.c:1563-1587 | Reinserting a removed row restores everything except a selection on that row. |
| `RetainedRows.MoveIsRemoveInsert` | crates/jadren-cli/src/x11_desktop_runtime.c:2196-2236 | Moving gives the items of removing and reinserting at the final index. |
| `RetainedRows.Store.constructor` | crates/jadren-cli/src/x11_desktop_runtime.c:2150-2172 | A new store has no rows and no selection. |
| `RetainedRows.Store.Insert` | crates/jadren-cli/src/x11_desktop_runtime.c:2150-2172 | The shifting loop refines sequence insertion and reports failure exactly when index or capacity forbids it, changing nothing. |
| `RetainedRows.Store.OpenGap` | crates/jadren-cli/src/x11_desktop_runtime.c:1444-1470 | The downward loop shifts the tail up by one. |
| `RetainedRows.Store.Remove` | crates/jadren-cli/src/x11_desktop_runtime.c:2259-2282 | The shifting loop refines removal and blanks the freed slot. |
| `RetainedRows.Store.CloseGap` | crates/jadren-cli/src/x11_desktop_runtime.c:1563-1587 | The upward loop shifts the tail down by one. |
| `RetainedRows.Store.Move` | crates/jadren-cli/src/x11_desktop_runtime.c:2196-2236 | Both loop directions refine the move, selection included. |
| `RetainedRows.Store.MoveUp` | crates/jadren-cli/src/x11_desktop_runtime.c:1500-1540 | The loop towards a larger index moves the row in place. |
| `RetainedRows.Store.MoveDown` | crates/jadren-cli/src/x11_desktop_runtime.c:1500-1540 | The loop towards a smaller index moves the row in place. |
| `RetainedRows.Store.InsertIfRevision` | crates/jadren-cli/src/x11_desktop_runtime.c:2178-2192 | The insertion happens exactly when the first revision read matches and the index is valid, and 1 is returned exactly when the second read matches too; while the revision stands still, 0 means nothing changed. |
| `RetainedRows.Store.RemoveIfRevision` | crates/jadren-cli/src/x11_desktop_runtime.c:2288-2302 | The same for remove. |
| `RetainedRows.Store.MoveIfRevision` | crates/jadren-cli/src/x11_desktop_runtime.c:2242-2257 | The same for move. |
| `RetainedRows.InsertListItem` | crates/jadren-cli/src/x11_desktop_runtime.c:1444-1470 | A list item is inserted exactly when its text is present, shorter than 256 bytes, and the position is free. |
| `RetainedRows.InsertTableRow` | crates/jadren-cli/src/x11_desktop_runtime.c:2150-2172 | A new table row is blank. |
| `Utf8.Fit` | crates/jadren-cli/src/x11_desktop_runtime.c:5803-5851 | The scan returns the longest prefix within both limits that is well-formed UTF-8 (section 4 of RFC 3629); no longer prefix within them is. |
| `Utf8.Scan` | crates/jadren-cli/src/x11_desktop_runtime.c:5803-5851 | The loop equals the greedy specification on the window of both limits. |
| `Utf8.ScanScalar` | crates/jadren-cli/src/x11_desktop_runtime.c:5803-5851 | The byte tests find the width of the scalar at the offset, or 0. |
| `Utf8.FitIsLongest` | crates/jadren-cli/src/x11_desktop_runtime.c:5803-5851 | The greedy length is the maximum over all well-formed prefixes. |
| `Utf8.DecodeIsInverse` | crates/jadren-cli/src/x11_desktop_runtime.c:5803-5851 | What the byte tests accept is the encoding of a scalar value: no overlong form, surrogate or value above U+10FFFF. |
| `Utf8.EncodingIsAccepted` | crates/jadren-cli/src/x11_desktop_runtime.c:5803-5851 | Every scalar's encoding passes the byte tests whatever follows it. |
| `Utf8.DecodeEncodes` | crates/jadren-cli/src/x11_desktop_runtime.c:5803-5851 | Decoding an encoding gives the scalar back. |
| `InputText.EditingKeepsGood` | crates/jadren-cli/src/x11_desktop_runtime.c:6061-6092 | Every sequence of keys and backspaces keeps well-formed NUL-free text of at most 255 bytes. |
| `InputText.PressKeepsGood` | crates/jadren-cli/src/x11_desktop_runtime.c:6061-6092 | So does one key event, for any bytes the input method delivers. |
| `InputText.KeyTakesLongest` | crates/jadren-cli/src/x11_desktop_runtime.c:6079-6088 | A key whose lookup overflowed changes nothing; any other key appends its longest well-formed prefix that fits, up to a NUL. |
| `InputText.BackspaceDropsScalar` | crates/jadren-cli/src/x11_desktop_runtime.c:5786-5801 | Backspace removes exactly the last scalar value. |
| `InputText.BackspaceUndoesKey` | crates/jadren-cli/src/x11_desktop_runtime.c:6061-6092 | A one-scalar key that fits appends it whole, and backspace then restores the text. |
| `InputText.Input.constructor` | crates/jadren-cli/src/x11_desktop_runtime.c:430-443 | A new input holds the empty terminated text. |
| `InputText.Input.Length` | crates/jadren-cli/src/x11_desktop_runtime.c:5786-5801 | The NUL scan gives the length of the content. |
| `InputText.Input.Backspace` | crates/jadren-cli/src/x11_desktop_runtime.c:5786-5801 | The in-place loop equals the specification on the content. |
| `InputText.Input.Key` | crates/jadren-cli/src/x11_desktop_runtime.c:6061-6092 | The bounded append equals the specification and keeps the buffer terminated. |
| `InputText.Input.CopyAt` | crates/jadren-cli/src/x11_desktop_runtime.c:6061-6092 | The copy writes the bytes and the terminator and keeps the text before them. |
| `GuardedRefresh.RefreshIsAllOrNothing` | crates/jadren-cli/src/x11_desktop_runtime.c:5666-5784 | Refresh returns 1 if and only if the revision matches and preflight passes; returning 0 leaves every node and slot as it was. |
| `GuardedRefresh.PassSucceeds` | crates/jadren-cli/src/x11_desktop_runtime.c:5741-5784 | After a passed preflight the mutating pass cannot fail at any node. |
| `GuardedRefresh.RefreshShowsModel` | crates/jadren-cli/src/x11_desktop_runtime.c:5741-5784 | After success every bound control that is first for its event shows its model slot. |
| `GuardedRefresh.UniqueEventsShowModel` | crates/jadren-cli/src/x11_desktop_runtime.c:4766-4790 | With unique event ids every bound control shows its model slot, text up to 255 bytes. |
| `GuardedRefresh.RefreshMirrorsState` | crates/jadren-cli/src/x11_desktop_runtime.c:3622-3642 | After success a state slot or text slot with one binding equals the value of the refreshed control, and one whose control was not refreshed is unchanged. |
| `GuardedRefresh.ReadableExactly` | crates/jadren-cli/src/x11_desktop_runtime.c:5666-5733 | A control is readable if and only if its slot has the control's type and a value it can show: at most 256 bytes of text, or -1 or an existing row. |
| `GuardedRefresh.CheckIsMirrored` | crates/jadren-cli/src/x11_desktop_runtime.c:3401-3437 | A mirrored check is 1 exactly while the first checkbox of the event is checked. |
| `GuardedRefresh.LengthIsMirrored` | crates/jadren-cli/src/x11_desktop_runtime.c:3401-3437 | A mirrored length is that of the first input of the event, or 0. |
| `GuardedRefresh.IndexIsMirrored` | crates/jadren-cli/src/x11_desktop_runtime.c:3401-3437 | A mirrored index is the selection of the event's select, else list, else table, else -1. |
| `GuardedRefresh.CountIsMirrored` | crates/jadren-cli/src/x11_desktop_runtime.c:3401-3437 | A mirrored count is the rows of the event's list, else table, else 0. |
| `GuardedRefresh.SyncMirrors` | crates/jadren-cli/src/x11_desktop_runtime.c:3622-3642 | One synchronisation brings each binding of the event that alone writes its slot up to date. |
| `GuardedRefresh.Runtime.constructor` | crates/jadren-cli/src/x11_desktop_runtime.c:5666-5784 | The runtime starts from the given controls. |
| `GuardedRefresh.Runtime.RunPreflight` | crates/jadren-cli/src/x11_desktop_runtime.c:5666-5733 | The read-only loop passes exactly when the revision matches and every bound node is readable. |
| `GuardedRefresh.Runtime.SyncEvent` | crates/jadren-cli/src/x11_desktop_runtime.c:3622-3642 | The loop over state bindings equals the specification. |
| `GuardedRefresh.Runtime.Refresh` | crates/jadren-cli/src/x11_desktop_runtime.c:4766-4790 | One control's refresh equals the specification and changes nothing on failure. |
| `GuardedRefresh.Runtime.RefreshAll` | crates/jadren-cli/src/x11_desktop_runtime.c:5741-5784 | Preflight then the mutating loop equals the specification. |
| `GuardedRefresh.NodeFor` | crates/jadren-cli/src/x11_desktop_runtime.c:3262-3272 | The lookup finds the first used node with the event and kind. |
| `ScrollLayout.VisibleIsMeasuredShifted` | crates/jadren-cli/src/win32_desktop_runtime.c:8685-8716 | After the root pass every rectangle is the measured one shifted by the scroll offset. |
| `ScrollLayout.NodePassShifts` | crates/jadren-cli/src/win32_desktop_runtime.c:8525-8604 | Laying out a shifted box shifts every placement and extent: translation equivariance over the whole tree. |
| `ScrollLayout.OffsetStaysInRange` | crates/jadren-cli/src/win32_desktop_runtime.c:8685-8716 | A root pass clamps a non-negative offset into 0..max and keeps one already there. |
| `ScrollLayout.MaximumShowsEverything` | crates/jadren-cli/src/win32_desktop_runtime.c:8685-8716 | At the maximum offset every rectangle the pass placed ends inside the client area, and when scrolling is needed the lowest edge is exactly the client's. |
| `ScrollLayout.RootPassIsIdempotent` | crates/jadren-cli/src/win32_desktop_runtime.c:8685-8716 | Repeating the root pass changes nothing. |
| `ScrollRuns.ControlsIdempotent` | crates/jadren-cli/src/win32_desktop_runtime.c:8606-8719 | With a single root, repeating the whole control layout at one client size changes nothing. |
| `ScrollRuns.RunsStayInRange` | crates/jadren-cli/src/win32_desktop_runtime.c:8748-8796 | Over every run of scroll bar, wheel and resize messages from a new window, on any tree, 0 <= offset <= max. |
| `ScrollRuns.ScreenForgetsHistory` | crates/jadren-cli/src/win32_desktop_runtime.c:8606-8796 | After any run and one more resize, every rectangle is the measured one from the builder's origin shifted by the offset: nothing else of the history is left. |
| `ScrollRuns.ScrolledDownShowsEverything` | crates/jadren-cli/src/win32_desktop_runtime.c:8685-8716 | At the maximum offset everything the single root lays out ends inside the client area. |
| `ScrollRuns.ControlsSettle` | crates/jadren-cli/src/win32_desktop_runtime.c:8606-8719 | Whatever the number of roots, a third layout at one client size changes nothing after the second. |
| `ScrollRuns.ControlsRepeatExactly` | crates/jadren-cli/src/win32_desktop_runtime.c:8685-8716 | Whatever the number of roots, a second layout changes nothing if and only if no root has to lower the offset the first root leaves. |
| `ScrollRuns.TwoRootsNeedTwoLayouts` | crates/jadren-cli/src/win32_desktop_runtime.c:8685-8716 | A two-root window made taller while scrolled down changes again on a second layout. |
| `ScrollRuns.Drive` | crates/jadren-cli/src/win32_desktop_runtime.c:8748-8813 | A window driven through any messages ends in the view of the abstract run. |
| `ScrollLayout.ChildIsPlaced` | crates/jadren-cli/src/win32_desktop_runtime.c:8525-8604 | Laying out a node moves each existing control child, and each nested node with all it holds, to its own place among the stacked children. |
| `ScrollLayout.ChildrenAreStacked` | crates/jadren-cli/src/win32_desktop_runtime.c:8525-8604 | Consecutive children are exactly one gap apart along the axis. |
| `ScrollLayout.CrossAxisContained` | crates/jadren-cli/src/win32_desktop_runtime.c:8525-8604 | Across the axis each child stays inside the content box, and a stretched child fills it. |
| `ScrollPlacement.ColumnPlacement` | crates/jadren-cli/src/win32_desktop_runtime.c:8545-8575 | In a column a child keeps its size as far as it fits; unstretched, its left edges, right edges or middles coincide with those between the paddings as the alignment asks, and the first child touches the top padding. |
| `ScrollPlacement.RowPlacement` | crates/jadren-cli/src/win32_desktop_runtime.c:8545-8582 | In a row a child is centered or stretched across it; when the row fits, every width is kept and the group from first to last child is at the start, the end or the middle as the alignment asks. |
| `ScrollPlacement.ControlIsPlaced` | crates/jadren-cli/src/win32_desktop_runtime.c:8525-8604 | Every existing control child of a laid-out node is moved to a rectangle with those margins. |
| `ScrollLayout.ClampIsNearest` | crates/jadren-cli/src/win32_desktop_runtime.c:1055-1063 | Clamping gives the value in range nearest to the request. |
| `ScrollLayout.Desktop.constructor` | crates/jadren-cli/src/win32_desktop_runtime.c:1871-1917 | A desktop starts unscrolled with no recorded origin. |
| `ScrollLayout.Desktop.LayoutNode` | crates/jadren-cli/src/win32_desktop_runtime.c:8525-8604 | The recursion terminates because children come after parents, and equals the specification pass. |
| `ScrollLayout.Desktop.PlaceNode` | crates/jadren-cli/src/win32_desktop_runtime.c:8525-8604 | A node's own box and panel are placed and counted. |
| `ScrollLayout.Desktop.LayoutChildren` | crates/jadren-cli/src/win32_desktop_runtime.c:8525-8604 | The cursor loop equals the specification over all children. |
| `ScrollLayout.Desktop.LayoutChild` | crates/jadren-cli/src/win32_desktop_runtime.c:8525-8604 | One child is placed and extends the extent. |
| `ScrollLayout.Desktop.PrimaryExtent` | crates/jadren-cli/src/win32_desktop_runtime.c:8525-8604 | The first loop sums the children and the gaps between them. |
| `ScrollLayout.Desktop.LayoutRoot` | crates/jadren-cli/src/win32_desktop_runtime.c:8685-8716 | The root pass equals its specification, first recorded origin included. |
| `ScrollLayout.Desktop.MeasureAndPlace` | crates/jadren-cli/src/win32_desktop_runtime.c:8685-8716 | Measuring, clamping the offset and placing give the specified placements, extent and maximum. |
| `ScrollLayout.Desktop.LayoutControls` | crates/jadren-cli/src/win32_desktop_runtime.c:8606-8719 | The layout of a tree with any number of roots equals its specification. |
| `ScrollLayout.Desktop.HandleMessage` | crates/jadren-cli/src/win32_desktop_runtime.c:8748-8813 | Scroll bar, wheel and resize messages equal their specification, truncating wheel division included. |
| `ScrollLayout.Desktop.ScrollBy` | crates/jadren-cli/src/win32_desktop_runtime.c:8770-8780 | A wanted offset is clamped into 0..max, and the window is laid out again only when it differs. |
| `ScrollLayout.Desktop.Move` | crates/jadren-cli/src/win32_desktop_runtime.c:8432-8505 | Moving a target records its new rectangle. |
| `LayoutBuilder.RunsAreOrdered` | crates/jadren-cli/src/win32_desktop_runtime.c:5010-5198 | Over every run of the builder, nested nodes come after their parents and every node has a box, which is what makes the layout terminate. |
| `LayoutBuilder.ApplyKeeps` | crates/jadren-cli/src/win32_desktop_runtime.c:5010-5198 | Each builder call keeps the table: sizes as clamped, at most 32 nodes and 24 children each, each nested node after its parent, naming it and held once, open scopes increasing. |
| `LayoutBuilder.SingleRootKeptExactly` | crates/jadren-cli/src/win32_desktop_runtime.c:5072-5084 | A call keeps a single root if and only if it does not open a column beside an existing tree. |
| `LayoutBuilder.NestedShape` | crates/jadren-cli/src/win32_desktop_runtime.c:5086-5156 | Opening a nested scope adds one node and one open scope, or neither. |
| `LayoutBuilder.NestedIsExact` | crates/jadren-cli/src/win32_desktop_runtime.c:5086-5156 | A nested scope within the limits becomes the last child of the current one with the style asked for: panels stack their children, rows and top bars put them side by side, the alignment code decides the margins, and no other node changes. |
| `LayoutBuilder.ColumnIsExact` | crates/jadren-cli/src/win32_desktop_runtime.c:5072-5084 | A root column within the limits is a new node at the place and with the style asked for. |
| `LayoutBuilder.ControlIsExact` | crates/jadren-cli/src/win32_desktop_runtime.c:5052-5070 | A control becomes the last child of the current scope with its size, and no other node changes. |
| `LayoutBuilder.Builder.Column` | crates/jadren-cli/src/win32_desktop_runtime.c:5072-5084 | The root column call equals its specification step. |
| `LayoutBuilder.Builder.Nested` | crates/jadren-cli/src/win32_desktop_runtime.c:5086-5156 | Rows, panels and top bars equal their specification step, the full parent included. |
| `LayoutBuilder.Builder.Control` | crates/jadren-cli/src/win32_desktop_runtime.c:5200-5400 | Adding a control equals its specification step. |
| `LayoutBuilder.Builder.Menu` | crates/jadren-cli/src/win32_desktop_runtime.c:5162-5192 | A menu trigger is built exactly in an open scope with room for a child. |
| `ScopeStack.GuardPassesExactlyWhenNested` | crates/jadren-cli/src/win32_desktop_runtime.c:9471-9478 | Over every run the scope guard passes if and only if the successful opens and ends form a nested bracket sequence. |
| `ScopeStack.PlayConsistent` | crates/jadren-cli/src/win32_desktop_runtime.c:5476-5655 | Over every run of portable calls scope depth equals layout depth, the layout is one well-built tree, ids are in range and increasing, and the open scopes are the unclosed brackets. |
| `ScopeStack.StepConsistent` | crates/jadren-cli/src/win32_desktop_runtime.c:5476-5655 | Each call keeps scope depth equal to layout depth and the single well-built tree. |
| `ScopeStack.EndSucceeds` | crates/jadren-cli/src/win32_desktop_runtime.c:7618-7635 | An end of the current scope always succeeds and closes exactly that scope: the depth-mismatch branch is unreachable. |
| `ScopeStack.RootIsInset` | crates/jadren-cli/src/win32_desktop_runtime.c:5508-5511 | The root column of a new window leaves 16 units free on every side and has padding 16 and gap 12. |
| `ScopeStack.NestedExactly` | crates/jadren-cli/src/win32_desktop_runtime.c:7618-7635 | The stack reading of a bracket sequence agrees with the grammar of nested sequences, each end closing the most recent open. |
| `ScopeStack.Desktop.constructor` | crates/jadren-cli/src/win32_desktop_runtime.c:5417-5420 | The runtime starts idle. |
| `ScopeStack.Desktop.AppBegin` | crates/jadren-cli/src/win32_desktop_runtime.c:5486-5522 | Begin opens the root scope, or returns 0 and changes nothing while active. |
| `ScopeStack.Desktop.AppOpen` | crates/jadren-cli/src/win32_desktop_runtime.c:5524-5656 | Panels, rows and bars open a scope on both stacks or on neither, and roll the layout back when no node is left. |
| `ScopeStack.Desktop.AppControl` | crates/jadren-cli/src/win32_desktop_runtime.c:5686-5707 | A control joins the current scope's layout and takes a node id when one is left, without changing either stack. |
| `ScopeStack.Desktop.AppMenu` | crates/jadren-cli/src/win32_desktop_runtime.c:5657-5684 | A menu does the same when the scope has room for a child, without the depth limit of the other controls. |
| `ScopeStack.Desktop.AppEnd` | crates/jadren-cli/src/win32_desktop_runtime.c:7618-7635 | End closes exactly the innermost open scope; the depth-mismatch branch is unreachable. |
| `ScopeStack.Desktop.AppRun` | crates/jadren-cli/src/win32_desktop_runtime.c:9471-9478 | Run is refused with code 2 exactly while a scope is open; otherwise the built tree has one root and can be laid out, and after any messages the window's offset is in range. |
| `PathNormalization.NormalizationKeepsLocation` | crates/jadren-determinism/src/lib.rs:121-150 | The normalized path denotes the same location from every base if and only if no component is left, the path is rooted, or it has no drive prefix and its first component left does not start like a drive. |
| `PathNormalization.NormalizationIsIdempotent` | crates/jadren-determinism/src/lib.rs:121-150 | A second pass changes nothing if and only if no component is left, the path is rooted, a drive-relative path does not climb, or a relative path starts with nothing drive-like except a bare lower-case drive. |
| `PathNormalization.PlainPathsAreKept` | crates/jadren-determinism/src/lib.rs:121-175 | Every rooted, UNC or rooted-drive path, and every relative path none of whose written components starts like a drive, keeps its location and is unchanged by a second pass. |
| `PathNormalization.ComponentsAreNormal` | crates/jadren-determinism/src/lib.rs:121-150 | No empty or `.` component, and `..` only as a leading run of an unrooted path, for every input. |
| `PathNormalization.ComponentsKeepMeaning` | crates/jadren-determinism/src/lib.rs:121-150 | For every input the kept components lead where the original components lead, from any base. |
| `PathNormalization.CollapseKeepsMeaning` | crates/jadren-determinism/src/lib.rs:130-141 | Each push or pop of the component loop preserves stack resolution. |
| `PathNormalization.StableReadsBack` | crates/jadren-determinism/src/lib.rs:145-175 | The rendered form of a stable path reads back to the same prefix, rootedness and components. |
| `PathNormalization.SplitPrefixReads` | crates/jadren-determinism/src/lib.rs:152-175 | Every path divides as a grammar of UNC, rooted, drive, drive-relative and relative paths says, drive letters in lower case. |
| `PathNormalization.PrefixReadsOnce` | crates/jadren-determinism/src/lib.rs:152-175 | That grammar divides a path in one way only, so it determines prefix, rest and rootedness. |
| `PathNormalization.DriveRelativeMoves` | crates/jadren-determinism/src/lib.rs:148-175 | `c:x` is moved by normalization. |
| `PathNormalization.DriveRelativeClimbs` | crates/jadren-determinism/src/lib.rs:148-175 | `c:..` changes again on a second pass. |
| `PathNormalization.NormalizePath` | crates/jadren-determinism/src/lib.rs:121-150 | The push and pop loop equals the specification the theorems are about. |
| `StableHasher.ChunkingIsInvisible` | crates/jadren-determinism/src/lib.rs:59-66 | Feeding any chunks is feeding their concatenation. |
| `StableHasher.HashConcat` | crates/jadren-determinism/src/lib.rs:59-66 | Hashing a concatenation continues from the state after its first part. |
| `StableHasher.UnmixInvertsMix` | crates/jadren-determinism/src/lib.rs:59-66 | One FNV-1a step is invertible, by the inverse of the prime modulo 2^64. |
| `StableHasher.MixSeparatesBytes` | crates/jadren-determinism/src/lib.rs:59-66 | Different bytes lead one state to different states. |
| `StableHasher.HashIsInjectiveInState` | crates/jadren-determinism/src/lib.rs:59-66 | Different states stay different under any common suffix. |
| `StableHasher.OneByteNeverCollides` | crates/jadren-determinism/src/lib.rs:59-66 | Inputs of equal length that differ in exactly one byte never collide. |
| `StableHasher.StreamRoundTrip` | crates/jadren-determinism/src/lib.rs:69-82 | The stream of any list of length-delimited fields decodes to exactly that list. |
| `StableHasher.StreamIsInjective` | crates/jadren-determinism/src/lib.rs:69-82 | Different field lists give different streams. |
| `StableHasher.LittleEndianRoundTrip` | crates/jadren-determinism/src/lib.rs:80-82 | A little-endian integer has its width and reads back. |
| `StableHasher.Hasher.constructor` | crates/jadren-determinism/src/lib.rs:44-48 | A new hasher is at the FNV offset. |
| `StableHasher.Hasher.Update` | crates/jadren-determinism/src/lib.rs:59-66 | The byte loop equals the specification hash. |
| `StableHasher.Hasher.WriteU64` | crates/jadren-determinism/src/lib.rs:80-82 | Writes the eight little-endian bytes. |
| `StableHasher.Hasher.WriteBytes` | crates/jadren-determinism/src/lib.rs:69-72 | Writes a length-delimited field. |
| `StableHasher.Hasher.WriteBool` | crates/jadren-determinism/src/lib.rs:85-87 | Writes one byte, 1 or 0. |
| `StableHasher.FingerprintBytes` | crates/jadren-determinism/src/lib.rs:104-108 | A fingerprint is the hash of the two-field stream of domain and payload. |

## Left out

- ExecutorSafety.EntrySafe: assumes that no call reachable from the entry exchanges a pointer with a function of the module, because the statement is false otherwise (`PointerArgumentsConfuseMemory`).
- ReferenceExecutor.Executor.constructor: does not run the verifier; its acceptance is the predicate `JirVerifier.Verified`, and the executor is modelled on unverified modules too, error paths included.
- JirVerifier keeps only the checks that execution safety rests on; dense ids, duplicate types, layout attributes and the instruction kinds the executor rejects are one `OtherInstruction`.
- Integer types wider than 128 bits, which the executor's shifts do not support.
- Error message texts; each error is a constructor.
- Array lengths are given as a parsed 64-bit value or none; parsing the literal is not modelled.
- Generated C and C# text, identifiers and diagnostics of the binding generator.
- The write of the selection into the application store by the unguarded insert, remove and move forms.
- The forms that set a selected index or row under a revision: they write the application store before their last revision check.
- Sorting, filtering, paging and lookup wrappers over lists and tables.
- Contents of table cells exposed by writing past the row count after a clear.
- GuardedRefresh.UniqueEventsShowModel: table storage slots are folded into the node, and text values have no embedded NUL.
- InputText.EditingKeepsGood: callbacks that rewrite the text during a key event are not modelled.
- ScrollLayout.Desktop.LayoutControls: controls outside any layout, native scroll bars and 32-bit overflow of coordinates are not modelled.
- ScrollLayout.OffsetStaysInRange: assumes a non-negative offset for one pass; `ScrollRuns.RunsStayInRange` shows every run keeps it so.
- LayoutBuilder.Builder.Control: the index of the control the backend made, if it made one, is a parameter; the counters and limits of each control kind are not modelled.
- ScopeStack.Desktop.AppControl: whether the backend made the control is a parameter, for the same reason.
- ScopeStack.Desktop.AppMenu: whether the backend made the menu is a parameter, for the same reason.
- ScopeStack.Desktop.AppOpen: direct calls of the non-portable layout functions between portable ones, and event binding of nodes, are not modelled.
- X11 layout, painting, hit tests, file dialogs, message loops and every Win32 and Xlib call.
- PathNormalization.NormalizePath: the lossy conversion of a platform path to text is not modelled.
- LLVM code generation, debug information, linking, the migration tool and the self-host oracle.
