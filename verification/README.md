# Verified model of the Limit compiler's core

Limit is a small compiler and runtime written in C++ and C. This project models ten of its compact,
stateful parts in Dafny and proves what they promise, on every input, every run or every reachable state.

| files | part |
|---|---|
| `Lir.dfy`, `ControlFlow.dfy`, `DeadCode.dfy`, `SymbolicTraces.dfy`, `ConstantFolding.dfy`, `FoldingWithJumps.dfy`, `EliminationWithJumps.dfy`, `Loops.dfy`, `Optimizer.dfy` | three passes of the LIR optimizer, with machines that run the code before and after |
| `Limbs.dfy`, `Decimals.dfy`, `BigInt.dfy` | arbitrary-precision integers on base 2^64 limb vectors, and their decimal text |
| `Types.dfy`, `TypeLaws.dfy`, `TypeCalls.dfy`, `MiddleTypes.dfy` | the convertibility relation between types, what a yes means for each kind, which of its calls end, and through which types it composes |
| `ImportGraph.dfy`, `ModuleManager.dfy` | module discovery, topological order and cycle detection |
| `ChannelProtocol.dfy`, `Channel.dfy` | the bounded channel and the fibers that wait on it |
| `RuntimeDict.dfy`, `RuntimeKeys.dfy` | the chained hash dictionary on the heap, and its hash and comparison functions |
| `PoolModel.dfy`, `PoolAllocator.dfy` | the pool allocator with its headers and chunks |
| `RegionModel.dfy`, `Region.dfy` | generational regions with reuse pools |
| `ScannerModel.dfy`, `ScannerLaws.dfy`, `Scanner.dfy` | the scanner in its lossless CST mode, and the lexical grammar it follows |
| `Serializer.dfy` | the binary form of a LIR function |
| `Common.dfy` | what several models share |

Code that works in place is a class or a method with loops, proved equal to a specification function; the
properties are lemmas about those functions. What each function answers is also told without it: by the machine that
runs the code, by the grammar, by the order of bytes, or by arithmetic.

Where the code does less than its comments say, the code is modelled as it is, an input shows the failure, and
the condition under which the promise holds is proved, exactly unless it is said here that it is only enough:

- **Dead code elimination.** Liveness adds uses before it removes the destination, so
  `r1 := 7; r2 := r3; r1 := r1 + r2; print r1` loses its first instruction. On straight-line code, prints, calls
  and returned values stay, for every runtime and every start, exactly when a symbolic run of the code before and
  after meets the same terms at every print, call and return, and no action is erased. Erasing no destination that the rest needs is enough
  for that, and so are trustworthy live sets; the live sets cover what is needed exactly when no instruction reads
  its own destination and none that merely carries a destination, such as a print, names a register needed later.
  What is erased is exactly what has a destination that is not live and is not named as a side effect. The list of
  side effects has no offers to channels and no polls, so an offer whose answer nobody reads is never made.
- **Constant folding.** An operation on two known operands that cannot be folded, such as a division by zero,
  leaves the old fact about its destination, which is stale from then on. Products are folded in 64 bits while
  the runtime computes exactly. The registers after every instruction stay the same, on every runtime and from
  every start, exactly when no instruction is folded from a stale fact or to a product beyond 64 bits.
- **Loops.** The two exact conditions above are about straight-line code, because neither pass looks along a jump.
  A counting loop that reaches every number becomes one that never gets past 1, and a loop that prints a register
  and then changes it loses the change. For code with jumps a condition that is enough is proved for each pass.
  Folding changes no step of any run if the recorded facts it uses come along every edge that leads there. After
  elimination, which leaves jump targets alone, the program still goes in step with the original if nothing erased
  is needed along any edge or lies before a jump target. The two loops do not meet these conditions, others do.
- **Limb multiplication.** The old digit and the carry are added in 64 bits before widening. The product is exact
  exactly when none of those sums overflows; otherwise it is too small. It is always exact when one operand has
  a single limb; the square of 2^128 - 1 is wrong. Summed in 128 bits throughout, it is exact for all operands.
- **Convertibility.** The comment at the union rule says that a `T` can be passed for an optional `T?`. A call that
  ends says so exactly when no decimal hides under the refinements and unions of `T`. A call need not end: whether
  a registered frame has a structural type can depend on itself. It always ends if one of the two types has no
  frames inside. In general it ends exactly when it ends within as many nested structural targets as there are
  pairs to ask about. Convertibility composes through plain types, up to the call that does not end: those
  without Any and untyped containers or functions inside, except in unions with a decimal among their members. It
  composes through no others, as long as what is not plain lies under no union but for a single member among types
  without parts, as in an optional `T?`, and under no structural type that names a field twice. Under other unions
  being plain is enough but not needed, and a decimal hidden deeper in the union does not decide it either.
- **Dictionary membership.** A key whose last value is nil reads as absent.
- **Dictionary keys.** The dictionary needs equal keys to hash alike. The functions for integer keys do that for
  integers of all widths, and those for keys of any kind do it as long as no float is among them. Two float objects
  for 1.5 compare as equal but hash to their addresses, so what was set under one is not found under the other.
- **Region deallocation.** It keeps the region's books and gives no block back twice exactly when the pointer is
  live and the type named has the size of the type of creation, or when a block still held goes straight back to
  the manager.
- **Serialization.** Five fields of an instruction are written. Reading undoes writing exactly when both lengths
  fit 32 bits, no instruction carries a type, a name, a constant, a callee, arguments, a comment or a location, and
  the function has nothing else that a new function would not have.
- **Scanning.** Without interpolated strings, tokens and trivia give the source back exactly when no step meets an
  unterminated string, an unknown annotation or an unexpected character. An unknown annotation is emitted twice.

## Model

| member | source | states |
|---|---|---|
| Optimizers.PushSuccessors | src/lir/optimizer.cpp:163-189 | the marks grow by exactly the successors of one instruction, and each newly marked index is queued |
| ControlFlow.EdgesAreSteps | src/lir/optimizer.cpp:163-189 | there is an edge from one index to another if and only if some machine steps from the one to the other |
| ControlFlow.TestsDecide | src/lir/optimizer.cpp:172-183 | of the two edges of a conditional jump the test decides which one the machine takes |
| Optimizers.MarkReachable | src/lir/optimizer.cpp:144-190 | the traversal marks an index if and only if some walk of the instruction graph leads to it from the entry |
| Optimizers.Compact | src/lir/optimizer.cpp:192-201 | the reachable instructions survive in order, and a change is reported exactly if some instruction is unreachable |
| Optimizers.BuildRemap | src/lir/optimizer.cpp:204-209 | each reachable index maps to the number of reachable indices before it, every other to the marker |
| Optimizers.RetargetJumps | src/lir/optimizer.cpp:211-219 | each jump to a reachable index is turned to its new index, and nothing else changes |
| Optimizers.Optimizer.RemoveUnreachableCode | src/lir/optimizer.cpp:141-225 | the function becomes its pruned form, and a change is reported exactly if some instruction is unreachable |
| ControlFlow.PrunedIsReachablePart | src/lir/optimizer.cpp:141-225 | the pruned code lists, in order, every instruction reachable from the entry, with jumps retargeted, and nothing else |
| ControlFlow.PrunedIsFixpoint | src/lir/optimizer.cpp:144-224 | everything in pruned code is reachable, and pruning it again changes nothing |
| ControlFlow.StepRelated | src/lir/optimizer.cpp:203-222 | one step of the original and of the pruned program keeps equal data and a remapped program counter |
| ControlFlow.Lockstep | src/lir/optimizer.cpp:141-225 | after any number of steps, for any meaning of the other opcodes and any start, both programs are in related states |
| ControlFlow.SameObservations | src/lir/optimizer.cpp:141-225 | both programs halt at the same step, the same way and with the same data, or both run on |
| Optimizers.AddUses | src/lir/optimizer.cpp:39-55 | the live set grows by exactly the registers the analysis takes for uses |
| DeadCode.UsesExactly | src/lir/optimizer.cpp:39-55 | used are the operands, the arguments, and the destination of a return or a conditional jump, as far as they are present |
| DeadCode.KillsExactly | src/lir/optimizer.cpp:60-67 | taken for a definition is any destination except that of a return or a jump |
| DeadCode.LiveExactly | src/lir/optimizer.cpp:36-68 | a register is stored as live if and only if it is used right here, or later with no definition from here on in between or at the use itself |
| Optimizers.AnalyzeLiveness | src/lir/optimizer.cpp:20-71 | the backward loop computes the recursive live sets, one per instruction |
| Optimizers.MarkDead | src/lir/optimizer.cpp:108-129 | an instruction is marked exactly if it has no side effect, a destination, and that destination is not live after it |
| DeadCode.ErasedExactCondition | src/lir/optimizer.cpp:108-129 | erased is a computation, an offer, a poll or an unnamed operation, if it has a destination and that is not live after it, and nothing else |
| DeadCode.UnusedOfferIsErased | src/lir/optimizer.cpp:275-293 | an offer to a channel whose answer nobody reads is erased, and the event is missing from every run |
| Optimizers.EraseMarked | src/lir/optimizer.cpp:131-136 | erasing from the back leaves the unmarked instructions in order |
| Optimizers.Optimizer.DeadCodeElimination | src/lir/optimizer.cpp:99-139 | the function becomes its live part, and a change is reported exactly if the code changed |
| DeadCode.LivenessExactCondition | src/lir/optimizer.cpp:36-68 | on straight-line code the live sets cover all needed registers if and only if every destination the analysis removes is a definition the instruction does not read |
| DeadCode.EliminationPreserves | src/lir/optimizer.cpp:99-139 | if only computations are erased, and no erased destination is needed by the code that follows, the trace of prints, calls and actions and the returned values stay the same, for every arithmetic, every reply and every start |
| DeadCode.DefinitionsAreKept | src/lir/optimizer.cpp:36-68 | trustworthy live sets never let a needed definition be erased, where every action is named as a side effect |
| DeadCode.TrustedLivenessPreserves | src/lir/optimizer.cpp:99-139 | so the trace and the returned values stay there |
| DeadCode.SelfReadNeedNotBeCut | src/lir/optimizer.cpp:39-67 | an instruction that reads its own destination can be left alone, although its live sets cannot be trusted |
| SymbolicTraces.EliminationExactCondition | src/lir/optimizer.cpp:99-139 | the trace and the returned values stay, on every runtime and from every start, if and only if no action is erased and both programs read the same terms at every print, call, action and return |
| SymbolicTraces.UnneededErasuresReadSame | src/lir/optimizer.cpp:99-139 | erasing only what the rest does not need meets that condition |
| SymbolicTraces.SelfReadReadsOther | src/lir/optimizer.cpp:39-67 | the four-instruction program below does not |
| DeadCode.SelfReadIsCut | src/lir/optimizer.cpp:39-67 | a four-instruction program that reads its own destination loses the definition it needs |
| DeadCode.SelfReadBreaksElimination | src/lir/optimizer.cpp:39-67 | that program prints 7 before the pass and nil after it |
| Optimizers.Optimizer.ConstantFolding | src/lir/optimizer.cpp:521-577 | one forward pass with a map of known constants leaves the folded code, and a change is reported exactly if the code changed |
| ConstantFolding.SumDifferenceProduct | src/lir/optimizer.cpp:556-558 | a folded sum, difference or product is that number |
| ConstantFolding.QuotientTruncates | src/lir/optimizer.cpp:559 | a folded quotient leaves a remainder smaller than the divisor and with the sign of the dividend |
| ConstantFolding.WrapIsCongruent | src/lir/optimizer.cpp:549-562 | folding stays in 64 bits and is off by a multiple of 2^64 only |
| ConstantFolding.SmallIntsLeaveTagBits | src/runtime/runtime_value_base.h:49-65 | an integer is small if and only if eight times it fits 64 bits |
| ConstantFolding.KnownOperandsAreFolded | src/lir/optimizer.cpp:543-566 | two small constants and an operation defined on them become one constant |
| ConstantFolding.OnlyArithmeticIsRewritten | src/lir/optimizer.cpp:541-566 | rewritten are sums, differences, products and quotients of known small integers, and nothing else |
| ConstantFolding.OneFactChanges | src/lir/optimizer.cpp:525-573 | an instruction changes the fact about its destination only; constants, copies and folded results are known, other results are not |
| ConstantFolding.FoldedIsExact | src/lir/optimizer.cpp:549-562 | a folded result is the exact result, unless it is a product beyond 64 bits |
| ConstantFolding.FoldingPreserves | src/lir/optimizer.cpp:521-577 | if nothing is folded from a stale fact or beyond 64 bits, the registers after every instruction stay the same |
| ConstantFolding.FoldingExactCondition | src/lir/optimizer.cpp:521-577 | the registers after every instruction stay the same, on every runtime and from every start, if and only if nothing is folded from a stale fact or beyond 64 bits |
| ConstantFolding.FactsExactCondition | src/lir/optimizer.cpp:543-573 | all recorded constants are true on every runtime and from every start if and only if no operation leaves a stale fact and no product exceeds 64 bits |
| ConstantFolding.UnreadStaleFactIsHarmless | src/lir/optimizer.cpp:558-559 | a stale fact nothing is folded from leaves every register right |
| ConstantFolding.ZeroDivisorBreaksFolding | src/lir/optimizer.cpp:558-559 | a division by a known zero leaves a stale constant, and a later sum becomes 8 where the runtime computes nil |
| FoldingWithJumps.TrustedFoldingPreserves | src/lir/optimizer.cpp:521-577 | if along every edge the facts used for folding hold, the folded program is at every step where the program is, with the same registers and world, for any runtime, any tests and any start, jumps included |
| FoldingWithJumps.FreshIsTrusted | src/lir/optimizer.cpp:521-577 | on code without jumps the facts that are not stale meet that condition |
| Loops.LoopBreaksFolding | src/lir/optimizer.cpp:525-573 | a counting loop reaches every number before the pass, and after it never gets past 1 at any step |
| Loops.CountIsNotTrusted | src/lir/optimizer.cpp:525-573 | no choice of facts can be trusted in the counting loop |
| Loops.UnchangingLoopIsTrusted | src/lir/optimizer.cpp:525-573 | a loop that does not change what it reads meets the condition and is folded |
| EliminationWithJumps.HarmlessErasurePreserves | src/lir/optimizer.cpp:99-139 | if nothing erased is needed along any edge or lies before a jump target, what is left follows the program: after the steps they share the world is the same, and both halt the same way with the same returned values |
| EliminationWithJumps.EveryTurnIsShared | src/lir/optimizer.cpp:99-139 | each step of what is left is one of those shared, so it neither stops early nor hangs alone |
| EliminationWithJumps.DeadIsErased | src/lir/optimizer.cpp:108-136 | what the pass leaves are the instructions that are not dead, each at the place given by the survivors before it |
| EliminationWithJumps.UnneededErasuresAreHarmless | src/lir/optimizer.cpp:99-139 | on straight-line code erasing only what the rest does not need meets that condition |
| Loops.LoopBreaksElimination | src/lir/optimizer.cpp:33-68 | the second turn of a loop prints 7 before the pass and 0 after it |
| Loops.ShowIsNotHarmless | src/lir/optimizer.cpp:33-68 | no choice of needed registers makes that erasure harmless |
| Loops.SpareCopyIsHarmless | src/lir/optimizer.cpp:99-139 | a copy nobody reads is erased from a loop, and meets the condition |
| Limbs.CanonicalUnique | src/backend/big_int.hh:371-379 | two limb vectors without leading zeros and with the same value are the same vector |
| Limbs.SumValue | src/backend/big_int.hh:1151-1163 | the digits of the carry loop are worth the sum and the carry in |
| Limbs.DifferenceValue | src/backend/big_int.hh:1167-1182 | the digits of the borrow loop are worth the difference when it is not negative |
| Limbs.ColumnBound | src/backend/big_int.hh:1132-1135 | a product of limbs with an old digit and a carry stays below 2^128 |
| Limbs.RowValue | src/backend/big_int.hh:1129-1140 | one row adds the product of a limb and a vector, less the carries lost to 64-bit sums; the last carry lands in a zero slot |
| Limbs.RowsValue | src/backend/big_int.hh:1126-1140 | all rows together are worth the product, less what the rows lost |
| Limbs.ProductExactCondition | src/backend/big_int.hh:1126-1140 | the digits never exceed the product, and equal it if and only if no column sum overflows 64 bits |
| Limbs.OneLimbProductExact | src/backend/big_int.hh:1126-1140 | multiplication with a one-limb operand on either side is exact |
| Limbs.WidenedProductExact | src/backend/big_int.hh:1126-1140 | with product, old digit and carry all summed in 128 bits the same loops give the exact product of any two operands |
| Limbs.SquareOfMaxLosesCarry | src/backend/big_int.hh:1133 | squaring 2^128 - 1 gives too small a value |
| Limbs.TimesTenValue | src/backend/big_int.hh:1085-1094 | the Horner step is worth ten times the value plus the digit |
| Limbs.LongerIsGreater | src/backend/big_int.hh:1186-1188 | of two vectors without leading zeros the longer is the greater |
| Limbs.HighLimbDecides | src/backend/big_int.hh:1190-1194 | for equal lengths the highest differing limb decides |
| BigInts.LargeRep.NormalizeLarge | src/backend/big_int.hh:372-379 | leading zero limbs go, zero is not negative, and the value stays |
| BigInts.LargeRep.AddMagnitude | src/backend/big_int.hh:1147-1164 | the magnitude becomes the sum of the magnitudes, whatever the lengths |
| BigInts.LargeRep.SubtractMagnitude | src/backend/big_int.hh:1166-1183 | the magnitude becomes the difference if the operand is not greater |
| BigInts.LargeRep.CompareMagnitude | src/backend/big_int.hh:1185-1197 | the sign of the result is the order of the values, and zero means the same limbs |
| BigInts.LargeRep.AddLarge | src/backend/big_int.hh:1104-1118 | signed addition is exact and the result is normalized, through all three branches |
| BigInts.LargeRep.SubtractLarge | src/backend/big_int.hh:1120-1124 | signed subtraction is exact and the result is normalized |
| BigInts.LargeRep.MultiplyLarge | src/backend/big_int.hh:1126-1145 | the result is normalized, and is the signed product if and only if no column sum overflows |
| BigInts.AddLimbs | src/backend/big_int.hh:1151-1163 | the carry loop computes the digits of the sum and the carry out of the last limb |
| BigInts.SubtractLimbs | src/backend/big_int.hh:1167-1182 | the borrow loop computes the digits of the difference |
| BigInts.MultiplyRow | src/backend/big_int.hh:1130-1139 | the inner loop adds one row from its index on and leaves the limbs below alone |
| BigInts.MultiplyLimbs | src/backend/big_int.hh:1127-1140 | the nested loops compute the digits of all rows |
| BigInts.LargeRep.ParseLargeRep | src/backend/big_int.hh:1070-1099 | after an optional sign the leading run of digits is read as a decimal number, normalized |
| BigInts.OneSignIsSkipped | src/backend/big_int.hh:1075-1076 | one sign in front of the digits is skipped, plus or minus |
| BigInts.LargeRep.ToStringLarge | src/backend/big_int.hh:1345-1374 | the text is the decimal numeral of the value with a minus sign exactly for negative values |
| BigInts.DigitsBackwards | src/backend/big_int.hh:1350-1366 | repeated short division ends and yields the decimal digits in reverse |
| BigInts.MultiplyByTenAndAdd | src/backend/big_int.hh:1085-1094 | one digit more: ten times the value plus the digit |
| BigInts.DivideByTen | src/backend/big_int.hh:1354-1359 | quotient and remainder of the value by ten |
| BigInts.DropLeadingZeros | src/backend/big_int.hh:1363-1365 | the value stays and no leading zero limb is left |
| BigInts.PrintThenParse | src/backend/big_int.hh:1070-1374 | parsing the printed text of any normalized number gives back its sign and its limbs, and the text has no leading zero |
| Decimals.DecimalRoundTrip | src/backend/big_int.hh:1082-1097 | a decimal numeral reads back as its number and has no leading zero |
| Types.Transitive | src/backend/types.hh:110-424 | if a first type converts to a plain second and that to a third, the call from the first to the third never says no, wherever the calls are cut off; through unions, error unions, refinements, decimals, frames and structural types |
| MiddleTypes.TransitivityExactCondition | src/backend/types.hh:110-424 | conversions compose through a type, for all types on both sides, if and only if it is plain, where what is not plain lies under no union except as the one member with parts, and under no structural type with repeated field names |
| MiddleTypes.BreakingPair | src/backend/types.hh:110-424 | around every such type that is not plain there are two types that show it, at some depth |
| MiddleTypes.PartDecides | src/backend/types.hh:199-421 | between two types that differ in one part the answer is that of the part, turned round for a parameter |
| Types.SealedGoesNowhere | src/backend/types.hh:115-119 | a union with a decimal among its members converts to nothing but itself and Any, under refinements |
| MiddleTypes.UnsettledMayCompose | src/backend/types.hh:329-346 | a union of an untyped list and a union with a decimal is not plain, but conversions compose through it |
| MiddleTypes.HiddenDecimalMayBreak | src/backend/types.hh:329-346 | with an integer list added to the inner union they do not |
| Types.YesComposes | src/backend/types.hh:110-424 | if both calls say yes through a plain type, the call from the first type to the last says yes if and only if it ends |
| Types.TransitiveFunction | src/backend/types.hh:406-421 | the function rule, contravariant in parameters, composes |
| Types.TransitiveStructural | src/backend/types.hh:199-256 | width and depth subtyping composes, from structural types and from frames |
| Types.DeeperRefines | src/backend/types.hh:110-424 | looking deeper can only turn a missing answer into an answer; looking less deep loses none either, if it loses none about the pairs of structural targets |
| Types.OneAnswer | src/backend/types.hh:110-424 | no pair of types gets two answers, wherever the call is cut off |
| TypeCalls.FrameFreeEnds | src/backend/types.hh:110-424 | if one of the two types has no frames inside, the call ends, for any registry and any other type |
| TypeCalls.SelfReferenceNeverEnds | src/backend/types.hh:223-256 | for a frame and a structural type whose methods take each other the call never ends |
| TypeCalls.YesNeedNotCompose | src/backend/types.hh:338-346 | two calls can say yes where the composed one never ends |
| TypeCalls.EndsExactCondition | src/backend/types.hh:110-424 | a call ends if and only if it ends within as many nested structural targets as there are pairs of them it can come across |
| Types.AnyBreaksTransitivity | src/backend/types.hh:112-119 | a decimal converts to Any and Any to an optional Any, but the decimal does not |
| Types.UntypedListBreaksTransitivity | src/backend/types.hh:287-295 | a list without an element type connects any two list types |
| Types.UntypedFunctionBreaksTransitivity | src/backend/types.hh:390-404 | a function type without a signature connects any two results |
| Types.DecimalNeverJoinsUnion | src/backend/types.hh:115-119 | a type that hides a decimal converts to no greater union |
| Types.MemberConvertsExactCondition | src/backend/types.hh:338-346 | the call from a member of a union to the union says yes if and only if it ends and the member hides no decimal, and says no if and only if it ends and the member hides one |
| TypeLaws.ErrorSetsFit | src/backend/types.hh:348-381 | one error union converts to another if and only if the success types do, every error of the first is one of the second, and any error only goes to any error |
| TypeLaws.ErrorsAreNotDropped | src/backend/types.hh:348-387 | an error union converts to no type without errors |
| TypeLaws.FieldsFit | src/backend/types.hh:199-256 | a structural type takes whatever offers each of its fields, with a type that converts in the first place the name stands |
| TypeLaws.OwnFieldsFirst | src/backend/types.hh:223-256 | the own fields of a frame are looked at before the registered ones |
| TypeLaws.ContainersFit | src/backend/types.hh:287-325 | lists convert by elements, dictionaries by keys and values, tuples of equal length place by place |
| TypeLaws.FunctionsFit | src/backend/types.hh:406-421 | a function stands in for one of as many parameters if it takes each argument of it and its result converts |
| TypeLaws.UntypedFits | src/backend/types.hh:287-404 | a container or function type without parts converts both ways with every type of its kind |
| TypeLaws.KindsDoNotMix | src/backend/types.hh:110-424 | between different kinds nothing converts |
| TypeLaws.UnionsFit | src/backend/types.hh:329-346 | a union converts if all members do, anything else goes to a union if some member takes it and none before that is undecided |
| TypeLaws.AtomsFit | src/backend/types.hh:121-197 | of types without parts, numbers convert to numbers of their sort, frames by name or to their traits, enumerations by name |
| TypeLaws.AnyTakesAll | src/backend/types.hh:112-113 | everything converts to Any, and Any to no definite type |
| TypeLaws.DecimalsKeepTheirScale | src/backend/types.hh:115-119 | a decimal converts to decimals of its scale and to Any, and only decimals convert to it |
| ImportGraph.OrderedIsAcyclic | src/frontend/module_manager.cpp:147-171 | no name in an order that puts dependencies first can reach an import cycle |
| ImportGraph.ExtendOrder | src/frontend/module_manager.cpp:161-163 | emitting a name after all its dependencies keeps such an order |
| ImportGraph.CycleOnPath | src/frontend/module_manager.cpp:152 | a grey dependency on the chain of calls closes a cycle |
| ImportGraph.CycleThroughDependency | src/frontend/module_manager.cpp:157-159 | a name whose dependency reaches a cycle reaches it too |
| ModuleManagers.Search.Visit | src/frontend/module_manager.cpp:151-164 | a visit succeeds with the name black, or fails with the name left grey and able to reach a cycle; finished names stay finished |
| ModuleManagers.Search.Check | src/frontend/module_manager.cpp:175-187 | true only if the name can reach a cycle; otherwise the name is black and the greys are again the chain of calls |
| ModuleManagers.ModuleManager.GetTopologicalOrder | src/frontend/module_manager.cpp:147-171 | a loaded module is emitted if and only if it reaches no import cycle; a name never loaded if and only if some loaded module imports it with no import before it that reaches a cycle; each emitted name comes once and after all its dependencies |
| ModuleManagers.ModuleManager.HasCircularDependencies | src/frontend/module_manager.cpp:173-194 | true if and only if some loaded module can reach an import cycle |
| ModuleManagers.ModuleManager.ResolveAll | src/frontend/module_manager.cpp:94-129 | afterwards loaded are the modules loaded before and those with a file that imports lead to from the roots, and no others |
| ModuleManagers.ModuleManager.StartLoads | src/frontend/module_manager.cpp:109-116 | a round picks, once each, the paths that are neither loaded nor in processing |
| ModuleManagers.ModuleManager.LoadModule | src/frontend/module_manager.cpp:36-76 | a module is loaded unless it is there or has no file; its dependencies come back |
| ModuleManagers.ModuleManager.FinishLoads | src/frontend/module_manager.cpp:118-125 | the round's modules are loaded and exactly their dependencies make up the next worklist |
| Channels.Channel.Offer | src/backend/channel.hh:26-39 | the channel and the woken fiber are as the protocol step says; false exactly when closed or full |
| Channels.Channel.Poll | src/backend/channel.hh:42-55 | the oldest value comes out and one sender wakes, or nothing changes |
| Channels.Channel.Send | src/backend/channel.hh:58-77 | the caller queues and suspends when the channel is full and open; otherwise as the protocol step says, with the woken fibers resumed and no other fiber changed |
| Channels.Channel.Recv | src/backend/channel.hh:80-104 | the caller queues and suspends when the channel is empty and open; otherwise as the protocol step says, with the woken fibers resumed and no other fiber changed |
| Channels.Channel.Close | src/backend/channel.hh:107-123 | both queues empty and every waiting fiber resumes |
| ChannelProtocol.OldestComesOut | src/backend/channel.hh:42-104 | whoever takes gets the oldest value, from a closed channel too; only an empty open channel makes a receiver wait |
| ChannelProtocol.RoomAccepts | src/backend/channel.hh:26-77 | an open channel with room accepts, a closed one refuses, only a full open one makes a sender wait |
| ChannelProtocol.LongestWaiterIsWoken | src/backend/channel.hh:26-104 | a value put in wakes the receiver that waited longest, a value taken out the sender that did, and nothing else wakes anybody |
| ChannelProtocol.CloseKeepsValues | src/backend/channel.hh:107-123 | closing leaves the buffer as it is and wakes everybody who waits |
| Channels.SuspendThenResume | src/backend/fiber.hh:40-51 | suspending touches running fibers only, resuming suspended ones only, and the one undoes the other |
| ChannelProtocol.StepKeepsInv | src/backend/channel.hh:26-123 | every call by every enabled fiber keeps conservation, capacity, queue membership and cover of all waiting fibers |
| ChannelProtocol.SendersCovered | src/backend/channel.hh:48-62 | while a sender waits, free slots are at most the senders resumed and yet to retry |
| ChannelProtocol.ReceiversCovered | src/backend/channel.hh:32-37 | while a receiver waits, buffered values are at most the receivers resumed and yet to retry |
| ChannelProtocol.EveryRunIsSafe | src/backend/channel.hh:26-123 | in every interleaving accepted values are taken values followed by the buffer, capacity holds, no wake-up is lost, and nobody waits on a closed channel |
| ChannelProtocol.AcceptedIsTaken | src/backend/channel.hh:79-104 | from every reachable state, closed or not, a free fiber that receives as often as there are values takes all that was accepted, in order |
| ChannelProtocol.SendsAreAccepted | src/backend/channel.hh:57-77 | on an open channel with room the sends of a free fiber are all accepted, in order |
| ChannelProtocol.NeverStuckTogether | src/backend/channel.hh:57-104 | once resumed fibers have retried, senders wait only for a full and receivers only for an empty buffer, never both |
| RuntimeDict.Dict.constructor | src/runtime/runtime_dict.c:11-31 | a new dictionary has no entries and no history |
| RuntimeDict.Dict.Find | src/runtime/runtime_dict.c:36-47 | the chain walk finds an entry with an equal key if there is one anywhere |
| RuntimeDict.Dict.Set | src/runtime/runtime_dict.c:33-59 | the history grows by the assignment; chains, size and entries still represent it, with one entry for each class of keys |
| RuntimeDict.Dict.Get | src/runtime/runtime_dict.c:61-76 | the value last set for an equal key, or nil |
| RuntimeDict.Dict.Contains | src/runtime/runtime_dict.c:78-80 | true exactly if an equal key was set and its last value is not nil |
| RuntimeDict.Dict.Items | src/runtime/runtime_dict.c:98-123 | each class of keys ever set comes out once, with its last value |
| RuntimeDict.Dict.Free | src/runtime/runtime_dict.c:82-96 | every entry is released exactly once |
| RuntimeDict.Dict.OneEntryPerKey | src/runtime/runtime_dict.c:39-47 | two entries with equal keys are the same entry |
| RuntimeDict.LatestOfEqualKeys | src/runtime/runtime_dict.c:61-76 | equal keys have the same last value |
| RuntimeKeys.IntegerKeysAreGood | src/runtime/runtime_dict.c:125-147 | the integer functions meet the contract of the dictionary on values of all widths and kinds whose conversion is defined |
| RuntimeKeys.BoxedKeysAreGood | src/runtime/runtime_dict.c:158-172 | so do the functions for keys of any kind where there are no floats |
| RuntimeKeys.EqualKeysAreTheSame | src/runtime/runtime_value.c:174-184 | without floats, keys are equal if and only if they are one value, texts with the same characters, or integers of one number |
| RuntimeKeys.FloatsCompareAsDoubles | src/runtime/runtime_value.c:174-184 | a float equals whatever number has the same value as a double |
| RuntimeKeys.ComparesNumbers | src/runtime/runtime_dict.c:143-147 | the integer comparison is the sign of the difference of the numbers |
| RuntimeKeys.FloatKeysBreakTheContract | src/runtime/runtime_dict.c:158-176 | two float objects for 1.5 are equal keys in different buckets |
| PoolModel.CarveOk | src/memory/memory.hh:83-88 | the blocks of a chunk are distinct, apart from each other and inside the chunk |
| PoolModel.HistoryKeepsInv | src/memory/memory.hh:75-198 | every lawful history of allocations and frees keeps blocks apart, free lists exact and headers true |
| PoolModel.AllocateKeepsInv | src/memory/memory.hh:156-182 | so does one allocation, from a free list, a grown pool or the system, if malloc returns a free range |
| PoolModel.TakeBackKeepsInv | src/memory/memory.hh:184-198 | so does one deallocation of a block handed out |
| PoolModel.AllocationsApart | src/memory/memory.hh:156-182 | headers and requested bytes of live allocations overlap neither each other nor any free block, and lie inside ranges from malloc |
| PoolModel.AllocationIsNew | src/memory/memory.hh:156-182 | the block handed out was not in use and belongs to the size class of the request with its header |
| PoolModel.NoBlockLost | src/memory/memory.hh:88-121 | freeCount plus the blocks handed out is the number of blocks a pool ever carved |
| PoolModel.BlockReturnsHome | src/memory/memory.hh:184-198 | whatever happens in between, a live block is still held and goes back to the free list of its own pool |
| PoolModel.SmallestFit | src/memory/memory.hh:148-170 | a request goes to the pool with the smallest blocks that hold it, from 4 bytes by doubling to 256, and to the system beyond |
| PoolModel.GrowsByHalf | src/memory/memory.hh:98-100 | a pool grows by half of what its chunks hold, and by 32 blocks if it has none |
| PoolModel.HeaderRecords | src/memory/memory.hh:160-182 | the header records the size of the request, as far as 32 bits go, and the pool of the block |
| PoolModel.LastFreedIsReused | src/memory/memory.hh:104-124 | the block freed last is the first to be handed out again |
| PoolModel.SystemBlockGoesBack | src/memory/memory.hh:184-198 | a block from the system goes back as the range it came from, and nothing else does |
| PoolAllocators.MemoryPool.constructor | src/memory/memory.hh:63-67 | a new pool holds the blocks of its first chunk |
| PoolAllocators.MemoryPool.ExpandPool | src/memory/memory.hh:75-90 | the loop appends the consecutive blocks of one chunk |
| PoolAllocators.MemoryPool.Allocate | src/memory/memory.hh:92-115 | the last free block is taken, after growing by half if there was none |
| PoolAllocators.DefaultAllocator.constructor | src/memory/memory.hh:148-154 | seven pools of 4 to 256 bytes with 128 blocks each |
| PoolAllocators.DefaultAllocator.Allocate | src/memory/memory.hh:156-182 | pools, header and pointer are those of the specification |
| PoolAllocators.DefaultAllocator.Deallocate | src/memory/memory.hh:184-198 | the header routes the block to its pool or to the system; null is ignored |
| RegionModel.RunKeepsInv | src/memory/memory.hh:293-456 | in every run each live object is in exactly the list of its generation, and each pooled block in the pool of its size |
| RegionModel.HeldPartition | src/memory/memory.hh:296-302 | the blocks held are the disjoint union of live objects and pooled blocks |
| RegionModel.CreateKeepsInv | src/memory/memory.hh:326-356 | creation keeps this, from a pool or the manager, also when the object's constructor throws |
| RegionModel.CreateRegisters | src/memory/memory.hh:326-356 | a new object is live in the current scope, in the block of its type freed last or else a new one |
| RegionModel.ThrowLeavesNothing | src/memory/memory.hh:340-352 | if the constructor throws, nothing is live that was not, and the block waits for reuse |
| RegionModel.DeleteForgets | src/memory/memory.hh:359-389 | a deleted object is live no more, and its block waits for reuse or goes back if a thousand do |
| RegionModel.DeletedIsReused | src/memory/memory.hh:326-389 | the object of that type created next gets its block |
| RegionModel.DeallocateExactCondition | src/memory/memory.hh:359-389 | deallocation keeps this and gives nothing back twice if and only if pointer and size match, or the pool is full and the pointer is a held block in no pool |
| RegionModel.RunGivesBackHeld | src/memory/memory.hh:359-389 | no deletion in a run gives a block back that the manager has not handed out or already has |
| RegionModel.ExitFreesTopScope | src/memory/memory.hh:401-431 | exitScope gives back exactly the survivors of the top generation |
| RegionModel.CollectFreesTopScope | src/memory/memory.hh:434-449 | collection gives back exactly the objects of the current scope and stays in it, and does nothing in the outermost scope |
| RegionModel.EnterThenExit | src/memory/memory.hh:396-431 | entering and leaving at once changes nothing, and the outermost scope cannot be left |
| RegionModel.ScopesAreBracketed | src/memory/memory.hh:396-431 | whatever happens inside a scope, nothing created inside is live after it, and every outer object nobody deleted is, in its own generation |
| Regions.Region.Create | src/memory/memory.hh:326-356 | the maps, the manager and the pointer are those of the specification |
| Regions.Region.Deallocate | src/memory/memory.hh:359-389 | the maps and the manager are those of the specification, whatever size is named |
| Regions.Region.EnterScope | src/memory/memory.hh:396-399 | a new empty generation is on top |
| Regions.Region.ExitScope | src/memory/memory.hh:401-431 | the loop over the top generation leaves the state of the specification |
| Regions.Region.CollectGarbage | src/memory/memory.hh:434-449 | the current generation is emptied and its blocks are given back |
| Regions.Region.Destroy | src/memory/memory.hh:310-324 | each block still held is given back once, and none is held afterwards |
| Serializers.RoundTrip | src/lir/serializer.cpp:10-74 | whatever bytes follow, a function that fits reads back with its name, counts and the five written fields of each instruction and new everything else, and reading takes exactly the bytes written |
| Serializers.RoundTripExactCondition | src/lir/serializer.cpp:10-74 | reading undoes writing if and only if both lengths fit 32 bits and neither the function nor an instruction carries anything that is not written |
| Serializers.TypesAreLost | src/lir/lir.hh:254-271 | a function with a typed instruction does not come back |
| Serializers.PartsInOrder | src/lir/serializer.cpp:10-36 | length of the name, name, parameters, registers, number of instructions and the instructions stand at their offsets |
| Serializers.FieldsInOrder | src/lir/serializer.cpp:26-34 | op, destination, operands and immediate stand in that order in the 17 bytes |
| Serializers.LowestByteFirst | src/lir/serializer.cpp:13-33 | words stand with their lowest byte first |
| Serializers.ReadIsWritten | src/lir/serializer.cpp:40-74 | the bytes taken by any successful read are the serialized form of its result |
| Serializers.CutShort | src/lir/serializer.cpp:40-74 | a serialized function that is cut short makes the reader run past the end |
| Serializers.ReadInstAt | src/lir/serializer.cpp:26-34 | an instruction is read from an offset exactly when its 17 bytes stand there |
| Serializers.Serializer.Serialize | src/lir/serializer.cpp:10-38 | the loop appends exactly the serialized form |
| Serializers.Serializer.Deserialize | src/lir/serializer.cpp:40-74 | the running offset reads exactly the specified function, or stops where it would pass the end |
| Scanners.NormalizeLineEndings | src/frontend/scanner.cpp:8-26 | the loop computes the normalized text |
| ScannerModel.NormalizedHasNoReturn | src/frontend/scanner.cpp:8-26 | no carriage return is left |
| ScannerModel.NormalizedIsIdentity | src/frontend/scanner.cpp:8-26 | normalization changes nothing if and only if there is no carriage return |
| ScannerModel.NormalizedTwice | src/frontend/scanner.cpp:8-26 | normalizing again changes nothing |
| ScannerLaws.LineEndings | src/frontend/scanner.cpp:8-26 | each of the three line endings becomes one, every other character stays, and pieces are normalized one by one |
| Scanners.Scanner.Number | src/frontend/scanner.cpp:593-658 | digits, fraction, exponent with backtracking and time suffix end where specified, with the specified kind |
| Scanners.Scanner.Exponent | src/frontend/scanner.cpp:608-629 | an exponent without digits leaves the position where it was |
| Scanners.Scanner.String | src/frontend/scanner.cpp:399-572 | the string closes, runs out or turns out interpolated where specified, escapes included |
| Scanners.Scanner.LooksLikeInterpolation | src/frontend/scanner.cpp:474-493 | the lookahead loop decides as specified |
| Scanners.Scanner.AnnotationText | src/frontend/scanner.cpp:256-286 | a known annotation is one token, an unknown one two with the same text |
| Scanners.Scanner.BlockComment | src/frontend/scanner.cpp:1202-1217 | a block comment ends after the next star and slash, or at the end |
| Scanners.Scanner.ScanToken | src/frontend/scanner.cpp:62-254 | one step moves and extends tokens and trivia as specified |
| Scanners.Scanner.ScanTokens | src/frontend/scanner.cpp:32-60 | the loop scans the whole source unless it meets an interpolated string |
| ScannerLaws.StepsAreGrammatical | src/frontend/scanner.cpp:62-254 | every step has gone over a lexeme of the grammar: trivia, strings, words, numbers, annotations and operators as long as they can be |
| ScannerLaws.CharacterClasses | src/frontend/scanner.cpp:385-397 | letters are those of ASCII with the underscore, digits the ten, blanks space, tab and carriage return |
| ScannerLaws.FirstBareQuoteCloses | src/frontend/scanner.cpp:399-572 | a string ends with the first quote that an even number of backslashes stands before, unless an interpolation opens first |
| ScannerLaws.CommentEndsFirst | src/frontend/scanner.cpp:1202-1217 | a block comment ends behind the first star and slash, or at the end if there is none |
| ScannerLaws.OperatorIsLongest | src/frontend/scanner.cpp:62-254 | an operator is the longest that stands there |
| ScannerLaws.NumberIs | src/frontend/scanner.cpp:593-658 | a number is digits, perhaps a fraction, an exponent with digits and a time suffix, and its kind tells which |
| ScannerLaws.InterpolationLooksLike | src/frontend/scanner.cpp:474-493 | braces hold an interpolation if and only if something other than digits, commas and spaces stands in them |
| ScannerLaws.StepsBecomeTokens | src/frontend/scanner.cpp:53-60 | a kept lexeme becomes the next token with the waiting trivia before it, held text waits behind the rest |
| ScannerModel.NextAdvances | src/frontend/scanner.cpp:53-56 | every step moves on, and passes the end only in an unterminated string |
| ScannerModel.CleanScanTiles | src/frontend/scanner.cpp:53-60 | without lossy steps the spans of tokens and trivia tile the source, and each lexeme is its span |
| ScannerModel.NeverCatchesUp | src/frontend/scanner.cpp:279-284 | once an annotation was emitted twice, no continuation of the source makes the output equal to it again |
| ScannerModel.LosslessExactCondition | src/frontend/scanner.cpp:32-60 | a source without interpolated strings is given back if and only if no step is lossy |

## Left out

- Jump targets: `imm` is taken as the instruction index, as the pass itself takes it; the virtual machine and the other back ends read operands and label numbers differently and are not part of this model.
- Loop counters of C type `int` over instructions and limbs: vectors longer than 2^31 are not modelled.
- The peephole passes, `dead_code_elimination_simple` and the whole `optimize` pipeline: they delete definitions on the assumption that an intermediate register is dead.
- EliminationPreserves: straight-line code; with jumps, HarmlessErasurePreserves and TrustedFoldingPreserves give conditions that are enough. They are not exact: two paths with other operands may happen to give the folded result, and an erased register may be read where it makes no difference.
- FoldingPreserves: code without jumps; TrustedFoldingPreserves is about all programs.
- EliminationWithJumps: an action may read both operands and all arguments; the operands of opcodes that neither the optimizer nor the list of actions names are not part of this model, and a program that can reach one does not meet the condition.
- `divide_large`, `modulo_large`, the float storage and the switching between storage tiers of big integers.
- Aliasing of the two operands of a big-integer operation: callers pass a second object.
- CanConvert: a type is a finite value, so a type object that contains itself by pointer is not modelled; the registries of implemented traits and frame fields are parameters; an error union, union, enumeration, frame or structural type whose tag carries no description is left out.
- Transitive: frames keep their fields in the registry, as `createFrameType` leaves them; two frame types of one name with different fields of their own are left out.
- TransitivityExactCondition: for other unions and for structural types that name a field twice only one direction holds, as UnsettledMayCompose shows; which of them compose depends on how the members relate to each other.
- Parsing of source files, the module search path and the threads of module loading: the table of files is a parameter and the loads of one round happen one after the other.
- LoadModule: the lexical order in which parallel loads finish is not modelled; the result does not depend on it.
- Fiber states before the first run, the scheduler and fairness: a step of the protocol is one whole call.
- Dict: the hash and comparison functions are parameters with the contract that equality is an equivalence and equal keys hash equally, which float keys do not meet; failing malloc and null dictionaries are left out.
- RuntimeKeys: NaN, the pair of functions for string keys alone, and the rounding of integers to double, which is a parameter.
- Alignment, the spin lock and the release of chunks by a pool's destructor; malloc always succeeds. Sizes are unbounded, except for the size field of a header.
- Object destructors that throw, references into a region and their generation check, audit mode, and a manager shared by several regions.
- DefaultAllocator.Deallocate: the pointer has a header, as the source demands of its callers.
- Interpolated strings: the scan stops at the first one, as its sub-scanner works in another mode. Line numbers, keyword and operator names of tokens, and the mode without trivia are left out.
- Serializer: the language types, the flow graph and the debug information of a function are told apart by a number only; the op codes are bytes, and words are written as on a little-endian machine.
- Deserialize: what the source reads beyond the end of a short buffer is not defined; the model stops there.
