# retdec llvmir2hll core, modelled in Dafny

This project models part of the back end of the retdec decompiler (llvmir2hll), which turns LLVM IR into a high-level IR and then into C-like code. The modelled parts are:

- **The IR node layer.** IR nodes are heap objects that record which composite nodes observe them.
  - `UForLoopStmt` (the universal for loop) and `CallStmt` rewire their slots through setters, `update` and `replace`.
  - The node classes also provide structural equality (`isEqualTo`), `clone` and `asExpression`.
- **`OrOpExpr` and `EqOpExpr`.** Creation, structural equality, clone and result type.
- **`SimplifyArithmExprOptimizer`.** Its construction, its sub-optimizer loop, its visit overrides, and the two repeat-until-unchanged loops of `doOptimization`.
- **`GlobalVarsSorter::sortByInterdependencies`.** Orders global variable definitions so that every initializer refers only to variables defined before it, breaking ties by original name.
- **`skipDerefs`, `skipAddresses` and `isWhileTrueLoop`.** The IR helpers.

Files:
- `syntax.dfy`: expressions, statements, variables and types as datatypes, with structural equality.
- `values.dfy`: the heap node class `Value`. Its class and operands are fixed at creation; a ghost set of observers changes.
- `ufor_loop_stmt.dfy`, `call_stmt.dfy`: the two statement classes.
- `or_op_expr.dfy`, `eq_op_expr.dfy`: the two operator nodes.
- `simplify_arithm_expr_optimizer.dfy`: the optimizer driver.
  - The sub-optimizers' `tryOptimize` is a parameter.
  - A walk is the function `VisitExpr`; the optimizer's methods are proved against it.
- `global_vars_sorter.dfy`: the sort as a total function returning `Option`, its properties, and the unit-test scenarios.
- `ir_utils.dfy`: the three helpers and their test scenarios.

## Model

| member | source | states |
|---|---|---|
| Syntax.ExprEqual | src/llvmir2hll/ir/or_op_expr.cpp:23-29 | only identical trees are structurally equal |
| Syntax.ExprEqualIsEquality | src/llvmir2hll/ir/or_op_expr.cpp:23-29 | structural equality of node trees holds exactly for identical trees (reflexive, and nothing else is equal) |
| Values.ShapeEqual | src/llvmir2hll/ir/ufor_loop_stmt.cpp:42-51 | two expression nodes are equal iff their trees are identical; two statement nodes iff the statements are, whatever follows them; an expression never equals a statement; every node equals itself |
| Values.Value.Create | src/llvmir2hll/ir/or_op_expr.cpp:52-64 | a created node has the given class, operands and metadata, no observers, and is added to the observers of each operand |
| Values.Value.Clone | src/llvmir2hll/ir/or_op_expr.cpp:31-36 | clone is a fresh node of the same class and metadata over fresh operand clones, observing its operands and observed by nobody |
| OrOpExprs.CreateOrOp | src/llvmir2hll/ir/or_op_expr.cpp:52-64 | a fresh "or" node over the two operands, in order, registered as observer of each |
| OrOpExprs.CloneOrOp | src/llvmir2hll/ir/or_op_expr.cpp:31-36 | the clone is a fresh "or" node over fresh operand clones with the same metadata, structurally equal to the original |
| OrOpExprs.OrOpType | src/llvmir2hll/ir/or_op_expr.cpp:38-41 | the result type is the 1-bit integer type |
| OrOpExprs.OrOpIsEqualTo | src/llvmir2hll/ir/or_op_expr.cpp:23-29 | equal iff the other node is an "or" with equal first and equal second operands |
| OrOpExprs.OrOpNeverEqualsOtherKind | src/llvmir2hll/ir/or_op_expr.cpp:23-29 | never equal to a node of another class |
| OrOpExprs.OrOpIsNotCommutative | src/llvmir2hll/ir/or_op_expr.cpp:23-29 | swapping two different operands gives an unequal node |
| EqOpExprs.CreateEqOp | src/llvmir2hll/ir/eq_op_expr.cpp:52-64 | a fresh "==" node over the two operands, in order, registered as observer of each |
| EqOpExprs.CloneEqOp | src/llvmir2hll/ir/eq_op_expr.cpp:31-36 | the clone is a fresh "==" node over fresh operand clones with the same metadata, structurally equal to the original |
| EqOpExprs.EqOpType | src/llvmir2hll/ir/eq_op_expr.cpp:38-41 | the result type is the 1-bit integer type |
| EqOpExprs.EqOpIsEqualTo | src/llvmir2hll/ir/eq_op_expr.cpp:23-29 | equal iff the other node is "==" with operands equal position by position |
| EqOpExprs.EqOpNeverEqualsOtherKind | src/llvmir2hll/ir/eq_op_expr.cpp:23-29 | never equal to a node of another class |
| EqOpExprs.EqOpIsNotCommutative | src/llvmir2hll/ir/eq_op_expr.cpp:23-29 | swapping two different operands gives an unequal node |
| UForLoopStmts.UpdateTarget | src/llvmir2hll/ir/ufor_loop_stmt.cpp:236-257 | the slot update rewrites: the body iff subject is the body and arg a statement; else, for an expression arg, the first of init, cond, step holding subject; none otherwise |
| UForLoopStmts.ReplacedParts | src/llvmir2hll/ir/ufor_loop_stmt.cpp:53-71 | after replace, init and step hold newExpr where they held oldExpr; cond, body and flag are unchanged |
| UForLoopStmts.ForwardedParts | src/llvmir2hll/ir/ufor_loop_stmt.cpp:53-71 | the parts handed the request are present slots not holding oldExpr |
| UForLoopStmts.UForLoopStmt.Create | src/llvmir2hll/ir/ufor_loop_stmt.cpp:190-216 | the loop holds the given parts and successor, flag false, and is added to the observers of every present part and the body; among nodes that existed before, it observes exactly its parts |
| UForLoopStmts.UForLoopStmt.SetInit | src/llvmir2hll/ir/ufor_loop_stmt.cpp:112-118 | only init changes; the new part gains the loop as observer, the old part loses it; validity, and observing exactly the held nodes, kept when the old part sat in no other slot |
| UForLoopStmts.UForLoopStmt.SetCond | src/llvmir2hll/ir/ufor_loop_stmt.cpp:126-132 | as SetInit for cond |
| UForLoopStmts.UForLoopStmt.SetStep | src/llvmir2hll/ir/ufor_loop_stmt.cpp:140-146 | as SetInit for step |
| UForLoopStmts.UForLoopStmt.SetBody | src/llvmir2hll/ir/ufor_loop_stmt.cpp:154-160 | only the body changes, the observer edge moves, and validity and exact observation are always kept |
| UForLoopStmts.UForLoopStmt.IsInitDefinition | src/llvmir2hll/ir/ufor_loop_stmt.cpp:165-167 | returns the flag |
| UForLoopStmts.UForLoopStmt.MarkInitAsDefinition | src/llvmir2hll/ir/ufor_loop_stmt.cpp:173-175 | the flag becomes true and nothing else changes, so a second call has no effect |
| UForLoopStmts.UForLoopStmt.Update | src/llvmir2hll/ir/ufor_loop_stmt.cpp:236-257 | exactly the slot UpdateTarget picks becomes arg; arg gains the loop, the replaced part loses it, every other held part keeps its observers; with no target nothing changes; validity and exact observation kept when the subject sits in one slot |
| UForLoopStmts.UForLoopStmt.Replace | src/llvmir2hll/ir/ufor_loop_stmt.cpp:53-71 | the slots become ReplacedParts (cond keeps oldExpr); the request goes to ForwardedParts, whose own observers stay as they were; the observer sets of oldExpr and newExpr change only by this loop's own edge (gained where init or step took newExpr; the forwarded replace beneath a part is not modelled); validity and exact observation kept unless oldExpr sat in both cond and step |
| UForLoopStmts.UForLoopStmt.AsExpression | src/llvmir2hll/ir/ufor_loop_stmt.cpp:73-76 | always null |
| UForLoopStmts.UForLoopStmt.IsEqualTo | src/llvmir2hll/ir/ufor_loop_stmt.cpp:42-51 | true only for another universal for loop, always for the loop itself, and between well-typed loops exactly when the other has all parts and init, cond, step and body describe identical trees |
| UForLoopStmts.UForLoopStmt.Clone | src/llvmir2hll/ir/ufor_loop_stmt.cpp:29-40 | a fresh valid loop over fresh part clones, no successor, same address and metadata, flag cleared, equal to the original both ways |
| UForLoopStmts.IsEqualToIgnoresSuccessorAndFlag | src/llvmir2hll/ir/ufor_loop_stmt.cpp:42-51 | loops over the same parts are equal whatever their successors, flags, addresses and metadata |
| CallStmts.CallStmt.Create | src/llvmir2hll/ir/call_stmt.cpp:81-93 | wraps the call with the given successor and registers as its observer; among nodes that existed before, it observes exactly its call |
| CallStmts.CallStmt.SetCall | src/llvmir2hll/ir/call_stmt.cpp:63-69 | the call slot becomes the new call, the observer edge moves from the old call to it, and the statement still observes exactly its call |
| CallStmts.CallStmt.Update | src/llvmir2hll/ir/call_stmt.cpp:112-120 | the call changes iff subject is the current call and arg is a call, and then arg gains the statement and the old call loses it; otherwise no observer set changes; exact observation kept |
| CallStmts.CallStmt.Replace | src/llvmir2hll/ir/call_stmt.cpp:38-44 | swaps the call iff oldExpr is the call and newExpr a call, moving the observer edge; otherwise the request is handed to the call and the statement's own edges to the call and to newExpr stay as they were (the forwarded replace beneath the call is not modelled); exact observation kept |
| CallStmts.CallStmt.AsExpression | src/llvmir2hll/ir/call_stmt.cpp:46-48 | exactly the wrapped call |
| CallStmts.CallStmt.IsEqualTo | src/llvmir2hll/ir/call_stmt.cpp:23-29 | true only for another call statement, always for the statement itself, and between statements wrapping calls exactly when the calls describe identical trees |
| CallStmts.CallStmt.Clone | src/llvmir2hll/ir/call_stmt.cpp:31-36 | a fresh valid statement over a fresh call clone, no successor, same address and metadata, equal to the original both ways |
| CallStmts.IsEqualToIgnoresSuccessor | src/llvmir2hll/ir/call_stmt.cpp:23-29 | statements over the same call are equal whatever their successors |
| SimplifyArithmExprOptimizers.Offer | src/llvmir2hll/optimizer/optimizers/simplify_arithm_expr_optimizer.cpp:159-161 | handing the node to one more sub-optimizer ORs its report into the flag; the node leaves the tree iff it is replaced; once detached, later offers of the node do not change what stands in the tree, trees being unshared values here |
| SimplifyArithmExprOptimizers.TryAll | src/llvmir2hll/optimizer/optimizers/simplify_arithm_expr_optimizer.cpp:158-163 | when no sub-optimizer reports a change the node stays as it was; while the node is in the tree, the tree holds the node as last rewritten |
| SimplifyArithmExprOptimizers.TryAllChangedIff | src/llvmir2hll/optimizer/optimizers/simplify_arithm_expr_optimizer.cpp:158-163 | the change flag is set iff some sub-optimizer reports a change on the node as it is handed it |
| SimplifyArithmExprOptimizers.TryAllAttachedIff | src/llvmir2hll/optimizer/optimizers/simplify_arithm_expr_optimizer.cpp:158-163 | the node stays in the tree iff no sub-optimizer replaces it |
| SimplifyArithmExprOptimizers.TryAllFirstReplacementWins | src/llvmir2hll/optimizer/optimizers/simplify_arithm_expr_optimizer.cpp:158-163 | once the node is replaced, the tree holds the replacement of the first sub-optimizer that replaced it (trees as unshared values) |
| SimplifyArithmExprOptimizers.TryAllComposesInPlaceRewrites | src/llvmir2hll/optimizer/optimizers/simplify_arithm_expr_optimizer.cpp:158-163 | when sub-optimizers only rewrite beneath the node, every rewrite takes effect in turn, as the reference chain InPlaceChain says |
| SimplifyArithmExprOptimizers.TwoInPlaceRewritesCompose | src/llvmir2hll/optimizer/optimizers/simplify_arithm_expr_optimizer.cpp:158-163 | two in-place rewrites in a row: the second acts on the first one's result and both stay |
| SimplifyArithmExprOptimizers.VisitExpr | src/llvmir2hll/optimizer/optimizers/simplify_arithm_expr_optimizer.cpp:82-148 | a walk that reports no change returns the expression unchanged |
| SimplifyArithmExprOptimizers.VisitExprs | src/llvmir2hll/optimizer/optimizers/simplify_arithm_expr_optimizer.cpp:82-148 | a walk over a list keeps its length, and returns it unchanged when reporting no change |
| SimplifyArithmExprOptimizers.OfferedNodes | src/llvmir2hll/optimizer/optimizers/simplify_arithm_expr_optimizer.cpp:82-148 | every node a walk offers to the sub-optimizers is of one of the seventeen overridden classes |
| SimplifyArithmExprOptimizers.VisitChangedIff | src/llvmir2hll/optimizer/optimizers/simplify_arithm_expr_optimizer.cpp:82-148 | a walk reports a change iff some offered node is rewritten by some sub-optimizer |
| SimplifyArithmExprOptimizers.VisitsChangedIff | src/llvmir2hll/optimizer/optimizers/simplify_arithm_expr_optimizer.cpp:82-148 | the same for a list of expressions |
| SimplifyArithmExprOptimizers.NoSubOptimizersNoChange | src/llvmir2hll/optimizer/optimizers/simplify_arithm_expr_optimizer.cpp:158-163 | with no sub-optimizers a walk changes nothing |
| SimplifyArithmExprOptimizers.NoSubOptimizersStopAtOnce | src/llvmir2hll/optimizer/optimizers/simplify_arithm_expr_optimizer.cpp:62-67 | with no sub-optimizers the first walk already reports no change, so no repetition uses up its fuel and the optimization always converges |
| SimplifyArithmExprOptimizers.NothingOfferedNoChange | src/llvmir2hll/optimizer/optimizers/simplify_arithm_expr_optimizer.cpp:82-148 | an expression with no node of an overridden class is left alone |
| SimplifyArithmExprOptimizers.FixpointIsStable | src/llvmir2hll/optimizer/optimizers/simplify_arithm_expr_optimizer.cpp:62-67 | once a walk reports no change, further walks return the same expression |
| SimplifyArithmExprOptimizers.SimplifyArithmExprOptimizer.constructor | src/llvmir2hll/optimizer/optimizers/simplify_arithm_expr_optimizer.cpp:48-55 | the optimizer holds one sub-optimizer per registered id, in order, all with the given evaluator |
| SimplifyArithmExprOptimizers.SimplifyArithmExprOptimizer.CreateSubOptimizers | src/llvmir2hll/optimizer/optimizers/simplify_arithm_expr_optimizer.cpp:171-183 | appends exactly one sub-optimizer per registered id, in registry order, keeping the existing ones |
| SimplifyArithmExprOptimizers.SimplifyArithmExprOptimizer.TryOptimizeInSubOptimizations | src/llvmir2hll/optimizer/optimizers/simplify_arithm_expr_optimizer.cpp:158-163 | hands the node as it now reads to every sub-optimizer in order; returns what then stands in the tree (TryAll) and ORs each report into the flag, never clearing it |
| SimplifyArithmExprOptimizers.SimplifyArithmExprOptimizer.Visit | src/llvmir2hll/optimizer/optimizers/simplify_arithm_expr_optimizer.cpp:82-148 | computes VisitExpr and ORs its change into the flag |
| SimplifyArithmExprOptimizers.SimplifyArithmExprOptimizer.VisitAll | src/llvmir2hll/optimizer/optimizers/simplify_arithm_expr_optimizer.cpp:82-148 | computes VisitExprs and ORs its change into the flag |
| SimplifyArithmExprOptimizers.SimplifyArithmExprOptimizer.RepeatOnInit | src/llvmir2hll/optimizer/optimizers/simplify_arithm_expr_optimizer.cpp:62-67 | the initializer becomes its k-fold walk for some k within fuel; the loop stops before the fuel runs out exactly when a walk reports no change: if it reports a fixpoint, one more walk changes nothing and the flag is clear, and otherwise each of the fuel walks reported a change and the result is the fuel-fold walk |
| SimplifyArithmExprOptimizers.SimplifyArithmExprOptimizer.RepeatOnBody | src/llvmir2hll/optimizer/optimizers/simplify_arithm_expr_optimizer.cpp:74-78 | the same for the body of one function definition: a fixpoint with the flag clear, or else fuel walks that each reported a change |
| SimplifyArithmExprOptimizers.SimplifyArithmExprOptimizer.OptimizeGlobals | src/llvmir2hll/optimizer/optimizers/simplify_arithm_expr_optimizer.cpp:59-68 | each initializer becomes its k-fold walk for some k within fuel; on convergence each is a fixpoint and the flag is clear; without convergence some initializer used up all fuel walks, each reporting a change |
| SimplifyArithmExprOptimizers.SimplifyArithmExprOptimizer.OptimizeFunctions | src/llvmir2hll/optimizer/optimizers/simplify_arithm_expr_optimizer.cpp:71-79 | the same for function bodies (without convergence some body used up all fuel walks, each reporting a change); declarations are kept as they are |
| SimplifyArithmExprOptimizers.SimplifyArithmExprOptimizer.DoOptimization | src/llvmir2hll/optimizer/optimizers/simplify_arithm_expr_optimizer.cpp:57-80 | globals then functions are rewritten as above; on convergence everything is a fixpoint and the flag ends false; otherwise some initializer or body used up all fuel walks, each reporting a change |
| GlobalVarsSorting.LexTotal | tests/llvmir2hll/support/global_vars_sorter_tests.cpp:55-95 | the name order used for ties is total |
| GlobalVarsSorting.LexAntisymmetric | tests/llvmir2hll/support/global_vars_sorter_tests.cpp:55-95 | the name order is antisymmetric |
| GlobalVarsSorting.LexTransitive | tests/llvmir2hll/support/global_vars_sorter_tests.cpp:55-95 | the name order is transitive |
| GlobalVarsSorting.BestReady | tests/llvmir2hll/support/global_vars_sorter_tests.cpp:122-181 | the definition picked next is ready; none is picked only when none is ready |
| GlobalVarsSorting.BestReadyIsMinimal | tests/llvmir2hll/support/global_vars_sorter_tests.cpp:55-95 | the picked definition has the least original name among ready ones, and the first such |
| GlobalVarsSorting.SortByInterdependencies | tests/llvmir2hll/support/global_vars_sorter_tests.cpp:31-209 | the sort: repeatedly takes the ready definition (no dependency on a remaining one) with the least original name, the first among equal names, and gives None when no remaining definition is ready; a result has the input's length and the empty input succeeds. Its guarantees are the lemmas SortIsOrderedPermutation, SortSomeIff and SortIdempotent |
| GlobalVarsSorting.SortIsOrderedPermutation | tests/llvmir2hll/support/global_vars_sorter_tests.cpp:141-146 | a result is a permutation of the input in which no definition depends on a later one |
| GlobalVarsSorting.SortSucceedsWhenOrderExists | tests/llvmir2hll/support/global_vars_sorter_tests.cpp:122-181 | whenever some dependency-respecting arrangement exists, the sort finds one |
| GlobalVarsSorting.SortSomeIff | tests/llvmir2hll/support/global_vars_sorter_tests.cpp:122-181 | the sort succeeds iff a dependency-respecting arrangement exists |
| GlobalVarsSorting.SortPicksLeastReady | tests/llvmir2hll/support/global_vars_sorter_tests.cpp:55-95 | the first result is a ready input definition of least original name |
| GlobalVarsSorting.SortIdempotent | tests/llvmir2hll/support/global_vars_sorter_tests.cpp:97-120 | sorting a sorted result gives it back unchanged; the test checks one instance, an already ordered pair, and idempotence holds only of the sort's outputs (see "## Left out") |
| GlobalVarsSorting.NoDependenciesSortedByName | tests/llvmir2hll/support/global_vars_sorter_tests.cpp:55-95 | without dependencies the result is ordered by original name |
| GlobalVarsSorting.EmptyInputGivesEmptyOutput | tests/llvmir2hll/support/global_vars_sorter_tests.cpp:31-38 | empty input, empty output |
| GlobalVarsSorting.SingleDefinitionIsReturned | tests/llvmir2hll/support/global_vars_sorter_tests.cpp:40-52 | one definition comes back as it is |
| GlobalVarsSorting.UnrelatedDefinitionsOrderedByOriginalName | tests/llvmir2hll/support/global_vars_sorter_tests.cpp:55-95 | a, b, c renamed z, y, x still come out a, b, c |
| GlobalVarsSorting.OrderedPairUntouched | tests/llvmir2hll/support/global_vars_sorter_tests.cpp:97-120 | `a; b = a` is returned unchanged |
| GlobalVarsSorting.ReversedPairReordered | tests/llvmir2hll/support/global_vars_sorter_tests.cpp:122-147 | `b = a; a` becomes `a; b = a` |
| GlobalVarsSorting.ChainReordered | tests/llvmir2hll/support/global_vars_sorter_tests.cpp:149-181 | `b = a; a; c = b` becomes a, b, c |
| GlobalVarsSorting.NestedReferenceReordered | tests/llvmir2hll/support/global_vars_sorter_tests.cpp:183-209 | `*b = &a; a` becomes `a; *b = &a`: a reference under address-of counts |
| IrUtils.SkipDerefs | tests/llvmir2hll/utils/ir_tests.cpp:33-53 | the result is not a dereference, a non-dereference is returned as is, and wrapping the result in the counted layers gives the input back |
| IrUtils.SkipDerefsOfWrapped | tests/llvmir2hll/utils/ir_tests.cpp:39-45 | stripping n dereferences put around a non-dereference gives it back, and exactly n are counted |
| IrUtils.SkipDerefsScenarios | tests/llvmir2hll/utils/ir_tests.cpp:33-53 | `x` and `*x` give `x`, `&*x` is unchanged |
| IrUtils.SkipAddresses | tests/llvmir2hll/utils/ir_tests.cpp:59-79 | as SkipDerefs for address-of |
| IrUtils.SkipAddressesOfWrapped | tests/llvmir2hll/utils/ir_tests.cpp:65-71 | stripping n address-of layers put around a non-address-of gives it back |
| IrUtils.SkipAddressesScenarios | tests/llvmir2hll/utils/ir_tests.cpp:59-79 | `x` and `&x` give `x`, `*&x` is unchanged |
| IrUtils.IsWhileTrueLoop | tests/llvmir2hll/utils/ir_tests.cpp:85-99 | true iff the loop condition is the constant true |
| IrUtils.IsWhileTrueLoopScenarios | tests/llvmir2hll/utils/ir_tests.cpp:85-99 | `while (true)` is one, `while (false)` and `while (1)` are not |

## Left out

- The recursive `replace` inside a child expression is not modelled. A node's operands are fixed at creation. `Replace` on both statements returns, as a ghost result, the parts it hands the request to.
- Function bodies are modelled as the list of their expressions in walk order. The statement walk, `restart()` and the visitor's double dispatch are not modelled.
- SimplifyArithmExprOptimizer.DoOptimization: each repeat-until-unchanged loop is bounded by a fuel parameter. `converged` is true iff every loop ended because a walk changed nothing: when it is false, some loop did all its fuel walks and each reported a change. The source gives no termination guarantee.
- A global without an initializer takes one round that only clears the flag. This matches the source's single `do` iteration.
- The sub-optimizers' rewrites and the evaluator are parameters. The factory's registry is the `registered` list, in its order.
- Observer lists are modelled as sets. A part held in two slots of one loop loses its registration when one slot is overwritten.
  - UForLoopStmts.UForLoopStmt.SetInit keeps `Valid()` only when the old part is not aliased in another slot; SetCond and SetStep are the same.
  - UForLoopStmts.UForLoopStmt.Update keeps `Valid()` only when the subject occupies one expression slot.
  - UForLoopStmts.UForLoopStmt.Replace keeps `Valid()` except when oldExpr sits in both cond and step and differs from newExpr.
- UForLoopStmts.UForLoopStmt.SetInit, SetCond and SetStep require the old slot to be present, because the source unregisters from it unconditionally.
- UForLoopStmts.UForLoopStmt.Replace: the source forwards the request to each part that is not oldExpr (`init->replace`, `cond->replace`, `step->replace`), and that child replace moves observer edges of the nodes beneath the part (with cond `i < n`, `replace(i, j)` makes j gain the `<` node and i lose it). The child replace is not modelled, so the observer sets stated for oldExpr, newExpr and the forwarded parts leave out every edge it moves; only this loop's own edges are the source's.
- CallStmts.CallStmt.Replace: when the call is not swapped, the source forwards the request to the call (`call->replace`), which moves observer edges beneath it (for `f(x)`, `replace(x, y)` makes y gain the call node and x lose it). The child replace is not modelled, so "the observers of the call and of newExpr do not change" holds of the statement's own edges only.
- UForLoopStmts.UForLoopStmt.Replace is modelled as written: a cond slot equal to oldExpr is passed to `setCond(cond)` and keeps oldExpr. When cond alone held oldExpr, it stays observed.
- UForLoopStmts.UForLoopStmt.IsEqualTo characterises equality as identical part trees only between well-typed loops. For a loop whose parts have the wrong class, only "needs another loop" and reflexivity are stated.
- UForLoopStmts.UForLoopStmt.Replace requires oldExpr to be non-null when init, cond or step equals it, and newExpr to be non-null when init or step does. Otherwise the source dereferences a null pointer.
  - `replace(nullptr, e)` on a loop without init calls `setInit(e)`, which unregisters from the absent init (ufor_loop_stmt.cpp:112-118).
  - Likewise, a loop without cond gets `setCond(cond)` on its absent cond.
  - The model keeps those calls out of its domain rather than model the crash.
- Exact observation (`ObservesExactly`) is stated relative to any set of nodes that existed before the call, not over the whole heap. Nodes outside a method's `modifies` clause keep their observers by the frame.
- SimplifyArithmExprOptimizers.Offer and SimplifyArithmExprOptimizers.TryAllFirstReplacementWins: expression trees are modelled as unshared values. In the source a replaced node stays shared with what replaced it (after `x + 0` becomes `x`, the detached node and the tree both hold `x`) and the later sub-optimizers are still handed the detached node, so a later rewrite beneath a shared child could reach the tree. The model does not capture that: once detached, nothing a later sub-optimizer does reaches the tree, and the first replacement stands.
- SimplifyArithmExprOptimizers.Rewrite records what one sub-optimizer did to the node it was handed as a single outcome. A sub-optimizer that first rewrites beneath the node and then replaces it is recorded as a replacement only.
- CallStmts.CallStmt.Update: the source requires non-null arguments; the types here are non-null.
- Node metadata is fixed at creation. The statements' metadata and addresses are opaque values that clone copies.
- The two statement classes cannot themselves be the body or the call of another statement; bodies are `Value` nodes of statement shape.
- Variables are compared by value: name, original name and type.
- The global-variable sorter source is not part of this model. The sort is specified by its unit tests.
  - Its cycle behaviour is not shown; the model returns `None` when no definition is ready.
  - A self-reference is not counted as a dependency.
  - "Already ordered input is unchanged" holds for the test's input and for any output of the sort (GlobalVarsSorting.SortIdempotent). It is not a general property: ties are broken by original name, so a dependency-respecting input can still be reordered.
- The sources of `skipDerefs`, `skipAddresses` and `isWhileTrueLoop` are not part of this model; they are specified by their unit tests. `isWhileTrueLoop` takes a while loop, as its parameter type demands.
- Casts, array and struct indexing and floating-point constants are not needed by the modelled code and are left out of the expression datatype.
