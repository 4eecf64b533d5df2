# CryptoMiniSat, modelled and proved

A Dafny model of the inner machinery of CryptoMiniSat (`cryptoms/`) with proofs of what that machinery relies on:
probing with on-the-fly hyper-binary resolution and transitive reduction, unit propagation over two watched literals,
the compacting clause arena, Gaussian elimination on packed rows, and the transformations that change the formula
while keeping its meaning. Every operation that works in place is a method on a class or a loop over its fields,
proved against a statement of what it is for; the theory behind it is proved beside it as lemmas.

`dafny verify dfyconfig.toml` checks everything.

## How it is laid out

`Literals` holds literals, clauses, models and entailment, and is shared by all. A model is the set of variables it
makes true; entailment quantifies over all of them.

| files | what they model | main result |
|---|---|---|
| `Forest`, `HyperTheory`, `BinLists`, `HyperEngine` | `hyperengine.cpp` | a pass ends as unit propagation does, and after a conflict it finds the deepest literal that fails; reason edges stay a forest under the root while literals are re-parented; whatever is added is entailed, and whatever is thrown away keeps a longer path around it, of irredundant edges if it was irredundant; carrying out a pass on the watch lists keeps the models and the watch promise |
| `Watches`, `Trail`, `WatchTheory`, `Reasons`, `UnitClosure`, `PropEngine` | `propengine.cpp`, watched propagation | on no conflict no clause is unit or false and the trail is the unit closure; on a conflict the closure falsifies a clause; the watch promise survives undoing levels |
| `OccurEngine`, `Refinement` | `propengine.cpp`, occurrence lists | all three propagation procedures agree |
| `ClauseArena` | `clauseallocator.cpp` | compaction keeps contents and aliasing; the size counter stays high enough exactly in which histories |
| `PackedBits`, `PackedMatrix`, `XorRows`, `XorClauses`, `GaussTheory`, `Gaussian`, `GaussLevels` | `gaussian.cpp`, `packedrow.h`, `packedmatrix.h` | a whole round of elimination, fresh or resumed, down to the words of the packed rows; over a search with any number of levels the matrix used always fits the trail |
| `Elimination`, `OccTheory`, `Resolvents`, `EliminationStack`, `Reconstruction`, `OccSimplifier` | `occsimplifier.cpp`, `solutionextender.cpp` | a variable is eliminated exactly if that is worthwhile, by the resolvents the chosen gate leaves; any sequence of variable eliminations keeps satisfiability, models can be restored from the stack, and variables can be put back |
| `Masks`, `EmptyResolvent` | `occsimplifier.cpp`, empty resolvents | the bit masks decide exactly whether all resolvents are tautologies, and eliminating on their word is safe |
| `Sorting`, `BvaTheory`, `Bva`, `BvaExample` | `bva.cpp` | the matched clauses are a complete product without repetition; exchanging them keeps the models and saves exactly the promised number of clauses; nothing that saves a clause is passed over while effort lasts |
| `DistillerLongWithImpl`, `DistillerAllWithAll`, `Solver` | the two distillers, `add_clause_int` | clauses shrink or go without changing the models, on the watch lists too, and what the irredundant clauses say is never left to the redundant ones |
| `InTree` | `intree.cpp` | the queue is well nested; facts derived on the growing and shrinking stack of decisions are consequences, and every queued literal that fails ends up false |
| `CompFinder` | `compfinder.cpp` | components are the connected sets |
| `Cnf` | `cnf.cpp`, `varupdatehelper.h`, parts of `solver.cpp` | renumbering never mixes up variables |
| `Heap` | `heap.h` | order and positions through every operation |

## What is taken as given

- In the passes over occurrence lists `add_clause_int`, `detach_bin_clause` and the like add to or take from the set of
  clauses: one literal is a fact, two are a binary clause in both lists, three or more are stored. The cleaning of a new
  clause by facts at level zero is left out there; those passes start by cleaning all clauses. `Solver` and `PropEngine`
  model adding, cleaning, attaching and detaching in full for the watch lists.
- `my_popcnt` counts the set bits, `std::sort` sorts, `mtrand` yields any number in range.
- The implication cache lists, for a literal, literals of other variables such that one of the two is true, entailed
  by irredundant binary clauses where it says so.
- Redundant clauses follow from the irredundant ones. This is what the word means; `DistillerLongWithImpl` keeps it.

Effort and time limits are parameters or fields that count steps: rounds, clauses, variables, queue elements, or the
units the source subtracts, if not at every place where it does. A run may therefore stop early wherever the source may,
the statements hold for every such run, and the contracts say that nothing but a used-up limit cuts a run short.

## Where a wished-for property is false

- The arena's `currentlyUsedSize` can drop below what is really in use. `clauseFree` subtracts an estimate based on the
  clause's current size, but no less than three literals, while a clause allocated with two, or shrunk to two before a
  compaction, occupies room for two. `ClauseArena.TwoLiteralsFreed` and `ClauseArena.CounterUnderestimates` are such
  histories. Exactly when the counter can be trusted: from an exact counter, as in a fresh arena or after a compaction,
  it covers what is in use through every history of allocating three literals or more, shrinking and freeing iff every
  live clause has room for three (`ClauseArena.CoveredIffRoomy`). After a compaction that is the case iff every clause
  kept had three literals, which `ClauseArena.ClauseAllocator.Consolidate` states. The history that goes wrong may need one more
  clause to fit below the address limit.
- `Gaussian::analyse_confl` does not choose the best conflicting row: one with fewer than two variables replaces
  anything found before (`Gaussian.ShortTakesOver`). `Gaussian.Gaussian.BestConflict` says which row it is, the first of the best from
  the last short one on, and `Gaussian.BestIffLate` that it is the best of all iff each row before the last short one
  is matched by a row from there on.
- `BVA::remove_duplicates_from_m_cls` does not keep one clause of every body: of two neighbours it deletes the later one
  also when their sizes differ (`BvaExample.LongerClauseLost`). What is left stands for every body iff all long clauses are
  equally long; otherwise exactly those longer than the shortest are gone, as `Bva.BVA.RemoveDuplicatesFromMCls` states.

## Model

| member | source | states |
|---|---|---|
| `HyperEngine.HyperEngine.PropagateBfs` | cryptoms/hyperengine.cpp:33-162 | one probing pass keeps all invariants of the run; unless time ran out its outcome is that of unit propagation: a conflict if the closure falsifies a clause, otherwise the trail is the closure and the watch promise holds for all of it; after a conflict the literal returned is the deepest one of the forest above all level-one literals of a clause whose literals are all false, and its negation follows; time enough for a round per variable never runs out |
| `HyperEngine.HyperEngine.NothingLeft` | cryptoms/hyperengine.cpp:978-1017 | with the promise for the whole trail no clause, binary or long, is unit or falsified |
| `HyperEngine.HyperEngine.PromiseKept` | cryptoms/hyperengine.cpp:978-1017 | rearranging one list, permuting clauses and setting more literals break no promise of a literal propagated before |
| `HyperEngine.HyperEngine.PassKeepsModels` | cryptoms/searcher.cpp:2543-2634 | carrying out what a pass collected (adding the hyper-binary clauses, deleting the useless ones) keeps exactly the same models, both for the whole database and for its irredundant part |
| `HyperEngine.HyperEngine.CarryOut` | cryptoms/prober.cpp:661-667 | undoing a pass, attaching the hyper-binary clauses and taking the useless ones out, list by list, keeps the models of the database and of its irredundant binary clauses; each pair of literals is then listed once more for a clause attached and once less for one removed, long entries stay, and if the watch promise held for the facts it still does |
| `HyperEngine.HyperEngine.HyperBinResAll` | cryptoms/searcher.cpp:2543-2581 | every clause waiting, or every one that is not satisfied, is entered in both lists; their number is returned and none is left waiting |
| `HyperEngine.HyperEngine.RemoveUselessBins` | cryptoms/searcher.cpp:2583-2634 | every clause recorded as useless loses one entry in both of its lists, and nothing else changes; the counts returned are those of the irredundant and of the redundant ones |
| `HyperEngine.CarriedOut` | cryptoms/searcher.cpp:2543-2634 | lists that differ from the old ones by what a pass collected, counted entry by entry, have the same models, and so have their irredundant clauses |
| `BinLists.CountedClauses` | cryptoms/searcher.cpp:2543-2634 | with clauses added and one copy of others removed, every clause listed is an old or an added one, and every old one that was not removed and every added one is listed, for either kind |
| `BinLists.GoodCounted` | cryptoms/searcher.cpp:2543-2634 | adding clauses without a false literal and removing others breaks no watch promise |
| `HyperTheory.ReductionKeepsModels` | cryptoms/searcher.cpp:2543-2634 | deleting all useless binary clauses and adding all hyper-binary ones leaves the models of the database unchanged |
| `HyperTheory.IrredReductionKeepsModels` | cryptoms/searcher.cpp:2543-2634 | the same for the irredundant clauses alone: an irredundant clause is only deleted when a path of kept irredundant ones replaces it |
| `Forest.MoveKeepsForest` | cryptoms/hyperengine.cpp:905-975 | giving a literal another reason keeps the reason edges an acyclic forest under the root |
| `Forest.MoveGrows` | cryptoms/hyperengine.cpp:905-975 | re-parenting only adds ancestors: whoever was an ancestor still is |
| `Forest.MoveKeepsUseless` | cryptoms/hyperengine.cpp:867-975 | every clause already found useless keeps a path of length two or more around it after a literal moves |
| `Forest.MoveKeepsIrred` | cryptoms/hyperengine.cpp:559-632 | paths of irredundant steps survive a move by an irredundant edge |
| `Forest.GrowKeepsUseless` | cryptoms/hyperengine.cpp:1050-1073 | a newly enqueued literal does not disturb what is known about useless clauses |
| `HyperTheory.EnqueueKeeps` | cryptoms/hyperengine.cpp:1050-1073 | a literal enqueued with an entailed reason keeps all promises of the run |
| `HyperTheory.ReparentKeeps` | cryptoms/hyperengine.cpp:905-975 | a literal given a new entailed reason keeps all promises of the run |
| `HyperTheory.PathImplies` | cryptoms/hyperengine.cpp:639-728 | along a forest path the ancestor implies the descendant |
| `HyperTheory.EdgeNotUseless` | cryptoms/hyperengine.cpp:867-903 | the edge that is the reason of a literal is never among the useless clauses |
| `HyperEngine.HyperEngine.DeepestCommonAncestor` | cryptoms/hyperengine.cpp:798-865 | returns the deepest literal that all ancestor chains share; terminates; the counters are all cleared afterwards |
| `HyperEngine.HyperEngine.PassThrough` | cryptoms/hyperengine.cpp:828-845 | one chain moves past one literal, whose counter goes up by one, to the number of chains at most; when it gets there the literal is the deepest common one |
| `HyperEngine.HyperEngine.IsAncestorOf` | cryptoms/hyperengine.cpp:639-728 | true exactly when the climb from the start reaches the literal looked for, under the redundancy and depth rules |
| `HyperEngine.HyperEngine.RemoveWhichBinDueToTransRed` | cryptoms/hyperengine.cpp:559-632 | which of the two candidate edges goes, with or without the depth trick: only one that the other one makes superfluous, and none only if neither way replaces the other |
| `HyperEngine.HyperEngine.Reduce` | cryptoms/hyperengine.cpp:939-971 | acts on that answer: the old edge goes and the new one becomes the reason, or the new one goes, or nothing changes; useless clauses are recorded and a pending hyper-binary clause is cancelled |
| `HyperEngine.HyperEngine.RemoveBinClause` | cryptoms/hyperengine.cpp:867-903 | records a useless clause, or cancels a hyper-binary clause not yet attached |
| `HyperEngine.HyperEngine.EnqueueWithAncestorInfo` | cryptoms/hyperengine.cpp:1050-1073 | the literal becomes a child of its ancestor in the forest |
| `HyperEngine.HyperEngine.PropBinWithAncestorInfo` | cryptoms/hyperengine.cpp:905-975 | one binary watch, which is entered in the log: an undefined literal becomes a child of the literal propagated, a false one is a conflict, and of two clauses that imply a true one the right one goes |
| `HyperEngine.HyperEngine.AddHyperBin` | cryptoms/hyperengine.cpp:519-552 | the literal becomes a child of the deepest common ancestor of those that force it; the hyper-binary clause of the two follows from the formula and is to be added unless only one forces it |
| `HyperEngine.HyperEngine.AddHyperBinOfClause` | cryptoms/hyperengine.cpp:730-755 | the same for a long clause made unit, with the negations of its level-one literals |
| `HyperEngine.HyperEngine.PropLongs` | cryptoms/hyperengine.cpp:121-159 | a round over long clauses sets at most one literal, forced by a clause whose other literals are all false: it hangs below the deepest literal above those of level one, and the hyper-binary clause of the two is waiting unless there was only one; otherwise nothing is set and every clause keeps the watch promise |
| `HyperEngine.HyperEngine.AnalyzeFail` | cryptoms/hyperengine.cpp:758-796 | the literal returned is the deepest one of the forest above the negations of all level-one literals of the falsified clause, and its negation follows from the formula |
| `HyperEngine.HyperEngine.PropNormalClWithAncestorInfo` | cryptoms/hyperengine.cpp:978-1017 | one long watch: left alone if it is satisfied, otherwise moved, failing, or unit with the new reason being entailed |
| `PropEngine.PropEngine.PropagateAnyOrderFast` | cryptoms/propengine.cpp:263-377 | terminates; all invariants of watch lists and trail hold again; every literal enqueued lies in the unit closure; without a conflict the true literals are closed under unit propagation, with one the clause returned is all false; the binary clauses of either kind stay |
| `PropEngine.PropEngine.ScanList` | cryptoms/propengine.cpp:280-366 | one watch list is compacted in place; its clauses keep the promise that a false watch has a true, earlier set blocker or partner |
| `PropEngine.PropEngine.ScanLong` | cryptoms/propengine.cpp:309-364 | one long watch: kept, re-labelled, moved to another literal, unit or conflicting; contents of clauses are only permuted |
| `PropEngine.PropEngine.ScanBin` | cryptoms/propengine.cpp:281-307 | one binary watch: satisfied, unit, or conflicting |
| `PropEngine.PropEngine.CancelUntil` | cryptoms/searcher.cpp:3305-3365 | undoing any number of decision levels keeps every invariant, the watch promise included |
| `PropEngine.PropEngine.AttachClause` | cryptoms/propengine.cpp:113-134 | whatever the values of its literals, the clause goes on the lists of its first two, and the clauses are the old ones and it; the watch promise then holds iff each of the two that has been propagated as false comes with a true literal of the clause set no later |
| `PropEngine.PropEngine.DetachClause` | cryptoms/propengine.cpp:143-151 | a clause leaves the lists of its first two literals and the store; all invariants and every watch promise stay, and the clauses are the old ones but for it; at level zero it may have been the reason of facts |
| `PropEngine.PropEngine.AttachBinClause` | cryptoms/propengine.cpp:83-104 | a binary clause goes on both lists as one of its kind, and the clauses are the old ones and it; unless one of its literals is false no watch promise is concerned |
| `PropEngine.PropEngine.RemoveWCl` | cryptoms/watchalgos.h:42-51 | the first entry of the clause goes and the others keep their order |
| `WatchTheory.DetachKeeps` | cryptoms/propengine.cpp:143-151 | without the clause every other long clause is still in exactly the lists of its first two literals |
| `WatchTheory.GoodDetached` | cryptoms/propengine.cpp:143-151 | a watch promise survives the loss of a clause |
| `PropEngine.PropEngine.AttachAndEnqueueLearntClause` | cryptoms/searcher.cpp:1409-1452 | attaching a long clause whose literals are false but the first, the second at the current level, and setting the first keeps every invariant |
| `PropEngine.PropEngine.NothingLeft` | cryptoms/propengine.cpp:263-377 | with nothing left to propagate no clause is unit and none is false |
| `WatchTheory.NoneUnitNoneFalse` | cryptoms/propengine.cpp:263-377 | the watch promise for the whole trail means that every clause is satisfied or has two literals that are not false |
| `Reasons.ReasonsInClosure` | cryptoms/propengine.cpp:281-364 | literals with correct reasons lie in the unit closure |
| `Watches.MoveKeepsTwoWatched` | cryptoms/propengine.cpp:333-342 | moving a watch keeps every long clause in exactly the lists of its first two literals |
| `Watches.SwapKeepsTwoWatched` | cryptoms/propengine.cpp:317-324 | swapping the two watched literals keeps that too |
| `Watches.SameDatabase` | cryptoms/propengine.cpp:263-377 | permuting clauses and moving watches leaves the set of clauses unchanged |
| `Watches.FindNewWatch` | cryptoms/propengine.cpp:333-342 | the first literal from the third on that is not false, or none |
| `OccurEngine.OccurEngine.PropagateOccur` | cryptoms/propengine.cpp:538-568 | occurrence-list propagation: a conflict exactly if the unit closure falsifies a clause, otherwise the trail is that closure |
| `OccurEngine.OccurEngine.PropagateLongClauseOccur` | cryptoms/propengine.cpp:591-632 | one long clause: satisfied, two literals left, unit, or false |
| `OccurEngine.OccurEngine.PropagateBinaryClauseOccur` | cryptoms/propengine.cpp:570-589 | one binary clause: satisfied, unit, or false |
| `Refinement.PropagateBothWays` | cryptoms/propengine.cpp:263-632 | from the same clauses and trail both engines report a conflict or both end with the same literals, the least closed set |
| `Refinement.PropagateBreadthFirst` | cryptoms/hyperengine.cpp:33-162 | so does breadth-first propagation, whatever it re-parents and collects on the way, unless it runs out of time |
| `Refinement.UnitsAddNothing` | cryptoms/hyperengine.cpp:33-162 | facts already set change neither what unit propagation sets nor whether it falsifies a clause |
| `UnitClosure.ClosureSound` | cryptoms/propengine.cpp:263-377 | every model of the clauses that agrees with the start satisfies the whole closure |
| `ClauseArena.ClauseAllocator.Consolidate` | cryptoms/clauseallocator.cpp:240-355 | after compaction every reference names a clause with the same flags and literals, two references meet iff they met before, literals above level zero keep clause reasons, the clauses lie back to back, nothing else is left, and the counter is exact; it stays high enough, however clauses of three literals or more are allocated, shrunk and freed from then on, iff every clause kept had three literals |
| `ClauseArena.ClauseAllocator.MoveCl` | cryptoms/clauseallocator.cpp:212-230 | copies header and literals and leaves flag and forwarding offset in the old clause |
| `ClauseArena.ClauseAllocator.Redirect` | cryptoms/clauseallocator.cpp:264-301 | a reference is redirected to the one copy of its clause, made now or before |
| `ClauseArena.ClauseAllocator.UpdateOffsets` | cryptoms/clauseallocator.cpp:357-369 | offsets of moved clauses are replaced by where they went |
| `ClauseArena.ClauseAllocator.UpdateReasons` | cryptoms/clauseallocator.cpp:309-329 | live clause reasons follow their clause, dead ones are dropped, others stay |
| `ClauseArena.ReasonsStay` | cryptoms/clauseallocator.cpp:312-326 | a literal above level zero that has a clause reason still has one, which names the same clause |
| `ClauseArena.ClauseAllocator.ClauseNew` | cryptoms/clauseallocator.cpp:81-147 | room at the end or failure beyond the address limit; no other clause changes; the slack of the counter stays |
| `ClauseArena.ClauseAllocator.ClauseFree` | cryptoms/clauseallocator.cpp:173-204 | marked, or cut off at the end; no other clause changes; the slack grows by the allocated size less the estimated one; from an exact counter it stays high enough iff the clause is cut off at the end or was allocated, or last compacted, with three literals |
| `ClauseArena.ClauseAllocator.Shrink` | cryptoms/clauseallocator.cpp:173-204 | shrinking a clause leaves block and counter alone |
| `ClauseArena.CounterUnderestimates` | cryptoms/clauseallocator.cpp:173-230 | a history that ends with a negative counter: allocate three literals, shrink to two, compact, free |
| `ClauseArena.TwoLiteralsFreed` | cryptoms/clauseallocator.cpp:173-204 | a shorter one: allocate two literals and free them |
| `ClauseArena.CoveredIffRoomy` | cryptoms/clauseallocator.cpp:81-204 | from an exact counter, every history of allocating three literals or more, shrinking and freeing keeps the counter at or above what is in use iff every live clause has room for three |
| `ClauseArena.FreedCovered` | cryptoms/clauseallocator.cpp:173-204 | the one-step form of CoveredIffRoomy: from an exact counter that is not cut off, freeing a clause leaves what is in use covered iff the clause had room for three literals |
| `ClauseArena.HistoryKeeps` | cryptoms/clauseallocator.cpp:81-204 | room for three literals in every clause is kept by all steps, and the counter never falls below |
| `ClauseArena.ShortSpoils` | cryptoms/clauseallocator.cpp:173-204 | a single clause with less room makes some history fail, if need be after putting another clause behind it |
| `ClauseArena.MovingNext` | cryptoms/clauseallocator.cpp:212-230 | one more clause moved keeps the old arena, the new arena and the forwarding map consistent |
| `ClauseArena.RoomLeft` | cryptoms/clauseallocator.cpp:212-230 | what has been copied never exceeds the room of the live clauses |
| `ClauseArena.RelocedIffMoved` | cryptoms/clauseallocator.cpp:264-307 | the flag tells exactly which clauses have moved |
| `ClauseArena.StillRoomy` | cryptoms/clauseallocator.cpp:240-355 | all clauses have room for three literals after compaction iff all that were moved had three before it |
| `Gaussian.Gaussian.PerformGauss` | cryptoms/gaussian.cpp:434-520 | a round: a conflict clause is false and follows from the XORs; otherwise the state between rounds holds again, rows still stand for the XORs, each propagated clause follows from them and is unit, and exactly the rows with one unassigned variable are found |
| `GaussLevels.Search.FindTruths` | cryptoms/gaussian.cpp:1047-1117 | over any run of levels opened, literals set, levels undone and rounds the matrix used fits the trail: the current one if it is not marked as messed up, or else the one kept for the level, which is there and at rest; a resumed elimination has a row left; after propagations the trail is the one kept followed by the first literals of the clauses, in order, or the facts of level zero and the literal of the first clause of one literal, and every assignment that satisfies the XORs and agrees with what was kept agrees with it; a conflict leads back to the level of its clause; the solver is found unsatisfiable only by a clause that is false at level zero |
| `GaussLevels.Search.SetHeads` | cryptoms/gaussian.cpp:936-997 | the first literals of the clauses are set in order; above level zero a clause of one literal is set at level zero and ends it |
| `GaussLevels.SetIsForced` | cryptoms/gaussian.cpp:936-997 | what is set by clauses that follow from the XORs, their other literals being false, holds in every assignment that satisfies the XORs and agrees with what was kept |
| `GaussLevels.Search.CancelUntil` | cryptoms/gaussian.cpp:999-1033 | undoing levels keeps that: unless a substituted column loses its value the matrix fits what is left of the trail |
| `GaussLevels.Search.Canceling` | cryptoms/gaussian.cpp:999-1033 | the matrix is marked iff a variable whose column is substituted is about to lose its value |
| `GaussLevels.Search.NewDecisionLevel` | cryptoms/searcher.cpp:1138-1190 | a level opened after a round that found nothing keeps that |
| `GaussLevels.Search.KeepMatrix` | cryptoms/gaussian.cpp:76-85 | the matrix is stored at the place of its level, which exists or is the next one |
| `GaussLevels.Search.Round` | cryptoms/gaussian.cpp:434-460 | a matrix that is messed up is replaced by the one kept for the level; either way it agrees with the assignment and is brought up to date with it |
| `GaussLevels.Search.HandleConflict` | cryptoms/gaussian.cpp:699-806 | levels above that of the clause are undone; a clause of one literal is set at level zero or is false there; a longer one is false on what is left of the trail, and its highest level is the current one |
| `GaussLevels.Restorable` | cryptoms/gaussian.cpp:443-453 | whenever a spoilt matrix is needed one is kept for the level, has a row, and substitutes only columns of variables of the trail |
| `GaussLevels.KeptNow` | cryptoms/gaussian.cpp:76-85 | storing a matrix leaves every level below with one that fits it |
| `GaussLevels.OpenNotEmpty` | cryptoms/gaussian.cpp:482-488 | as long as the trail can be extended to something that violates an XOR, a matrix that fits it has a row left |
| `GaussLevels.RowLeftOpen` | cryptoms/gaussian.cpp:482-488 | and a matrix at rest with a row left shows that it can |
| `Gaussian.Gaussian.Restore` | cryptoms/gaussian.cpp:446-453 | the matrix kept for a level becomes the current one, at rest |
| `Gaussian.Gaussian.Eliminate` | cryptoms/gaussian.cpp:522-697 | from a fresh start or resuming behind the first changed column: solutions and links stay, the first rows are in echelon form, the others zero, and the propagating rows are collected |
| `Gaussian.Gaussian.EliminateColumn` | cryptoms/gaussian.cpp:593-661 | one column: skipped, without pivot, or eliminated below its pivot |
| `Gaussian.Gaussian.UpdateMatrixByColAll` | cryptoms/gaussian.cpp:376-422 | exactly the columns of assigned variables are substituted, trailing ones cut off |
| `Gaussian.Gaussian.UpdateMatrixCol` | cryptoms/gaussian.cpp:312-374 | a column is replaced by its value in every row, and changed rows are marked |
| `Gaussian.Gaussian.UpdateLastOneInCol` | cryptoms/gaussian.cpp:424-432 | the bounds at the end are brought down to the number of rows, up to the first smaller one |
| `Gaussian.Gaussian.Fill` | cryptoms/packedrow.h:302-335 | one literal per variable of the row, all false but the unassigned one, which comes first with the sign the parity forces; the closing check passes iff there is one or the parity is violated |
| `Gaussian.Gaussian.BestConflict` | cryptoms/gaussian.cpp:863-934 | a conflicting row is chosen iff there is one: the first of the best by level and size among the conflicting rows from the last one of at most one variable on |
| `Gaussian.ChosenUnique` | cryptoms/gaussian.cpp:863-934 | this determines the row |
| `Gaussian.BestIffLate` | cryptoms/gaussian.cpp:863-934 | the row chosen is the best of all conflicting rows iff each one before the last short row is matched by one from there on; without short rows it always is |
| `Gaussian.ShortTakesOver` | cryptoms/gaussian.cpp:863-934 | an input for which it is not: two variables at level 3, then one variable at level 5 |
| `Gaussian.Gaussian.HandleMatrixPropAndConfl` | cryptoms/gaussian.cpp:808-861 | conflicts are read off the zero rows, propagations off the rows collected |
| `Gaussian.Gaussian.PropagateRows` | cryptoms/gaussian.cpp:936-997 | each propagating row gives an entailed unit clause under the values assigned so far, in order, up to the first clause of one literal above level zero |
| `Gaussian.Gaussian.constructor` | cryptoms/gaussian.cpp:265-310 | every XOR becomes a row with a one for each of its variables, in both halves |
| `Gaussian.ClauseOfXors` | cryptoms/gaussian.cpp:699-806 | a clause read off a row is satisfied by everything that satisfies the XORs |
| `Gaussian.UpdateReady` | cryptoms/gaussian.cpp:376-422 | substitution leaves a state from which elimination can start afresh or resume |
| `Gaussian.Complete` | cryptoms/gaussian.cpp:558-569 | no row with a single unassigned variable is missed, although unchanged rows are not looked at |
| `GaussTheory.PivotStep` | cryptoms/gaussian.cpp:613-655 | eliminating below a pivot keeps the staircase, the column bounds and the pivot counts |
| `GaussTheory.NoPivotStep` | cryptoms/gaussian.cpp:656-659 | a free column without a pivot keeps them |
| `GaussTheory.StartResumed` | cryptoms/gaussian.cpp:549-569 | the state behind the first changed column is one elimination could have reached by itself |
| `GaussTheory.RoundDone` | cryptoms/gaussian.cpp:836-837 | dropping the zero rows restores the state between rounds |
| `GaussTheory.ClampReduced` | cryptoms/gaussian.cpp:424-432 | after the bounds are brought down every search stays inside the matrix |
| `GaussTheory.RestZero` | cryptoms/gaussian.cpp:593-661 | rows from the returned index on are zero |
| `XorRows.XorSolutions` | cryptoms/packedrow.h:76-89 | adding one row to another keeps the solutions of both halves |
| `XorRows.SwapSolutions` | cryptoms/packedrow.h:161-180 | exchanging rows keeps them |
| `XorRows.LinkMeaning` | cryptoms/gaussian.cpp:1273-1313 | given the assigned values, the substituted and the original half say the same |
| `XorRows.SubstituteLinked` | cryptoms/gaussian.cpp:312-374 | substituting a column keeps the link between the halves |
| `XorRows.XorLinked` | cryptoms/packedrow.h:76-89 | adding linked rows gives a linked row |
| `XorClauses.FilledMeaning` | cryptoms/packedrow.h:302-335 | among the models extending the assignment the row holds iff the first literal does |
| `XorClauses.FilledEntailed` | cryptoms/packedrow.h:302-335 | the clause follows from the row |
| `XorClauses.FilledConflict` | cryptoms/packedrow.h:302-335 | without an unassigned variable the clause follows exactly when the parity is violated |
| `XorClauses.FilledBinary` | cryptoms/gaussian.cpp:969-974 | for two variables the clause of the opposite literals follows as well |
| `XorClauses.RowMeaning` | cryptoms/packedrow.h:192-205 | the row built for an XOR says what the XOR says |
| `PackedMatrix.PackedMatrix.XorBoth` | cryptoms/packedrow.h:76-89 | the word loop is the row xor on both halves at once and touches no other row |
| `PackedMatrix.PackedMatrix.SwapBoth` | cryptoms/packedrow.h:161-180 | the word loop exchanges two rows, both halves, and touches no other row |
| `PackedMatrix.PackedMatrix.PopcntIsOne` | cryptoms/packedrow.h:110-126 | true iff the given first one is the only one |
| `PackedMatrix.PackedMatrix.SetRow` | cryptoms/packedrow.h:192-205 | both halves get ones in exactly the given columns |
| `PackedMatrix.PackedMatrix.Scan` | cryptoms/packedrow.h:209-220 | the first one from a column on, or none |
| `PackedMatrix.PackedMatrix.Assign` | cryptoms/packedmatrix.h:88-104 | all rows are copied, reusing storage that is large enough |
| `PackedMatrix.PackedMatrix.ResizeNumRows` | cryptoms/packedmatrix.h:79-86 | the first rows stay as they are |
| `PackedMatrix.BaseApart` | cryptoms/packedmatrix.h:106-139 | the blocks of different rows do not overlap |
| `PackedMatrix.XorRowRep` | cryptoms/packedrow.h:76-89 | xoring whole blocks of words is the xor of the rows they represent |
| `PackedBits.ShiftTest` | cryptoms/packedrow.h:110-126 | shifting out the first bits leaves zero iff all others are zero |
| `PackedBits.ZeroFrom` | cryptoms/packedrow.h:110-126 | testing the rest of a word and the later words tests all bits from a column on |
| `PackedBits.ClearInWords` | cryptoms/packedrow.h:146-149 | clearing through a mask clears one bit of the row |
| `PackedBits.XorInWords` | cryptoms/packedrow.h:76-89 | word xor is bitwise xor of the row |
| `OccSimplifier.OccSimplifier.MaybeEliminate` | cryptoms/occsimplifier.cpp:1853-1896 | with effort left the variable is eliminated exactly if it is worthwhile: not too many clauses to begin with, no more resolvents than clauses and none too large, counted over the pairs that the chosen gate leaves; then what is left are the clauses without it and those resolvents, which cover every pair, and stack and formula keep all their promises; otherwise nothing changes |
| `Resolvents.GateKeepsFew` | cryptoms/occsimplifier.cpp:2038-2066 | with a gate on either side every resolvent kept comes from a pair of which one clause is binary or the long clause of the gate chosen |
| `OccSimplifier.OccSimplifier.EliminateVars` | cryptoms/occsimplifier.cpp:710-839 | the promises hold over any sequence of attempts, one for each variable in the order given, each as MaybeEliminate says; it ends early only if the effort or the number allowed is used up |
| `OccSimplifier.OccSimplifier.StillEquisatisfiable` | cryptoms/occsimplifier.cpp:1853-1896 | at any time the remaining formula is satisfiable iff the original one is |
| `OccSimplifier.OccSimplifier.ExtendModel` | cryptoms/occsimplifier.cpp:180-240 | replaying the stack turns any model of the remaining formula, total or partial, into one all of whose extensions satisfy the original, and it is the one that the rules for setting blocked variables give; the check inside the replay never fails |
| `OccSimplifier.OccSimplifier.UneliminateVar` | cryptoms/occsimplifier.cpp:1094-1150 | putting a variable back, cascading where needed, moves clauses from stack to formula without losing any |
| `OccSimplifier.OccSimplifier.Uneliminate` | cryptoms/occsimplifier.cpp:1094-1150 | the same while other variables are on their way back |
| `OccSimplifier.OccSimplifier.TestElimAndFillResolvents` | cryptoms/occsimplifier.cpp:1559-1687 | the gate is looked for and chosen as it should be; the resolvents collected are those on the variable that it leaves, they are at most as many as the clauses to go and cover every pair, and the cost is the long ones gained less those lost with three for each binary one; without a result there are too many, one is too large, or effort has run out; marks and `seen` are restored |
| `OccSimplifier.OccSimplifier.ResolveClauses` | cryptoms/occsimplifier.cpp:2038-2099 | skips exactly the pairs outside a found gate and the tautologies; otherwise `dummy` is the resolvent; `seen` is cleared |
| `OccSimplifier.OccSimplifier.AddNegLitsToDummyAndSeen` | cryptoms/occsimplifier.cpp:1922-1958 | reports a clash exactly if there is one, otherwise collects the union |
| `OccSimplifier.OccSimplifier.FindGate` | cryptoms/occsimplifier.cpp:1483-1534 | the first irredundant long clause of the list whose other literals are all negated in irredundant binary clauses is marked, and none only if there is none |
| `OccSimplifier.OccSimplifier.MarkGateInPossNegs` | cryptoms/occsimplifier.cpp:1536-1557 | the first gate of the literal, else the first of its negation, and none only if there is none on either side |
| `OccSimplifier.OccSimplifier.RemClsFromWatchDueToVarelim` | cryptoms/occsimplifier.cpp:1386-1473 | exactly the clauses of the literal leave the formula, and its irredundant ones go onto the stack in order |
| `OccSimplifier.OccSimplifier.AddVarelimResolvent` | cryptoms/occsimplifier.cpp:1733-1783 | the formula gains exactly the resolvent |
| `SolutionExtender.SolutionExtender.AddClause` | cryptoms/solutionextender.cpp:110-190 | the clause is made true; the variable it is blocked on is only set when nothing else can be, and otherwise the first literal that may be |
| `SolutionExtender.SolutionExtender.DummyBlocked` | cryptoms/solutionextender.cpp:78-108 | a variable without a value is set to false or marked as free |
| `Elimination.EliminationSound` | cryptoms/occsimplifier.cpp:1853-1896 | elimination keeps every model |
| `Elimination.EliminationComplete` | cryptoms/occsimplifier.cpp:1853-1896 | every model of what is left becomes one of the whole by choosing one value |
| `Elimination.GateCovers` | cryptoms/occsimplifier.cpp:2038-2066 | the kept resolvents cover a pair outside the gate |
| `Elimination.GateCoversFlipped` | cryptoms/occsimplifier.cpp:1536-1557 | the same for a gate of the other side |
| `Elimination.SkippingLosesNothing` | cryptoms/occsimplifier.cpp:2038-2066 | what is kept is equivalent to all resolvents |
| `OccTheory.AllCovered` | cryptoms/occsimplifier.cpp:1610-1680 | every pair is covered by the resolvents recorded |
| `OccTheory.OccExact` | cryptoms/occsimplifier.cpp:2518-2532 | the occurrence list of a literal holds exactly its clauses |
| `EliminationStack.StackPush` | cryptoms/occsimplifier.cpp:1853-1896 | one more eliminated variable keeps the promises of the stack |
| `EliminationStack.MeaningPush` | cryptoms/occsimplifier.cpp:1853-1896 | formula and stack together mean the same as before |
| `EliminationStack.RestoreModel` | cryptoms/occsimplifier.cpp:180-240 | every model of the remaining formula can be changed on eliminated variables to satisfy the stack |
| `EliminationStack.StackMarkOff` | cryptoms/occsimplifier.cpp:1094-1150 | entries marked off keep the promises of the others |
| `Reconstruction.BlockedUndef` | cryptoms/solutionextender.cpp:167-182 | when only its own variable could satisfy an entry, that variable has no value yet |
| `Reconstruction.ReplayStep` | cryptoms/occsimplifier.cpp:180-240 | one entry of the replay |
| `Bva.BVA.TryBvaOnLit` | cryptoms/bva.cpp:240-297 | with effort left the product is the one that taking the best pair as long as one saves a clause leads to; if it makes the formula smaller it is exchanged: one fresh variable is used, exactly the models over the old variables are kept, and the number of clauses drops by the size of the simplification, which is positive; otherwise, or with the effort used up, nothing changes |
| `Bva.BVA.FindProduct` | cryptoms/bva.cpp:240-297 | the search: clauses without duplicate bodies, then round after round the pair with most candidates, until no pair saves a clause, or the effort is used up |
| `Bva.LeftAlone` | cryptoms/bva.cpp:240-297 | when the search could go on and nothing is gained, no pair of literals was left that matches two of the clauses at hand |
| `Bva.BVA.BvaSimplifySystem` | cryptoms/bva.cpp:299-366 | the product is exchanged for clauses over a fresh variable, clause by clause |
| `Bva.BVA.GrowProduct` | cryptoms/bva.cpp:261-288 | one round: the candidates, and the best pair added to the product if it saves a clause; with effort left the product stays only if no pair matches two clauses, or no pair saves one |
| `Bva.BVA.FillPotential` | cryptoms/bva.cpp:561-626 | every candidate gives another clause of the formula, shares nothing with its clause, is new, and occurs once per clause; with effort left every irredundant partner of a clause is recorded unless one with the same hash value is |
| `Bva.NoneLost` | cryptoms/bva.cpp:561-626 | with single literals and two slots for each variable no two share a hash value, so every candidate is found |
| `Bva.BVA.ConsiderPair` | cryptoms/bva.cpp:591-618 | a candidate is recorded exactly if the two clauses differ in the literal against one or two others, as many as allowed, and no other with its hash value has been recorded for the clause |
| `Bva.BVA.LitDiffWatches` | cryptoms/bva.cpp:696-721 | the literals of one clause outside another, if one or two |
| `Bva.BVA.LeastOccurringExcept` | cryptoms/bva.cpp:725-758 | the first of the literals of the body that no matching pair has and that occur least, or none if there is none |
| `Bva.BVA.MostOccuringLitInPotential` | cryptoms/bva.cpp:658-694 | the pair with the most candidates, the last of those in the order of pairs, and their number |
| `Bva.BVA.RemoveDuplicatesFromMCls` | cryptoms/bva.cpp:125-238 | a sublist without duplicate bodies; exactly the bodies of binary clauses and of the shortest long ones are still there, so all of them are iff all long clauses are equally long |
| `Bva.KeptBodies` | cryptoms/bva.cpp:185-228 | in order, the long clauses kept are as long as the first one, and every body of that length has been kept |
| `BvaExample.LongerClauseLost` | cryptoms/bva.cpp:125-238 | an input that loses a clause: one of three literals and one of four |
| `Bva.BVA.RemoveMatchingClause` | cryptoms/bva.cpp:421-456 | exactly one stored copy of the product clause goes |
| `Bva.BVA.FindClForBva` | cryptoms/bva.cpp:458-499 | finds the long clause with exactly these literals |
| `BvaTheory.AdditionKeepsModels` | cryptoms/bva.cpp:299-366 | a model of the old formula is exactly one that some value of the fresh variable extends to the new |
| `BvaTheory.ExchangeCount` | cryptoms/bva.cpp:554-559 | the number of clauses drops by the product of the sizes less their sum |
| `Bva.MatchedNext` | cryptoms/bva.cpp:261-288 | the product with one more pair, over the clauses that go with it, is complete and independent |
| `EmptyResolvent.EmptyResolvents.EliminateEmptyResolventVars` | cryptoms/occsimplifier.cpp:648-695 | over all variables from the start given, one attempt each and as many as the effort allows: the promises of elimination hold and the formula only loses clauses |
| `EmptyResolvent.EmptyResolvents.EliminateEmpty` | cryptoms/occsimplifier.cpp:657-673 | the variable goes iff every resolvent on it is a tautology and the shorter side has fewer than sixteen clauses; then exactly its clauses go and the formula loses no model that cannot be restored |
| `EmptyResolvent.EmptyResolvents.CheckEmptyResolvent` | cryptoms/occsimplifier.cpp:2175-2209 | true iff all resolvents are tautologies and the side that gets the bits has fewer than sixteen irredundant clauses; all masks are zero afterwards |
| `EmptyResolvent.EmptyResolvents.SetMasks` | cryptoms/occsimplifier.cpp:2211-2326 | bit j of the mask of a literal says whether it occurs in clause j, for up to sixteen clauses |
| `EmptyResolvent.EmptyResolvents.CountResolvents` | cryptoms/occsimplifier.cpp:2211-2326 | zero iff every clause of the other side clashes with every clause that has a bit |
| `EmptyResolvent.EmptyResolvents.UnsetMasks` | cryptoms/occsimplifier.cpp:2211-2326 | going through the same clauses again clears every mask |
| `EmptyResolvent.UnionTells` | cryptoms/occsimplifier.cpp:2276-2304 | the number of bits in the union of the masks is the number of clauses exactly if the clause clashes with all of them |
| `EmptyResolvent.MarkedNext` | cryptoms/occsimplifier.cpp:2281-2296 | one more clause with the next bit keeps the reading of the masks |
| `EmptyResolvent.TautologicalCollected` | cryptoms/occsimplifier.cpp:2175-2209 | with all resolvents tautological, no resolvent has to be added |
| `Masks.PopFull` | cryptoms/occsimplifier.cpp:2298-2303 | with only the lowest bits in use the count is full iff all of them are set |
| `DistillerLongWithImpl.DistillerLongWithImpl.ShortenAllClWithCacheWatch` | cryptoms/distillerlongwithimpl.cpp:393-465 | as many clauses of the list as the effort allows, one after the other, each removed, shrunk or left as the watch lists and the cache then say: the irredundant clauses keep their models, the redundant ones still follow from them, and the list names stored clauses of its kind, each once |
| `DistillerLongWithImpl.DistillerLongWithImpl.SubStrClWithCacheWatch` | cryptoms/distillerlongwithimpl.cpp:260-326 | models stay the same, also without the clause if it is to go; it goes exactly if it is subsumed, and what is left of another one is what binary and cached clauses leave of it; an unchanged one contains no binary clause and, with strengthening, no literal that implies another of it directly |
| `DistillerLongWithImpl.DistillerLongWithImpl.RemoveOrShrinkClause` | cryptoms/distillerlongwithimpl.cpp:328-346 | the shorter clause replaces the old one without changing the models |
| `DistillerLongWithImpl.DistillerLongWithImpl.StrsubWithCacheAndWatch` | cryptoms/distillerlongwithimpl.cpp:235-258 | every literal unmarked still implies a marked one, and exactly those go that the binary and cached clauses take out; it is subsumed exactly if one of these clauses lies within it as extended so far, an irredundant one by irredundant binary clauses |
| `DistillerLongWithImpl.DistillerLongWithImpl.StrAndSubUsingWatch` | cryptoms/distillerlongwithimpl.cpp:172-198 | one watch list worked off keeps both and leaves no direct implication behind |
| `DistillerLongWithImpl.DistillerLongWithImpl.StrAndSubClauseWithCache` | cryptoms/distillerlongwithimpl.cpp:143-170 | subsumed exactly if a literal cached by irredundant clauses is in the extended clause; otherwise exactly the negated cached literals go |
| `DistillerLongWithImpl.DistillerLongWithImpl.StrengthenClauseWithWatch` | cryptoms/distillerlongwithimpl.cpp:94-107 | a literal is unmarked only for one that stays |
| `DistillerLongWithImpl.DistillerLongWithImpl.SubsumeClauseWithWatch` | cryptoms/distillerlongwithimpl.cpp:109-141 | subsumed exactly if the other literal is in the extended clause: the clause follows from irredundant binary clauses, a redundant one having been made irredundant; otherwise an irredundant clause extends it by the negation of its other literal, which keeps it equivalent |
| `DistillerLongWithImpl.DistillerLongWithImpl.SetIrred` | cryptoms/distillerlongwithimpl.cpp:118-125 | both entries of a redundant binary clause are made irredundant, with the same models |
| `DistillerLongWithImpl.Unmarked` | cryptoms/distillerlongwithimpl.cpp:94-107 | after any chain of removals every removed literal still implies a remaining one |
| `DistillerLongWithImpl.RemainingEntailed` | cryptoms/distillerlongwithimpl.cpp:260-326 | what remains is as strong as the clause |
| `DistillerLongWithImpl.ExtendedByBin` | cryptoms/distillerlongwithimpl.cpp:131-138 | the negation of the other literal of a binary clause may be added to the clause |
| `DistillerLongWithImpl.SubsumedByExtended` | cryptoms/distillerlongwithimpl.cpp:114-129 | a binary clause within the extended clause makes the original one superfluous |
| `DistillerAllWithAll.TryDistillClause` | cryptoms/distillerallwithall.cpp:239-335 | the new clause is part of the old one and follows from the formula; a literal is only dropped if propagation refuted it or had come to a conflict before; one kept was decided on or found true; with batches of one no decided literal was refuted already; the engine is as before |
| `DistillerAllWithAll.TryDistillClauseAndReturnNew` | cryptoms/distillerallwithall.cpp:239-335 | the shorter clause is added, the old one detached: the watch lists are right afterwards, the other clauses are untouched, and the models are the same, or there are none; what is left is a long clause, a binary one of the same kind as the old one, or follows from the facts, and so still holds the old one |
| `DistillerAllWithAll.ReplaceClause` | cryptoms/distillerallwithall.cpp:279-324 | a clause makes way for an entailed part of it: a long clause, a binary one, a fact with all its consequences, or a contradiction |
| `DistillerAllWithAll.DistillLongIrredCls` | cryptoms/distillerallwithall.cpp:94-237 | over all clauses, one try each for those not flagged, until time runs out or a contradiction shows: the models stay the same, or there are none; the list has exactly the places of the clauses that are left of its own; no redundant binary clause is added, and the irredundant clauses with the facts say all that the irredundant ones said before |
| `DistillerAllWithAll.StillSaid` | cryptoms/distillerallwithall.cpp:279-324 | a clause of the list that makes way for what holds it takes nothing away from what the irredundant clauses say |
| `DistillerAllWithAll.OldSuperfluous` | cryptoms/distillerallwithall.cpp:279-324 | the old clause can go because what is left of the new one is stored, or follows from the facts |
| `Solver.AddClauseInt` | cryptoms/solver.cpp:372-479 | the models afterwards are those before that satisfy the clause, and if there are none it says so; it is stored exactly if at least three of its literals have no value and it does not hold anyway, and then those are what is stored; with two left exactly one binary clause of the kind asked for is new, and none otherwise |
| `Solver.SortAndCleanClause` | cryptoms/solver.cpp:321-361 | a clause is dropped exactly if one of its literals is true or two are opposite; otherwise its literals that are not false are left, in order and once each |
| `Solver.AddedFact` | cryptoms/solver.cpp:438-447 | a fact and all that propagation makes of it have the models of the fact alone; a conflict means there are none |
| `DistillerAllWithAll.TryBatch` | cryptoms/distillerallwithall.cpp:256-269 | one batch sorts its literals into decided, refuted and true ones |
| `DistillerAllWithAll.TriedEntailed` | cryptoms/distillerallwithall.cpp:255-286 | what is left of the tried literals follows from the formula |
| `InTree.InTree.IntreeProbe` | cryptoms/intree.cpp:122-204 | a whole round: every fact set at level zero follows from the clauses and the earlier facts, unsatisfiability is reported only if there is no model, and unless the effort ran out the queue is used up, no reason stays changed, and every literal that leads to the negation of a root by binary clauses, and whose propagation falsifies a clause, ends up false; effort for four elements per variable never runs out |
| `InTree.InTree.TreeLook` | cryptoms/intree.cpp:230-291 | the same for the search over any well-nested queue that fits the binary clauses, for every literal of the queue |
| `InTree.InTree.LookAtNext` | cryptoms/intree.cpp:239-286 | one queue element keeps everything promised between two steps |
| `InTree.InTree.HandleLitPoppedFromQueue` | cryptoms/intree.cpp:293-365 | opens one level; the negation of the literal is pushed to `failed` exactly if it is false, the parent failed or its propagation falsifies a clause, and what is pushed follows from the formula; the parent of a literal that is not false is true, and becomes its child |
| `InTree.InTree.TryLit` | cryptoms/intree.cpp:325-352 | deciding on a literal and propagating: it fails exactly if the closure falsifies a clause, and otherwise the trail is the closure |
| `InTree.InTree.AddFailed` | cryptoms/intree.cpp:303-353 | the literal is put at the end of `failed` |
| `InTree.InTree.LeaveLevel` | cryptoms/intree.cpp:262-279 | closes one level, undoing what was set at it, and puts the changed reason back, last one first |
| `InTree.InTree.EmptyFailedList` | cryptoms/intree.cpp:367-392 | all failed literals hold at level zero afterwards, or the formula is unsatisfiable |
| `InTree.InTree.Enqueue` | cryptoms/intree.cpp:399-421 | the recursion ends; each literal is queued at most once; what is queued is one well-nested subtree, and all undecided literals that imply a queued one are queued too |
| `InTree.InTree.QueueRoots` | cryptoms/intree.cpp:157-170 | the whole queue is well nested, and no root is met twice |
| `InTree.PathQueued` | cryptoms/intree.cpp:399-421 | whatever leads to the negation of a root by a path of binary clauses is queued |
| `InTree.QueueLength` | cryptoms/intree.cpp:399-421 | the queue has at most four elements per variable |
| `InTree.InTree.FillRoots` | cryptoms/intree.cpp:102-120 | exactly the undecided literals in no binary clause, each once |
| `InTree.MeansOpened` | cryptoms/intree.cpp:293-299 | each decision implies all those below it on the stack, and everything set until then |
| `InTree.MeansGrows` | cryptoms/intree.cpp:325-352 | what propagation sets follows from the decision on top |
| `InTree.DecisionFails` | cryptoms/intree.cpp:303-353 | a decision that is refuted or leads to a conflict is refuted by the formula alone |
| `InTree.FailsBelow` | cryptoms/intree.cpp:303-313 | a literal that implies a failed one has failed |
| `InTree.UndoneSet` | cryptoms/intree.cpp:315-323 | a changed reason is put back by the entry pushed for it |
| `InTree.NestedConcat` | cryptoms/intree.cpp:399-421 | nesting and counting of a queue built in parts |
| `CompFinder.CompFinder.FindComponents` | cryptoms/compfinder.cpp:101-128 | without a timeout a variable is in a component iff it occurs in an irredundant clause, and two are in the same one iff they are connected through such clauses; effort for each clause and each variable never runs out |
| `CompFinder.CompFinder.AddClauseToComponent` | cryptoms/compfinder.cpp:284-342 | a clause within one component changes nothing; otherwise all that it meets and its new variables become one, with the number of the only one met or a new one; the tables stay inverse to each other without duplicates, components stay exactly the connected sets, and numbers in use plus numbers given out stay within the variables placed |
| `CompFinder.TogetherTold` | cryptoms/compfinder.cpp:232-247 | comparing each variable with the first one decides whether the clause lies in one component |
| `CompFinder.CompFinder.AddToCompImplicits` | cryptoms/compfinder.cpp:175-230 | adds, for each variable, the group of its later binary partners |
| `CompFinder.CompFinder.MergeAll` | cryptoms/compfinder.cpp:305-327 | the components to be merged are taken apart and their variables collected, each once |
| `CompFinder.CompFinder.MergeNewsetIntoSingleComponent` | cryptoms/compfinder.cpp:269-281 | the new variables join the one component met |
| `CompFinder.CompFinder.FillNewsetAndTomerge` | cryptoms/compfinder.cpp:252-266 | new variables and components met, each once |
| `CompFinder.FoundExact` | cryptoms/compfinder.cpp:284-342 | being in one component is being connected |
| `CompFinder.RegroupedFound` | cryptoms/compfinder.cpp:284-342 | putting together all a clause meets keeps components connected and clauses within components |
| `CompFinder.SameEdges` | cryptoms/compfinder.cpp:175-230 | adding the groups connects the same variables as adding the binary clauses |
| `CompFinder.CountHolds` | cryptoms/compfinder.cpp:333-341 | a new component number is paid for by placed variables |
| `Cnf.CNF.NewVar` | cryptoms/cnf.cpp:36-93 | fresh, added or re-inserted: the two maps stay inverse permutations and every outer variable keeps value and data; beyond the limit nothing changes |
| `Cnf.CNF.NewVars` | cryptoms/cnf.cpp:95-141 | the same state as that many single calls |
| `Cnf.CNF.UpdateVars` | cryptoms/cnf.cpp:212-218 | renumbering by inverse permutations keeps the maps inverse and every variable its value and data |
| `Cnf.CNF.BuildOuterToWithoutBvaMap` | cryptoms/cnf.cpp:333-347 | the inverse of the map kept, undefined exactly for added variables |
| `Cnf.CNF.MapBackToWithoutBva` | cryptoms/cnf.cpp:319-331 | the values of the variables that were not added, in their order |
| `Cnf.CNF.CalculateInterToOuter` | cryptoms/solver.cpp:783-822 | two inverse permutations: variables in use first, then the others, those beyond unchanged |
| `Cnf.UpdateBySwap` | cryptoms/varupdatehelper.h:86-120 | swapping along cycles is the same as copying through the permutation |
| `Cnf.UpdateWatches` | cryptoms/solver.cpp:868-878 | every watch list is found under the new number of its literal |
| `Cnf.FreshKeeps` | cryptoms/cnf.cpp:53-73 | a new variable disturbs no other |
| `Cnf.ReinsertedKeeps` | cryptoms/cnf.cpp:74-88 | a re-inserted one changes places with the first one not in use, and none in use moves |
| `Cnf.FreshTimesKeeps` | cryptoms/cnf.cpp:95-141 | many new variables disturb no other, and nothing is known about them |
| `Cnf.Renumbered` | cryptoms/cnf.cpp:212-218 | values and data follow their variables through a renumbering |
| `Cnf.PathStep` | cryptoms/varupdatehelper.h:97-118 | going on along a cycle never meets a position already updated |
| `Heap.Heap.Update` | cryptoms/heap.h:127-135 | after any change to one key the order is restored; a new element is inserted |
| `Heap.Heap.RemoveMin` | cryptoms/heap.h:149-160 | takes out an element whose key is least, and nothing else |
| `Heap.Heap.Insert` | cryptoms/heap.h:138-146 | one more element, order and positions kept |
| `Heap.Heap.Build` | cryptoms/heap.h:163-180 | a heap of exactly the given elements |
| `Heap.Heap.PercolateUp` | cryptoms/heap.h:54-67 | moves a hole up; afterwards only edges below the element can be out of order |
| `Heap.Heap.PercolateDown` | cryptoms/heap.h:70-84 | moves a hole down; order holds from the given position on |
| `Heap.Heap.Decrease` | cryptoms/heap.h:114-118 | after a key became smaller, moving up alone restores the order |
| `Heap.Heap.Increase` | cryptoms/heap.h:119-123 | after a key became larger, moving down alone restores it |
| `Heap.CheckIsExact` | cryptoms/heap.h:198-209 | the order kept is what the recursive check accepts |
| `Heap.KeyChanged` | cryptoms/heap.h:127-135 | a change of one key disturbs only the edges at its place |
| `Heap.RootIsLeast` | cryptoms/heap.h:149-160 | the first element is least |
| `PropEngine.PropEngine.Enqueue` | cryptoms/propengine.h:384-430 | a literal with a correct reason goes on the trail; no promise already made is broken |
| `PropEngine.PropEngine.NewDecisionLevel` | cryptoms/propengine.h:259-265 | a new level keeps all invariants, also above a level that ended in a conflict |

## Left out

- PropEngine.PropEngine.CancelUntil: activities, the order heaps and the call into the Gaussian matrices on backtracking are not modelled.
- PropEngine.PropEngine.AttachAndEnqueueLearntClause: learnt clauses of one or two literals and the clause activity are not modelled.
- HyperEngine.HyperEngine.DeepestCommonAncestor: the counters are unbounded numbers here, 16 bits in the source; `HyperEngine.HyperEngine.CountersFit` says for how many literals that makes no difference.
- HyperEngine.HyperEngine.PropagateBfs: time is counted in rounds, where the source counts work; after a pass that ran out of time it is not stated how far propagation got.
- ClauseArena.ClauseAllocator.Consolidate: the build with offsets above 32 bits is not modelled; `float_div(used, size) > 0.8` is written as `5 * used > 4 * size`.
- ClauseArena.ClauseAllocator.ClauseNew: running out of memory ends the program there, the model returns nothing; the contents of fresh memory are arbitrary and never read.
- Gaussian.Gaussian.HandleMatrixPropAndConfl: the order of the literals of a conflict clause, attaching it, and the reason object of a propagated literal are not modelled; going back levels is, in `GaussLevels`.
- Gaussian.Gaussian.PerformGauss: one round by itself; keeping and restoring matrices over decision levels is in `GaussLevels`, where that resuming needs a row left is proved to be so. The column order, by activity in the source, is a parameter.
- GaussLevels.Search.FindTruths: there is one matrix; the temporary clauses it frees on backtracking (`clauses_toclear`) and the counts behind `disable_if_necessary` are left out, the matrix may be disabled at any time.
- GaussLevels.Search.NewDecisionLevel: the choice of the decision and the rest of the search are left out; what is kept of it is that a level is opened only after a round that found nothing, and that after a reported conflict a level is undone.
- PackedMatrix.PackedMatrix.Assign: storage is zero when allocated; in the source it is whatever was there, and rows are set before they are read.
- `PackedRow::operator=` copies bytes where words are meant; elimination does not use it, and it is not modelled.
- OccSimplifier.OccSimplifier.EliminateVars: the order of the candidates is a parameter; touched variables, occurrence counts for ordering and the repeated rounds are not modelled.
- OccSimplifier.OccSimplifier.TestElimAndFillResolvents: the aggressive check of resolvents against cache, stamps and binary clauses is left out; lists are not sorted by size first, and neither are the resolvents. Effort is spent where clauses are resolved only.
- OccSimplifier.OccSimplifier.ResolveClauses: the aggressive check of the resolvent inside the function (`aggressiveCheck` against cache, stamps and binary clauses) is left out; what is modelled is the merging and the test for a tautology.
- OccSimplifier.OccSimplifier.AddVarelimResolvent: subsumption and strengthening by a new resolvent, and simplification of it by facts at level zero, are left out.
- OccSimplifier.OccSimplifier.ExtendModel: inner and outer numbers are the same here, and replacing equivalent literals is the identity; removing stale entries from the stack afterwards (`cleanBlockedClauses`) is left out.
- Bva.BVA.TryBvaOnLit: the queue of literals ordered by occurrence, its updates, and the choice whether to run at all are left out; effort is spent in the search for candidates only, and less of it at some places.
- DistillerLongWithImpl.DistillerLongWithImpl.ShortenAllClWithCacheWatch: clauses reserved for Gaussian elimination, which the source passes over, and stamps are not modelled; effort is a number of clauses.
- DistillerLongWithImpl.DistillerLongWithImpl.SubStrClWithCacheWatch: stamps are not modelled (subsumption and removal by stamps), nor are clauses reserved for Gaussian elimination; watch entries of long clauses are passed over and not kept up to date.
- DistillerAllWithAll.DistillLongIrredCls: effort is a number of clauses, where the source counts propagations; the clauses come in the order given, not sorted by size; clauses are numbered by where the arena ends, the arena itself is modelled in `ClauseArena`.
- Solver.AddClauseInt: proof output, clause statistics, checks for removed variables and variables recorded as free of constraints are left out.
- HyperEngine.HyperEngine.CarryOut: clauses found by on-the-fly subsumption are not added here, and setting the negation of the failed literal is left to the caller.
- HyperEngine.HyperEngine.RemoveUselessBins: marks that spare binary clauses (`except_marked`, used by intree probing) are not modelled.
- InTree.InTree.HandleLitPoppedFromQueue: propagation is the ordinary one; with hyper-binary resolution switched on, as it is by default, the source calls `propagate_bfs` here, whose guarantees are stated here for level 1 only: on deeper levels the forest is rooted anew at each decision, above the trees of the levels below. A changed reason is kept beside the one it was set with, instead of overwriting it.
- InTree.InTree.IntreeProbe: effort is a number of queue elements; the round is the one without hyper-binary resolution; marks on binary clauses and their removal afterwards are left out.
- InTree.InTree.LookAtNext: the step is the one without hyper-binary resolution.
- InTree.InTree.TreeLook: attaching hyper-binary clauses and removing useless ones between levels, as is done with hyper-binary resolution, is left out; after running out of effort, reasons still changed are not put back, in the source as in the model.
- InTree.InTree.Enqueue: marking binary clauses so that transitive reduction spares them is left out.
- CompFinder.CompFinder.FindComponents: effort is a number of clauses and variables looked at; cleaning the clauses beforehand is taken as given: a clause has each variable once.
- Cnf.CNF.NewVar: watch lists, `seen`, cache, stamps and activities grow along in the source; only values and data of variables are modelled. The limit is reported, not thrown.
- Cnf.CNF.UpdateVars: literals inside clauses and watch entries, the trail and the activities are renumbered by other code that is not part of this model.
- Heap.Heap.Build: elements must be known to the position table, as in the source, which does not grow it here.
- Stamping, depth-first probing, the scc finder, subsumption, search, restarts, the sub-solver runs for components and data sharing are not modelled.
- Parsing, dumping, proof output, options, timing, statistics, the C and ipasir interfaces and the database are input, output or plumbing.
- `gatefinder.cpp`, `matrixfinder.cpp` and the small containers would only add easy members.
