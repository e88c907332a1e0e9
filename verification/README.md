# pjos in Dafny

A model of pjos, a C++ library of SAT solvers, and of the Python harness that
checks its answers. The model covers the propositional data layer, the solver
data structures that pjos updates in place, the DPLL and CDCL engines, the
DIMACS loader and the text formatters, the IPASIR incremental interface, and
the output parser and cross-check of the test harness. Each part is stated
and proved to keep the promises its source makes.

Layout, one module per source component:

- `core.dfy` and `wrappers.dfy`: the solver enumerations, and `Option`/`Result`. `Option`/`Result` stand for null pointers and thrown `SatError`s.
- `literal.dfy`: literals as signed non-zero integers. These are pure functions.
- `assignment.dfy`: the 1-based three-valued `Assignment` and its iterator, as classes.
- `clause.dfy`: the immutable `Clause` value with its lookups, and the `ClauseBuilder` class that makes a clause from a literal set.
- `formula.dfy`: the `Formula` and `FormulaBuilder` classes.
- `allocator.dfy`: the chunked `LiteralStackAllocator`. Its blocks are (chunk, offset, length).
- `trail.dfy`: the `DecisionTrail` stack, with its level counter and variable index.
- `watcher.dfy`: the two-watched-literals `Watcher`.
  - `Rescan` is proved exact.
  - `Update` is proved to keep the watcher sound: a Satisfied watcher has a true literal on a watched variable, a Unit watcher's first watch is not false, and the watches stay in range.
- `basesolver.dfy`: `BaseSolver`, which holds the polarity index, watcher maintenance, unit propagation, pending assignments, assumptions and pure-literal scanning.
  - It also covers appending and removing clauses of an owned formula.
  - The headline theorem is on `UnitPropagation`: when it answers satisfied, every clause of the formula has a literal that is true under the assignment.
- `dpll.dfy` and `cdcl.dfy`: the two solvers.
  - CDCL covers first-UIP conflict analysis, learning, backjumping, phase saving and final-conflict analysis over assumptions.
- `text.dfy`, `format.dfy` and `dimacs.dfy`: how integers are written and read, the formatters, and the DIMACS loader.
  - The loader's stream is a text with a read position and eof/fail flags.
  - The round trip from formatting a formula to loading it back is proved.
- `ipasir.dfy`: the IPASIR C interface as a class around a CDCL solver.
- `harness.dfy` and `solvertest.dfy`: the parsing rules of `SatSolver.solve` and the verdict of `run_solver_test`.

Modelling choices:

- A callback whose answer is not known becomes a parameter:
  - The interrupt callback is a step budget: it answers true from its `budget`-th call on.
  - The learned-clause callback is a log of the clauses learned.
  - The reference SAT solver of the harness is an oracle that decides satisfiability.
- The EVSIDS heuristic's choice becomes "some unassigned variable".
- Debug-build assertions in conflict analysis rest on invariants of the implication graph that this model does not carry. The model stops where one would fire, with an explicit `aborted` outcome.
- Standard input, standard error and the solver's subprocess are not modelled. The texts they carry are parameters and results.

## Model

| member | source | states |
|---|---|---|
| Literals.FlipVariableAssignment | headers/pjos/Literal.h:25-38 | the result is Unassigned exactly when the input is, and differs from an assigned input |
| Literals.FlipIsInvolution | headers/pjos/Literal.h:25-38 | flipping twice gives back the original value |
| Literals.FlipNegatesEval | headers/pjos/Literal.h:25-38 | on an assigned value, flipping it flips the truth of every literal |
| Literals.FromInt | headers/pjos/Literal.h:50-57 | with the hot-path check, construction fails exactly on 0 and otherwise keeps the integer |
| Literals.Make | headers/pjos/Literal.h:59-71 | the literal has the given variable and is negative exactly when the value is False (Unassigned gives the positive literal) |
| Literals.FromVariable | headers/pjos/Literal.h:59-71 | with the hot-path check, construction fails exactly on variable 0; otherwise as Make |
| Literals.Variable | headers/pjos/Literal.h:82-84 | the variable is the literal's absolute value |
| Literals.AssignmentOf | headers/pjos/Literal.h:86-90 | the pair is an assigned value that makes the literal true and rebuilds the literal |
| Literals.Eval | headers/pjos/Literal.h:92-95 | true only under an assigned value: True for a positive literal, False for a negative one |
| Literals.Negate | headers/pjos/Literal.h:97-99 | the negation has the same variable and is a different literal |
| Literals.MakeRoundTrip | headers/pjos/Literal.h:82-90 | for an assigned value, Variable and Assignment give back the variable and value a literal was built from |
| Literals.NegateProperties | headers/pjos/Literal.h:97-99 | negation is an involution, flips Eval on assigned values, and no literal is true under Unassigned |
| Literals.LessIsStrictTotalOrder | headers/pjos/Literal.h:131-136 | std::less on literals is irreflexive, asymmetric, transitive and total up to equality |
| Assignments.Cleared | source/Assignment.cpp:11-12 | n slots, every one Unassigned |
| Assignments.Resized | source/Assignment.cpp:27-33 | exactly n slots; the old values are kept on the common prefix and new slots are Unassigned |
| Assignments.Assignment.constructor | source/Assignment.cpp:11-12 | a new assignment of n variables has n slots, all Unassigned |
| Assignments.Assignment.Of | headers/pjos/Assignment.h:127-129 | the checked read succeeds exactly for 1..NumOfVariables and then returns slot index-1 |
| Assignments.Assignment.Set | headers/pjos/Assignment.h:131-134 | in range, only slot index-1 changes and Of(index) reads back the value; out of range it fails and nothing changes |
| Assignments.Assignment.Put | headers/pjos/Assignment.h:140-142 | the unchecked write changes slot index-1 only |
| Assignments.Assignment.Reset | source/Assignment.cpp:22-25 | every slot becomes Unassigned and the size is kept (so a second Reset changes nothing) |
| Assignments.Assignment.SetNumOfVariables | source/Assignment.cpp:27-33 | the slots become Resized(old slots, n): a prefix when shrinking, Unassigned padding when growing |
| Assignments.Assignment.Begin | source/Assignment.cpp:14-16 | a fresh iterator at slot 0 and variable 1 |
| Assignments.Assignment.End | source/Assignment.cpp:18-20 | a fresh iterator at slot n and variable n+1 |
| Assignments.Assignment.Pairs | source/Assignment.cpp:14-20 | iterating from begin() to end() visits the pairs (1, slot 0) ... (n, slot n-1), in order |
| Assignments.AssignmentIterator.constructor | headers/pjos/Assignment.h:28-29 | an iterator starts at the slot offset and variable number it is given |
| Assignments.AssignmentIterator.Next | headers/pjos/Assignment.h:39-43 | the slot offset and the variable number both advance by one, keeping them in step |
| Assignments.AssignmentIterator.Prev | headers/pjos/Assignment.h:45-49 | the slot offset and the variable number both step back by one |
| Assignments.AssignmentIterator.Advance | headers/pjos/Assignment.h:63-73 | both move by the same distance |
| Assignments.AssignmentIterator.Plus | headers/pjos/Assignment.h:75-81 | a new iterator the same distance further in both components |
| Assignments.AssignmentIterator.Deref | headers/pjos/Assignment.h:95-97 | the pair is (variable, value of that variable's slot) |
| Clauses.Empty | headers/pjos/Clause.h:46-48 | a clause is empty exactly when it contains no literal |
| Clauses.FindLiteralFrom | source/Clause.cpp:21-28 | the first position at or after `from` holding the literal, or the end position when none does |
| Clauses.FindLiteral | source/Clause.cpp:21-28 | the first position holding the literal; the end position exactly when the literal does not occur |
| Clauses.HasLiteral | headers/pjos/Clause.h:38-40 | FindLiteral differs from end() exactly when the literal occurs in the clause |
| Clauses.HasVariable | source/Clause.cpp:15-19 | some literal is on the variable exactly when the clause holds v or -v |
| Clauses.At | source/Clause.cpp:30-36 | the checked access succeeds exactly for indices below Length and returns that literal; otherwise it fails |
| Clauses.ListLiterals | headers/pjos/Clause.h:128 | copying a literal set out lists each of its elements exactly once and nothing else |
| Clauses.ClauseBuilder.constructor | headers/pjos/Clause.h:112 | a new builder holds no literal and a variable count of 0 |
| Clauses.ClauseBuilder.Add | source/Clause.cpp:77-81 | set insertion (adding a literal twice changes nothing) and the variable count becomes the maximum of the old count and the literal's variable |
| Clauses.ClauseBuilder.Reset | source/Clause.cpp:83-87 | the set is emptied and the variable count is 0 |
| Clauses.ClauseBuilder.MakeIn | headers/pjos/Clause.h:125-132 | one block of the set's size is taken from the allocator; the clause holds exactly the builder's literals, each once, with the builder's variable count; the builder is reset |
| Clauses.ClauseBuilder.Make | source/Clause.cpp:95-98 | the same with the default allocator: exactly the builder's literals, each once, length the set's size, then the builder is reset |
| Clauses.ClauseBuilder.Build | headers/pjos/Clause.h:127-129 | the copied clause has the set's size, the builder's variable count and exactly the set's literals without repetition |
| Formulas.Formula.constructor | headers/pjos/Formula.h:111 | a new formula has no clause and a variable count of 0 |
| Formulas.Formula.Empty | headers/pjos/Formula.h:124-126 | empty exactly when no clause is stored |
| Formulas.Formula.AppendClause | source/Formula.cpp:19-23 | the clause is appended at the end, the earlier clauses are untouched, and the variable count becomes the maximum of the old count and the clause's; the count keeps covering every clause |
| Formulas.Formula.RemoveClause | source/Formula.cpp:25-32 | reports success exactly for an index below the clause count; then exactly that clause is erased and the order of the others is kept; otherwise nothing changes; the variable count is not recomputed |
| Formulas.Formula.Clear | source/Formula.cpp:34-36 | every clause is dropped and the variable count is kept |
| Formulas.FormulaBuilder.constructor | source/Formula.cpp:38-39 | a new builder starts a new clause over an empty clause builder and leaves the formula's clauses unchanged |
| Formulas.FormulaBuilder.AppendLiteral | source/Formula.cpp:45-48 | the literal joins the pending clause and the builder is no longer at a clause start |
| Formulas.FormulaBuilder.EndClause | source/Formula.cpp:50-53 | exactly one clause is appended, even an empty one, holding exactly the pending literals; the earlier clauses are kept and the pending set is emptied |
| Formulas.FormulaBuilder.Finish | source/Formula.cpp:55-59 | a clause holding exactly the pending literals is appended only when a literal came after the last clause end; otherwise the formula is unchanged |
| Allocators.LiteralStackAllocator.constructor | headers/pjos/Allocator.h:29-31 | a new allocator holds one empty chunk and has handed out nothing |
| Allocators.LiteralStackAllocator.Allocate | headers/pjos/Allocator.h:41-54 | a request longer than the chunk size gets its own owning block; otherwise a new chunk is opened exactly when the top chunk lacks room, and the block is the next `length` slots of the top chunk; every block handed out is disjoint from all earlier ones and lies within its chunk's used part |
| Trails.IsPropagatedFromClause | headers/pjos/DecisionTrail.h:74-76 | none of the three special reason codes counts as a reason clause, and only non-negative reasons do |
| Trails.Trimmed | source/DecisionTrail.cpp:40-42 | the discarding loop leaves a prefix of the trail whose top is within the index, and every removed entry was beyond it |
| Trails.TrimmedIdentity | source/DecisionTrail.cpp:40-42 | a trail whose variables are all indexed loses nothing to the discarding loop |
| Trails.Unassigning | source/DecisionTrail.cpp:50-64 | unassigning the variables of a run of popped entries keeps the slot count |
| Trails.UnassigningClears | source/DecisionTrail.cpp:50-64 | after unassigning popped entries, exactly the slots of their variables are Unassigned and every other slot is kept |
| Trails.UnassigningStep | source/DecisionTrail.cpp:50-64 | popping one more entry extends the unassigned run by that entry's variable |
| Trails.DecisionTrail.constructor | source/DecisionTrail.cpp:16-17 | a new trail is empty at level 0 with every one of the n variables unindexed |
| Trails.DecisionTrail.Find | source/DecisionTrail.cpp:80-90 | no entry for a variable outside the index or unindexed; otherwise an entry of that very variable taken from the trail |
| Trails.DecisionTrail.Push | source/DecisionTrail.cpp:19-37 | the entry is appended, the variable is indexed at its position and Find returns it; the index keeps pointing at entries of their own variables and levels stay ordered |
| Trails.DecisionTrail.Decision | source/DecisionTrail.cpp:19-22 | a decision entry on a new level one above the old one is appended and indexed |
| Trails.DecisionTrail.Propagation | source/DecisionTrail.cpp:24-27 | a propagation entry without reason clause on the current level is appended and indexed |
| Trails.DecisionTrail.PropagationFrom | source/DecisionTrail.cpp:29-32 | a propagation entry whose reason is the clause index, on the current level, is appended and indexed |
| Trails.DecisionTrail.Assumption | source/DecisionTrail.cpp:34-37 | an assumption entry on a new level is appended and indexed |
| Trails.DecisionTrail.Discard | source/DecisionTrail.cpp:40-42 | the loop drops exactly the top entries whose variable is beyond the index; level and index are kept |
| Trails.DecisionTrail.Top | source/DecisionTrail.cpp:39-48 | after discarding, the top entry, or none exactly when the trail is empty |
| Trails.DecisionTrail.Pop | source/DecisionTrail.cpp:50-64 | after discarding, the top entry is removed and its variable unindexed, so Find no longer sees it; the level becomes the new top's level, or 0 on an empty trail; an empty trail is left unchanged |
| Trails.DecisionTrail.Reset | source/DecisionTrail.cpp:66-70 | the trail empties, the level is 0 and every variable is unindexed, keeping the index size |
| Trails.DecisionTrail.SetNumOfVariables | source/DecisionTrail.cpp:72-78 | the index gets size n, keeps its old positions below n and marks new variables unindexed; trail and level are kept |
| Watchers.Initial | source/Watcher.cpp:13-25 | the state of a new watcher: Unsatisfied with no watch for an empty clause, Unit watching position 0 for one literal, Undecided watching 0 and 1 otherwise |
| Watchers.InitialIsCanonical | source/Watcher.cpp:13-25 | while every variable of the clause is unassigned, the initial state is exactly what a full rescan computes |
| Watchers.CanonicalIsSoundAndSettled | source/Watcher.cpp:89-107 | the state a full rescan computes keeps the watcher invariant (distinct in-range watches, a Unit watcher watching exactly one position, a Satisfied watcher watching a true variable) and watches no true literal unless Satisfied |
| Watchers.SatisfiedHasTrueLiteral | source/Watcher.cpp:34-51 | a sound watcher reporting Satisfied belongs to a clause that has a true literal under the assignment |
| Watchers.AgreeFrame | headers/pjos/Watcher.h:45-48 | a watcher's soundness, settledness and canonicity depend only on the values of its own clause's variables |
| Watchers.UnwatchedUpdate | source/Watcher.cpp:53-56 | the early return when neither watch is on the assigned variable keeps the watcher sound and settled, and canonical when the new value satisfies no literal |
| Watchers.UnwatchedKeepsCanonical | source/Watcher.cpp:53-56 | the canonical half of the early return: no literal became true, so the semantic status and the watches' justification are unchanged |
| Watchers.SatisfyingUpdateSound | source/Watcher.cpp:34-51 | after the satisfying branch the watcher is Satisfied and sound, and canonical when it was canonical and the variable was unassigned before |
| Watchers.RecomputedSound | source/Watcher.cpp:58-77 | the watches and status of the re-examining branch keep the watcher invariant |
| Watchers.RecomputedSettled | source/Watcher.cpp:58-77 | the re-examining branch leaves no true literal watched by a non-Satisfied watcher, given that the old state was settled or Satisfied |
| Watchers.Recomputed | source/Watcher.cpp:58-77 | the re-examining branch is sound; settled under the same condition; canonical after assigning a fresh variable whose value satisfies no literal |
| Watchers.RecomputedCanonical | source/Watcher.cpp:58-77 | after assigning a fresh variable against every literal on it, the re-examined watcher is exactly the canonical one |
| Watchers.TautologyFirstPassDisagrees | source/Watcher.cpp:58-86 | on the clause `1 -1` watching positions 0 and 1, the re-examining branch for x1 false ends Undecided with watches -1 and 1, while the clause's status, which Rescan computes, is Satisfied |
| Watchers.SecondPassAgrees | headers/pjos/BaseSolver.h:363-374 | a sound watcher re-examined after an assignment and then given the satisfying pass for the literal the value makes true is exactly in the state Rescan computes, Satisfied with a true watch |
| Watchers.Watcher.constructor | source/Watcher.cpp:13-25 | the watcher is on the given clause and in the initial state |
| Watchers.Watcher.IsSatisfied | source/Watcher.cpp:119-126 | false for no watch; otherwise true exactly when the watched literal is true, which implies its variable is assigned |
| Watchers.Watcher.IsUnsatisfied | source/Watcher.cpp:128-135 | true for no watch; otherwise true exactly when the watched literal is assigned and false |
| Watchers.Watcher.WatchTrichotomy | source/Watcher.cpp:119-135 | a real watched position is exactly one of satisfied, unsatisfied and unassigned |
| Watchers.Watcher.FindUnassigned | source/Watcher.cpp:109-117 | the smallest position other than `other` whose variable is unassigned, or -1 exactly when there is none |
| Watchers.Watcher.UpdateStatus | source/Watcher.cpp:137-148 | the watches are kept and the status is Satisfied, Undecided, Unit or Unsatisfied by the order of tests in the source |
| Watchers.Watcher.Rescan | source/Watcher.cpp:89-107 | after a full pass the status is the semantic status of the clause (Satisfied with a true literal, else Undecided, Unit or Unsatisfied by the number of unassigned literals), with a true literal watched when Satisfied and the first unassigned positions watched otherwise |
| Watchers.Watcher.RescanStatus | source/Watcher.cpp:106 | UpdateStatus on watches that the rescan loop placed yields the canonical state |
| Watchers.Watcher.Update | source/Watcher.cpp:27-87 | the watcher stays sound after every assignment it is told about; a satisfying assignment makes it Satisfied; it stays settled unless a watched literal just became true; a watcher that was canonical for a fresh assignment is canonical afterwards |
| Watchers.Watcher.SatisfyingUpdate | source/Watcher.cpp:34-51 | the satisfying branch: the watcher becomes Satisfied and stays sound, and stays canonical for a fresh variable |
| Watchers.Watcher.FalsifyingUpdate | source/Watcher.cpp:52-78 | the other branch: the early return or the re-examination keeps the watcher sound, settled and canonical under the conditions above |
| Watchers.Watcher.Recompute | source/Watcher.cpp:58-77 | a false or missing watch moves to the first unassigned position (the second one avoiding the first), and the status follows the watches as in UpdateStatus, keeping Satisfied only while a watch is true |
| BaseSolvers.Summary | headers/pjos/BaseSolver.h:78-83 | the polarity records exactly which signs occurred: it has the positive sign exactly when asked to, and likewise the negative one |
| BaseSolvers.NextPolarity | headers/pjos/BaseSolver.h:325-358 | the polarity after recording one more occurrence is the summary of the old signs plus the new one (None becomes pure, pure meeting the other sign becomes Mixed, Mixed stays) |
| BaseSolvers.UpdateClauseIndex | headers/pjos/BaseSolver.h:321-361 | every variable's entry gains the clause in its positive list exactly when the clause holds the positive literal, likewise for the negative list, and its polarity adds the signs seen; the entry count is kept |
| BaseSolvers.IndexAppend | headers/pjos/BaseSolver.h:97-101 | recording a clause appended after the others keeps the index exact: each entry lists exactly the clauses holding each of its literals |
| BaseSolvers.IndexGrow | headers/pjos/BaseSolver.h:152-154 | new empty entries for the added variables keep the index exact |
| BaseSolvers.IndexRemove | headers/pjos/BaseSolver.h:171-187 | dropping the removed clause's number from every list and moving later numbers down by one keeps the index exact for the formula without that clause |
| BaseSolvers.RenumberedMembers | headers/pjos/BaseSolver.h:173-186 | after removal and renumbering, a number is listed exactly when it named a clause before the removed one, or the clause after it in the old numbering |
| BaseSolvers.UntouchedAgree | headers/pjos/BaseSolver.h:363-374 | a clause with no literal on the assigned variable sees no difference between the assignments before and after, so its watcher needs no update |
| BaseSolvers.UpdatePositive | headers/pjos/BaseSolver.h:366-368 | the watcher of a clause holding the positive literal is updated: it is sound, Satisfied when the value is True, and settled otherwise unless the clause also holds the negative literal that just became true |
| BaseSolvers.UpdateNegative | headers/pjos/BaseSolver.h:371-373 | the watcher of a clause holding the negative literal is updated and ends sound and settled, whether or not the positive pass saw it first |
| BaseSolvers.AssigningDecreasesCount | headers/pjos/BaseSolver.h:114-145 | assigning an unassigned variable removes exactly one unassigned slot, the measure that bounds the propagation loop |
| BaseSolvers.PropagationsCompose | headers/pjos/BaseSolver.h:117-138 | two runs of propagation, the second keeping the first's values, make one run: every new entry is at the current level and names a clause holding the literal it made true |
| BaseSolvers.VariablesAppend | headers/pjos/BaseSolver.h:285-291 | the variables of the pending list grow by exactly the appended entry's variable |
| BaseSolvers.BaseSolver.PeekTop | source/DecisionTrail.cpp:39-48 | Top on a trail whose variables are all indexed discards nothing and returns the top entry, or none for an empty trail |
| BaseSolvers.BaseSolver.PopTop | source/DecisionTrail.cpp:50-64 | Pop on such a trail removes exactly the top entry and the level becomes the new top's level, or 0 |
| BaseSolvers.BaseSolver.constructor | headers/pjos/BaseSolver.h:91-102 | one watcher per clause in the formula's order, each canonical under the all-unassigned assignment; an exact variable index; an empty trail, nothing pending, status Unknown, not yet solved |
| BaseSolvers.BaseSolver.PositivePass | headers/pjos/BaseSolver.h:365-368 | the loop over positive occurrences updates exactly the listed watchers and leaves every other watcher's state unchanged |
| BaseSolvers.BaseSolver.NegativePass | headers/pjos/BaseSolver.h:370-373 | the loop over negative occurrences leaves every listed watcher sound and settled and every other watcher as the positive pass left it |
| BaseSolvers.BaseSolver.UpdateWatchers | headers/pjos/BaseSolver.h:363-374 | after the assignment, every watcher is sound and settled again, and watchers of clauses without the variable are untouched |
| BaseSolvers.BaseSolver.Assign | headers/pjos/BaseSolver.h:108-112 | the slot of the variable takes the value, no other slot changes, and the solver invariant (exact index, sound and settled watchers) is restored |
| BaseSolvers.BaseSolver.PropagateUnit | headers/pjos/BaseSolver.h:127-133 | the one open literal of a Unit clause is assigned and recorded on the current level with that clause as reason; the number of unassigned variables drops and no earlier value changes |
| BaseSolvers.BaseSolver.UnitPropagation | headers/pjos/BaseSolver.h:114-145 | Sat only when every clause has a true literal; Unsat names a clause whose watcher is Unsatisfied; Pass leaves no Unit or Unsatisfied watcher; every new trail entry is a propagation on the current level from a clause holding its literal, and no earlier value changes |
| BaseSolvers.BaseSolver.Sweep | headers/pjos/BaseSolver.h:119-137 | one pass stops at the first Unit clause (assigning it, so the unassigned count drops) or the first Unsatisfied one; a pass that does neither leaves every watcher Satisfied or Undecided and changes no value |
| BaseSolvers.BaseSolver.SatisfiedFormula | headers/pjos/BaseSolver.h:139-144 | every watcher reporting Satisfied means every clause has a true literal, which is what makes the Sat answer sound |
| BaseSolvers.BaseSolver.Interrupt | headers/pjos/BaseSolver.h:37-42 | the interrupt flag is set and nothing else changes |
| BaseSolvers.BaseSolver.ResetState | headers/pjos/BaseSolver.h:220-227 | nothing pending, every variable unassigned, an empty trail at level 0, and every watcher canonical again |
| BaseSolvers.BaseSolver.RescanAll | headers/pjos/BaseSolver.h:224-226 | every watcher is rescanned: canonical, sound and settled under the current assignment |
| BaseSolvers.BaseSolver.PerformPendingAssignment | headers/pjos/BaseSolver.h:229-247 | succeeds exactly unless an assumption meets the opposite value; an assumption is assigned if needed and opens a new level; a hint on an unassigned variable becomes a decision; otherwise nothing changes |
| BaseSolvers.BaseSolver.Open | headers/pjos/BaseSolver.h:232-244 | the value is assigned and an assumption or decision entry opens a new level |
| BaseSolvers.BaseSolver.VerifyPendingAssignments | headers/pjos/BaseSolver.h:249-262 | true exactly when every pending assumption from the given position is honoured (unassigned or equal); the conflict changes only when one is not |
| BaseSolvers.BaseSolver.SaveAssumptions | headers/pjos/BaseSolver.h:284-291 | each assumption literal is appended in order as an enforced pending assignment of its variable and value |
| BaseSolvers.BaseSolver.ScanPureLiterals | headers/pjos/BaseSolver.h:191-214 | the found assignments are in increasing variable order, each is a non-enforced assignment of an unassigned variable whose opposite literal occurs in no clause, and every unassigned variable that is not Mixed is found |
| BaseSolvers.BaseSolver.PureOf | headers/pjos/BaseSolver.h:194-212 | a variable is reported exactly when it is unassigned and not Mixed, with True for PurePositive or None and False for PureNegative, and the opposite literal occurs nowhere |
| BaseSolvers.BaseSolver.PreSolve | headers/pjos/BaseSolver.h:264-271 | the state is reset unless the solver is fresh; afterwards the solver is not fresh, not interrupted and Solving |
| BaseSolvers.BaseSolver.GrowTo | headers/pjos/BaseSolver.h:150-154 | the assignment, the trail index and the variable index grow to the new variable count, with the new variables unassigned and unindexed, keeping the invariant |
| BaseSolvers.BaseSolver.AttachClause | headers/pjos/BaseSolver.h:147-160 | a finished status becomes Unknown, the state grows to the formula's variable count, and a watcher for the new clause is appended, rescanned to canonical under the current assignment |
| BaseSolvers.BaseSolver.InsertWatcher | headers/pjos/BaseSolver.h:157-159 | the new clause's watcher is canonical and the index records the clause, so the invariant holds for the longer formula |
| BaseSolvers.BaseSolver.AppendClause | headers/pjos/BaseSolver.h:382-386 | the clause goes to the end of the owned formula and is attached; the earlier watchers, the trail and the pending list are kept, and a finished status becomes Unknown |
| BaseSolvers.BaseSolver.DetachClause | headers/pjos/BaseSolver.h:162-189 | the removed clause's watcher goes and the index no longer lists the clause, renumbering the later ones; a finished status becomes Unknown |
| BaseSolvers.BaseSolver.RemoveClause | headers/pjos/BaseSolver.h:388-392 | the clause at the index is detached and erased from the owned formula, keeping the order of the others and the invariant; the variable count is not recomputed |
| Dpll.LastChoice | source/DpllSolver.cpp:37-51 | the position of the topmost entry that is neither kind of propagation, every entry above it being a propagation; -1 exactly when the whole trail is propagations |
| Dpll.UndoAdvance | source/DpllSolver.cpp:37-51 | one round of the undo loop: popping a propagation extends the unassigned run by its variable, and stopping at a decision or assumption finds LastChoice |
| Dpll.HighestUnassigned | source/DpllSolver.cpp:62-72 | the largest unassigned variable, every larger one being assigned, or 0 when all are assigned |
| Dpll.DpllSolver.constructor | source/DpllSolver.cpp:15-16 | the shared state over the formula, with nothing assigned, an empty trail, nothing pending and status Unknown |
| Dpll.DpllSolver.Backtrack | source/DpllSolver.cpp:33-56 | propagations above the topmost decision or assumption are popped and unassigned; that entry is popped and its variable pushed back with the flipped value as a reasonless propagation on the level below; with no such entry the trail empties and the report is false |
| Dpll.DpllSolver.PopPropagations | source/DpllSolver.cpp:37-51 | the undo loop: the trail is cut at LastChoice, the popped propagations' variables are unassigned, and the decision's variable and value are returned with the level of the new top |
| Dpll.DpllSolver.UndoTop | source/DpllSolver.cpp:38-50 | one round: the top entry is returned and popped, its variable unassigned only if it is a propagation; an empty trail yields none and changes nothing |
| Dpll.DpllSolver.Decide | source/DpllSolver.cpp:57-73 | the highest unassigned variable is decided True on a new level; when every variable is assigned nothing changes |
| Dpll.DpllSolver.SolveImpl | source/DpllSolver.cpp:23-82 | the answer is Satisfied, Unsatisfied or Unknown; Satisfied only when every clause has a true literal; Unsatisfied only with an empty trail or a pending assumption the assignment contradicts; an interrupt yields Unknown |
| Dpll.DpllSolver.Search | source/DpllSolver.cpp:24-81 | the loop of SolveImpl with its promise; when asked to verify the pending assignments, Satisfied also comes with every pending assignment honoured |
| Dpll.DpllSolver.SolveImplVerified | source/CdclSolver.cpp:51-58 | SolveImpl with the check CdclSolver makes before answering Satisfied: Satisfied only when every clause has a true literal and every pending assignment is honoured; Unsatisfied only with an empty trail or a contradicted pending assignment |
| Dpll.SatisfiedIgnoresAssumption | source/DpllSolver.cpp:30-32 | on the formula `1 0` under the assumption -1, every assignment that satisfies the formula, as the first propagation does before the assumption is performed, contradicts the assumption |
| Dpll.AssumptionIsFlipped | source/DpllSolver.cpp:44-50 | the undo loop stops at an assumption entry on top of the propagations, so Backtrack flips it as it would a decision |
| Dpll.DpllSolver.Solve | headers/pjos/BaseSolver.h:52-59 | PreSolve, then the assumptions queued last as enforced pending assignments, then SolveImpl; the answer becomes the current status, and Satisfied comes with a model of every clause |
| Cdcl.CountUpdate | headers/pjos/CdclSolver.h:87-105 | re-marking one variable moves it from the count of its old mark to that of the new one, the bookkeeping behind the pending counter |
| Cdcl.CountAbsent | headers/pjos/CdclSolver.h:89 | a track with no Pending mark has a pending count of 0, which ends the final-conflict walk |
| Cdcl.SavedPhases | source/CdclSolver.cpp:189-193 | the saved phases after a backjump keep the slot count |
| Cdcl.SavedPhasesRecords | source/CdclSolver.cpp:189-193 | a variable keeps its saved phase unless a popped decision above the target names it, and then the lowest such decision's value wins |
| Cdcl.BackjumpAdvance | source/CdclSolver.cpp:181-196 | popping one more entry extends both the unassigned run and the saved-phase record by that entry |
| Cdcl.ChosenPhase | source/CdclSolver.cpp:92-97 | a decision value is never Unassigned and is the saved phase whenever phase saving is on and one is saved |
| Cdcl.BlamedFromReason | headers/pjos/CdclSolver.h:99-101 | literals added while marking a reason clause are assumption values, which count as blamed whatever the seed |
| Cdcl.ProgressAppend | source/CdclSolver.cpp:71-72 | appending a learned clause keeps the solving loop's bookkeeping |
| Cdcl.ProgressPerform | source/CdclSolver.cpp:100-113 | performing a pending assignment keeps the bookkeeping and counts one more assumption exactly when it is one |
| Cdcl.ProgressDecide | source/CdclSolver.cpp:87-99 | a decision, taken once every pending assignment is performed, keeps the bookkeeping |
| Cdcl.LoggedTrans | source/CdclSolver.cpp:72-75 | the log of learned clauses composes: clauses logged over two stretches are those of the whole |
| Cdcl.AssumptionsBelow | source/CdclSolver.cpp:78 | assumptions at or below one level are at or below any higher one |
| Cdcl.PropagationsKeepTop | source/CdclSolver.cpp:50 | propagations on the top level keep the level counter equal to the top entry's level |
| Cdcl.LearnedShape | source/CdclSolver.cpp:162-173 | the learned clause holds the UIP's opposing literal at the conflict level, and every other literal opposes a lower entry at most the backjump level, which is below the conflict level and attained unless it is the level just below |
| Cdcl.CdclSolver.constructor | source/CdclSolver.cpp:22-27 | the shared state over the formula, an all-Untracked analysis track and all-Unassigned saved phases of the variable count, default parameters and nothing learned |
| Cdcl.CdclSolver.Backjump | source/CdclSolver.cpp:180-199 | exactly the entries above the target level are popped and unassigned, the decisions among them above the target save their values when phase saving is on, and the level ends at most the target |
| Cdcl.CdclSolver.PopRound | source/CdclSolver.cpp:181-197 | one round of the loop undoes one more entry of the original trail |
| Cdcl.CdclSolver.PopAbove | source/CdclSolver.cpp:182-196 | the top entry, above the target, is popped and unassigned and its phase saved if it is a decision above the target |
| Cdcl.CdclSolver.SavePhase | source/CdclSolver.cpp:189-193 | the saved phase of the entry's variable is its value exactly when the entry is a decision above the target and phase saving is on |
| Cdcl.CdclSolver.UnassignTop | source/CdclSolver.cpp:195-196 | the top entry's variable is unassigned and the entry popped |
| Cdcl.CdclSolver.FindPending | source/CdclSolver.cpp:148-151 | the highest position at or below the start whose variable is marked Pending, or a report that none is |
| Cdcl.CdclSolver.ScanConflictClause | source/CdclSolver.cpp:129-145 | marks never move back and tracked marks stay; the learned literals only grow, each opposing an entry below the current level at most the new backjump level |
| Cdcl.CdclSolver.ScanVariable | source/CdclSolver.cpp:130-144 | one literal of the scan: an untracked variable on the current level becomes Pending and adds a path, one below it adds its opposing literal and may raise the backjump level |
| Cdcl.CdclSolver.AnalyzeConflict | source/CdclSolver.cpp:117-174 | the learned clause holds the opposing literal of an entry on the current level and otherwise opposing literals of lower entries; the backjump level is below the current one and attained by a literal unless it is the level just below |
| Cdcl.CdclSolver.FirstUip | source/CdclSolver.cpp:119-173 | the work of AnalyzeConflict with the same promise, the builder emptied for the next analysis |
| Cdcl.CdclSolver.LearnClause | source/CdclSolver.cpp:162-173 | the UIP's opposing literal joins the clause and a backjump level of 0 becomes the level just below, so the clause is a learned clause in the above sense |
| Cdcl.CdclSolver.ResolveToUip | source/CdclSolver.cpp:124-160 | the resolution loop ends at a trail position (the UIP), with the learned literals opposing lower entries |
| Cdcl.CdclSolver.ResolveRound | source/CdclSolver.cpp:128-160 | one round keeps the loop's state and, unless done, moves strictly down the trail |
| Cdcl.CdclSolver.MarkClause | headers/pjos/CdclSolver.h:109-128 | only Untracked marks change, to Pending, and the pending count grows by the number returned; every literal it adds to the final conflict is the value of an assumption entry or, for a failed assumption, of an entry on one of its variables |
| Cdcl.CdclSolver.AnalyzeFinalConflict | headers/pjos/CdclSolver.h:83-106 | the final conflict only grows, with values of assumption entries reached through reason clauses (or of the failed assumption's variables), and no mark is left Pending |
| Cdcl.CdclSolver.ProcessPending | headers/pjos/CdclSolver.h:90-104 | one round takes the next Pending entry as processed; the pending count drops by one and grows by the marks of its reason clause |
| Cdcl.CdclSolver.PopVariable | source/CdclSolver.cpp:88-90 | an unassigned variable, or 0 exactly when every variable is assigned |
| Cdcl.CdclSolver.Decide | source/CdclSolver.cpp:87-99 | an unassigned variable is decided on its chosen phase on a new level; 0 and no change exactly when every variable is assigned |
| Cdcl.CdclSolver.Branch | source/CdclSolver.cpp:98-99 | the decision entry opens a new level and the value is assigned |
| Cdcl.CdclSolver.AppendClause | source/CdclSolver.cpp:201-209 | the clause is appended and attached; the analysis track grows with Untracked marks and the saved phases are resized to the new variable count; the trail and pending list are kept |
| Cdcl.CdclSolver.Attached | source/CdclSolver.cpp:204-208 | the analysis track grows with Untracked marks to the variable count and the saved phases are resized |
| Cdcl.CdclSolver.RemoveClause | source/CdclSolver.cpp:211-219 | the clause at the index is detached and removed, keeping the order of the others; the saved phases keep their size because removal never lowers the variable count |
| Cdcl.CdclSolver.Propagate | source/CdclSolver.cpp:50 | Sat only when every clause has a true literal; Unsat names a clause whose watcher is Unsatisfied; the loop's bookkeeping is kept |
| Cdcl.CdclSolver.FinalStep | source/CdclSolver.cpp:63-66 | with analysis on, every literal of the final conflict is the trail value of a responsible assumption; with it off, the final conflict stays empty |
| Cdcl.CdclSolver.Learn | source/CdclSolver.cpp:71-75 | the learned clause is appended to the formula and logged, and is a learned clause for the conflict with its backjump level |
| Cdcl.CdclSolver.Record | source/CdclSolver.cpp:72-75 | the clause is appended to the formula and to the log, keeping the trail and bookkeeping |
| Cdcl.CdclSolver.ConflictStep | source/CdclSolver.cpp:61-86 | a conflict either lets the search go on after a backjump, or stops it with an Unsatisfied clause and, with analysis on, a final conflict of responsible assumption values |
| Cdcl.CdclSolver.JumpOrStop | source/CdclSolver.cpp:77-84 | a backjump level below the assumptions stops the search; otherwise the solver backjumps and the bookkeeping holds |
| Cdcl.CdclSolver.SatStep | source/CdclSolver.cpp:51-60 | Satisfied only when every remaining pending assumption is honoured; Unsatisfied only with a contradicted one, and then the final conflict is made of responsible assumption values |
| Cdcl.CdclSolver.PendingStep | source/CdclSolver.cpp:100-113 | the next pending assignment is performed, counting assumptions; a contradicted assumption stops the search with a final conflict of responsible values |
| Cdcl.CdclSolver.DecideStep | source/CdclSolver.cpp:87-99 | a decision keeps the bookkeeping; 0 exactly when every variable is assigned |
| Cdcl.CdclSolver.AddPureLiterals | source/CdclSolver.cpp:39-41 | pure-literal assignments are queued behind the existing pending ones, each a hint whose opposite literal occurs nowhere |
| Cdcl.CdclSolver.SolveImpl | source/CdclSolver.cpp:38-115 | Satisfied only when every clause has a true literal; Unsatisfied only with a contradicted assumption or a clause whose watcher reports Unsatisfied; with analysis, a final conflict of responsible assumption values; an interrupt yields Unknown; only hints are queued and the formula grows only by logged learned clauses |
| Cdcl.CdclSolver.Search | source/CdclSolver.cpp:45-114 | the loop of SolveImpl with the same promise |
| Cdcl.CdclSolver.Round | source/CdclSolver.cpp:46-113 | one round either ends the search with that promise or keeps the bookkeeping for the next one |
| Cdcl.CdclSolver.Solve | headers/pjos/BaseSolver.h:52-59 | the answer is stored as the current status and keeps the SolveImpl promise; the assumptions are the first, enforced pending assignments |
| Cdcl.CdclSolver.SolveWithFinalConflict | headers/pjos/CdclSolver.h:47-59 | as Solve with final conflict analysis: on Unsatisfied the handed-out conflict is made of responsible assumption values and the solver's own copy is cleared; otherwise nothing is handed out |
| Cdcl.CdclSolver.Run | headers/pjos/BaseSolver.h:53-56 | PreSolve, the saved assumptions, and SolveImpl, with the SolveImpl promise |
| Cdcl.CdclSolver.Conclude | headers/pjos/BaseSolver.h:56 | the answer becomes the current status |
| Cdcl.CdclSolver.HandOut | headers/pjos/CdclSolver.h:54-57 | on Unsatisfied the final conflict is handed out and cleared; otherwise nothing is handed out |
| Cdcl.CdclSolver.Prepare | headers/pjos/BaseSolver.h:54-55 | the state is reset and the assumptions become the only, enforced pending assignments |
| Text.DigitChar | source/Format.cpp:13 | a digit value below 10 is written as a decimal digit character |
| Text.DigitValue | source/Dimacs.cpp:52 | a decimal digit character reads as a value below 10 |
| Text.NatText | source/Format.cpp:25 | a count is written as a non-empty run of decimal digits without leading zero |
| Text.NatTextRoundTrip | source/Format.cpp:25 | reading the digits of a written count gives the count back |
| Text.DigitsFromSnoc | source/Dimacs.cpp:52 | reading left to right, one more digit multiplies the value read so far by ten and adds the digit |
| Text.DigitsFromZero | source/Dimacs.cpp:52 | reading digits left to right from 0 gives their value |
| Text.IntText | source/Format.cpp:13 | an integer is written with a leading minus sign exactly when it is negative |
| Text.IntTextNoSpace | source/Format.cpp:13 | the text of an integer holds no whitespace, so it reads back as one word |
| Text.SignedValue | source/Dimacs.cpp:26 | a word reads as an integer exactly when it is digits, or a sign followed by at least one digit |
| Text.IntTextRoundTrip | source/Format.cpp:13 | reading a written integer gives it back, so distinct integers are written differently |
| Text.WordEnd | source/Format.cpp:35-46 | reading the space-separated assignment text back: the end of the word starting at a position: the first whitespace after it, or the end of the text, with no whitespace in between |
| Text.Words | source/Format.cpp:35-46 | reading the assignment text back: the whitespace-separated words of a text, each non-empty and free of whitespace |
| Text.WordsPrefix | source/Format.cpp:35-46 | reading one formatted literal and its separator back: a word followed by whitespace or by nothing is the first word of the text |
| Text.WordEndOfPrefix | source/Format.cpp:35-46 | reading one formatted literal back: the word starting inside such a leading word ends where that word ends |
| Formats.LiteralText | source/Format.cpp:12-14 | a literal prints as one word that reads back as its signed integer |
| Formats.StatusTextOneToOne | source/Format.cpp:48-67 | distinct statuses print differently, so a status line identifies the status |
| Formats.CommentText | source/Format.cpp:69-72 | a comment line is `c `, a blank and the string unchanged |
| Formats.AssignedLiterals | source/Format.cpp:35-46 | the literals that hold under the assignment, each on a variable in range, by increasing variable |
| Formats.AssignedLiteralsComplete | source/Format.cpp:35-46 | every assigned variable contributes its literal |
| Formats.Texts | source/Format.cpp:39 | the printed literals of a sequence, one per literal, in order |
| Formats.AssignmentWords | source/Format.cpp:35-46 | the words of the corrected assignment text are exactly the printed literals that hold, in order |
| Formats.TokenWords | source/Format.cpp:39-42 | a token followed by a blank, or by nothing at the end, is the first word |
| Formats.TextsCons | source/Format.cpp:39 | the printed literals of a sequence with one more literal in front |
| Formats.AssignmentTextReadsBack | source/Format.cpp:35-46 | the corrected assignment text, read back as whitespace-separated integers, gives exactly the literals that hold, by increasing variable |
| Formats.AssignmentSignLost | source/Format.cpp:39 | the assignment text as written holds no minus sign whatever the assignment, so a false variable cannot be told from a true one |
| Formats.AssignmentWrapExample | source/Format.cpp:39 | variable 1 false prints as 18446744073709551615 as written, where -1 is intended |
| Formats.ModelLiterals | headers/pjos/Format.h:73-75 | one literal per variable of the model line, on that variable, negative exactly when the variable is false |
| Dimacs.LineEnd | source/Dimacs.cpp:49 | the line read by getline ends at the first newline at or after the read position, or at the end of the input |
| Dimacs.SkipSpace | source/Dimacs.cpp:52-53 | strtoull skips leading whitespace: the position found is not before the start and holds no whitespace |
| Dimacs.Digits | source/Dimacs.cpp:26 | a run of decimal digits is read to its end, which is followed by a non-digit or the end of the input |
| Dimacs.LineRead | source/Dimacs.cpp:49 | getline moves the stream forward, and a read that consumes nothing sets eof |
| Dimacs.IntRead | source/Dimacs.cpp:26 | reading a 64-bit signed integer that leaves the stream without fail consumes input and gives a value in the 64-bit range |
| Dimacs.StrToULL | source/Dimacs.cpp:52-53 | strtoull gives a value below 2^64 and an end position at or after its start |
| Dimacs.StrToULLOfNat | source/Dimacs.cpp:52-53 | strtoull over whitespace and the decimal digits of a count below 2^64 gives that count and stops after its digits |
| Dimacs.Preamble | source/Dimacs.cpp:45-60 | the preamble scan fails only with "Invalid DIMACS file format", and on success leaves the stream without fail |
| Dimacs.PreambleOfLine | source/Dimacs.cpp:48-54 | a first line starting with `p cnf ` and followed by a newline gives its two counts, and the scan stops right after that newline |
| Dimacs.CommentSkipped | source/Dimacs.cpp:55 | a comment line, as the formatter writes it, is skipped: the scan goes on from the next line with the same outcome |
| Dimacs.PreambleHeader | source/Format.cpp:25 | the preamble line the formatter writes starts with `p cnf `, and strtoull reads its variable count and clause count back |
| Dimacs.Feed | source/Dimacs.cpp:30-34 | after the tokens of a clause end, the builder holds no open literals |
| Dimacs.FeedStep | source/Dimacs.cpp:30-34 | a terminator leaves the builder expecting a new clause with no open literals |
| Dimacs.FeedToken | source/Dimacs.cpp:30-34 | one accepted token: 0 ends the open clause (even an empty one) and appends it to the formula, anything else is added to the open clause |
| Dimacs.LoadedAppend | source/Dimacs.cpp:31 | ending a clause appends one clause holding exactly the open literals, after the clauses already loaded |
| Dimacs.LoadedFinish | source/Formula.cpp:55-59 | finishing the builder closes the open clause only when a literal came after the last terminator |
| Dimacs.IntReadAfterSpace | source/Dimacs.cpp:26 | whitespace before a number does not change what is read |
| Dimacs.DigitsAt | source/Dimacs.cpp:26 | a whole run of digits is read as its decimal value |
| Dimacs.ReadToken | source/Dimacs.cpp:26 | a number written by the formatter, in the 64-bit range, preceded by whitespace and followed by a non-digit, is read back exactly and leaves the stream good unless it ends the input |
| Dimacs.BodyStep | source/Dimacs.cpp:24-29 | a read that leaves the stream good is one accepted token, and the loop goes on after it |
| Dimacs.BodyStop | source/Dimacs.cpp:27-28 | a read that leaves the stream at eof or failed ends the loop, and its value is dropped |
| Dimacs.BodyOfRendered | source/Dimacs.cpp:24-35 | over tokens written with their separators, the loop accepts every token but the last, whose read runs into the end of the input |
| Dimacs.ClausesRendered | source/Format.cpp:16-31 | a formatted clause list is each clause's literals and its terminator, separated by blanks within a clause and by newlines between clauses |
| Dimacs.FeedFlat | source/Dimacs.cpp:30-34 | feeding whole clauses, each ended by 0, closes exactly their literal sets, in order |
| Dimacs.BodyOfFormatted | source/Dimacs.cpp:24-35 | the loop accepts every token of a formatted clause list except the final terminator |
| Dimacs.FeedOfFormatted | source/Dimacs.cpp:30-34 | after those tokens every clause but the last is closed, and the last is open unless it is empty |
| Dimacs.FormatLoadRoundTrip | source/Dimacs.cpp:21-43 | loading a formatted formula whose last clause is not empty gives the preamble's counts back and clauses with the same literal sets in order, the last one closed by the builder's Finish |
| Dimacs.LoadOfEmpty | source/Dimacs.cpp:21-43 | a formatted formula with no clauses loads as no clauses with its variable count |
| Dimacs.LoadOfNonEmpty | source/Dimacs.cpp:21-43 | a formatted formula with clauses loads with every clause but the last closed by a terminator |
| Dimacs.FormattedFormulaWarnsAsWritten | source/Dimacs.cpp:37-39 | the clause count compared before Finish disagrees with the preamble of every formatted formula with clauses |
| Dimacs.FormattedFormulaNoWarning | source/Dimacs.cpp:37-39 | counted after Finish, a formatted formula loads without a clause-count warning |
| Dimacs.InputStream.constructor | source/Dimacs.cpp:14-15 | a new stream is at the start of its text and good |
| Dimacs.InputStream.GetLine | source/Dimacs.cpp:49 | getline returns the line and moves the stream as LineRead says |
| Dimacs.InputStream.ScanDigits | source/Dimacs.cpp:26 | the loop over digits ends where Digits ends, with the same value |
| Dimacs.InputStream.ReadInt | source/Dimacs.cpp:26 | reading an integer returns the value and moves the stream as IntRead says |
| Dimacs.DimacsLoader.constructor | source/Dimacs.cpp:14-15 | the loader reads from the stream it is given |
| Dimacs.DimacsLoader.LoadInto | source/Dimacs.cpp:17-19 | loading is ScanInput: on an invalid preamble the formula is unchanged and the error is returned, otherwise the loaded clauses are appended and the warnings returned |
| Dimacs.DimacsLoader.ScanInput | source/Dimacs.cpp:21-43 | the preamble, then the clauses the token loop feeds, appended after the formula's clauses, and the clause-count and variable-count warnings against the preamble |
| Dimacs.DimacsLoader.ScanPreamble | source/Dimacs.cpp:45-60 | the line loop returns the preamble's counts or the invalid-format error, and leaves the stream as Preamble says |
| Dimacs.DimacsLoader.ScanClauses | source/Dimacs.cpp:24-35 | the token loop leaves the builder in the state of feeding it every token the stream accepts |
| Harness.SatResultOf | tests/sat_solver.py:6-8 | a status name is accepted exactly when it is the text pjos writes for satisfiable or for unsatisfiable |
| Harness.BreakAt | tests/sat_solver.py:29 | the line break found is the first at or after the start, or the end of the text |
| Harness.SplitLines | tests/sat_solver.py:29 | splitlines gives lines without breaks, and no lines exactly for the empty text |
| Harness.SplitLinesCons | tests/sat_solver.py:29 | a line without breaks followed by a newline is the first line, and the rest is split on its own |
| Harness.SplitTerminated | tests/sat_solver.py:29 | splitting newline-terminated lines gives them back, whatever follows |
| Harness.Starting | tests/sat_solver.py:30 | the filter keeps only lines of the input that start with the prefix |
| Harness.StartingAppend | tests/sat_solver.py:30 | filtering distributes over concatenation of line lists |
| Harness.StartingComplete | tests/sat_solver.py:30 | every line of the input that starts with the prefix is kept |
| Harness.StripStart | tests/sat_solver.py:39 | strip's left end is past all leading whitespace and at no other character |
| Harness.StripEnd | tests/sat_solver.py:39 | strip's right end is before all trailing whitespace and at no other character |
| Harness.Strip | tests/sat_solver.py:39 | a stripped string is no longer than the input and has no whitespace at either end |
| Harness.StripUnchanged | tests/sat_solver.py:39 | a string with no whitespace at either end is its own strip, so strip is idempotent |
| Harness.Find | tests/sat_solver.py:39 | the separator found is the first at or after the start, or the end of the text |
| Harness.SplitOn | tests/sat_solver.py:39 | split on a separator gives at least one piece and no piece holds the separator |
| Harness.JoinSplit | tests/sat_solver.py:39 | joining the pieces of a split with the separator gives the string back |
| Harness.SplitJoin | tests/sat_solver.py:39 | splitting a join of separator-free pieces gives the pieces back |
| Harness.PyInt | tests/sat_solver.py:39 | int() reads a value only from a token with something besides whitespace |
| Harness.Ints | tests/sat_solver.py:39 | the list comprehension succeeds exactly when every token is an integer, and then holds their values in order |
| Harness.DropLast | tests/sat_solver.py:39 | a negative slice end keeps the leading items, in order, and removes that many from the end or everything when there are fewer |
| Harness.ParseOutputWith | tests/sat_solver.py:26-42 | a non-zero exit code, and only that, raises the exit error; a parsed result comes from output with exactly one status line, and a model from exactly one model line |
| Harness.ParseLines | tests/sat_solver.py:29-42 | a parsed result needs exactly one status line, and a model exactly one model line |
| Harness.ModelOf | tests/sat_solver.py:36-40 | a model is read only from exactly one model line; otherwise the output is invalid or a token is not an integer |
| Harness.LiteralsTextJoin | headers/pjos/Format.h:73-76 | the model line's literals and terminator are the blank-joined texts of the literals and of 0 |
| Harness.ModelLineTokens | tests/sat_solver.py:39 | split on blanks, the model line gives each literal's text and then the terminator |
| Harness.WithTerminator | headers/pjos/Format.h:73-76 | the values on the model line are the literals, in order, followed by 0 |
| Harness.ModelLineValues | tests/sat_solver.py:39 | int() reads each literal's text back as the literal, and the terminator as 0 |
| Harness.LiteralValue | tests/sat_solver.py:39 | the text of a literal reads back as that literal |
| Harness.ModelLineReadsBack | tests/sat_solver.py:39 | the remainder of pjos's model line, stripped, split and read as integers, is the literals and the terminator 0 |
| Harness.ResultLinesText | headers/pjos/Format.h:67-79 | the solver's result text and its final newline are the status line and, for a satisfied solver with its model, the model line, each ending with a newline |
| Harness.OutputLines | tests/sat_solver.py:29 | the lines of pjos's output are the comment lines followed by the result lines |
| Harness.CommentsFiltered | tests/sat_solver.py:30-36 | no comment line is taken for a status or model line |
| Harness.ResultLinesFiltered | tests/sat_solver.py:30-36 | the filters pick exactly pjos's status line and, when present, its model line |
| Harness.ParseSolverOutput | tests/sat_solver.py:26-42 | on pjos's output the parser returns the model line's values minus the cut, None for unsatisfiable, a ValueError for unknown or solving, and an invalid-output error for a satisfied result printed without model |
| Harness.ModelOfModelLine | tests/sat_solver.py:36-40 | pjos's model line is read as its literals and terminator, minus the values cut off |
| Harness.ParseOutputRoundTrip | tests/sat_solver.py:26-42 | the parser that cuts only the terminator returns exactly the model pjos prints |
| Harness.ParseOutputAsWrittenLosesLast | tests/sat_solver.py:39 | the parser as written drops the last variable's literal of every model pjos prints |
| SolverTest.Units | tests/solver_test.py:13-14 | the model's literals become one unit clause each, in order |
| SolverTest.ReferenceSolver.constructor | tests/solver_test.py:6 | a new reference solver holds no clauses |
| SolverTest.ReferenceSolver.AppendFormula | tests/solver_test.py:7 | the formula's clauses are added after those already held |
| SolverTest.ReferenceSolver.AddClause | tests/solver_test.py:14 | one clause is added after those already held |
| SolverTest.ReferenceSolver.Solve | tests/solver_test.py:15 | the reference answers whether the clauses given so far are satisfiable |
| SolverTest.RunSolverTest | tests/solver_test.py:5-21 | the test's outcome is the verdict on the parsed output: a parse error propagates, a model passes when the formula plus its unit clauses is satisfiable, an unsatisfiable verdict passes when the formula is unsatisfiable, anything else fails model verification |
| SolverTest.UnitsSnoc | tests/solver_test.py:13-14 | adding one more literal of the model adds its unit clause at the end |
| SolverTest.VerdictOfParse | tests/solver_test.py:11-21 | the test passes only on a parsed output, and returns true exactly when the solver reported a model |
| SolverTest.ModelTrue | headers/pjos/Format.h:73-75 | the variables a printed model makes true are exactly those of 1..n not assigned false |
| SolverTest.ModelSatisfiesUnits | tests/solver_test.py:13-15 | the printed model satisfies its own unit clauses |
| SolverTest.UnitsPinVariables | tests/solver_test.py:13-15 | an assignment satisfying the printed model's unit clauses agrees with the model on every literal of its variables |
| SolverTest.UnitsPinModel | tests/solver_test.py:13-15 | for a formula over the model's variables, the formula plus the model's unit clauses is satisfiable exactly when the model satisfies the formula |
| SolverTest.SatisfiesAppend | tests/solver_test.py:14 | an assignment satisfies two clause lists joined exactly when it satisfies both |
| SolverTest.VerdictOnModel | tests/solver_test.py:12-17 | with the corrected parser, a satisfiable verdict from pjos passes exactly when the printed model satisfies the formula |
| SolverTest.VerdictOnUnsatisfiable | tests/solver_test.py:18-21 | an unsatisfiable verdict from pjos passes exactly when the formula is unsatisfiable |
| SolverTest.WrongModelAccepted | tests/sat_solver.py:39 | on the formula `2 0` and the output model `1 -2 0`, which falsifies it, the test as written passes and the corrected test fails model verification |
| SolverTest.PartialModelAccepted | tests/solver_test.py:13-17 | the cut model [1] passes on `2 0`, since the reference may still make 2 true |
| SolverTest.WrongModelParsed | tests/sat_solver.py:39 | the parser as written reads the model line `v 1 -2 0` as the model [1] |
| SolverTest.WrongModelRejected | tests/solver_test.py:13-16 | the model 1 -2 falsifies `2 0`, and the corrected test rejects it |
| Ipasir.SolveCode | source/ipasir.cpp:97-107 | the result code is 10 exactly for satisfiable, 20 exactly for unsatisfiable, and 0 exactly for unknown or still solving |
| Ipasir.ZeroTerminated | source/ipasir.cpp:186-198 | the array handed to the learn callback holds the clause's non-zero literals in order, then the terminator 0 |
| Ipasir.UntilZero | source/ipasir.cpp:191 | a reader of a zero-terminated array sees a prefix of it with no zero |
| Ipasir.ZeroTerminatedReadsBack | source/ipasir.cpp:186-198 | a learned clause handed over as a zero-terminated array reads back as exactly its literals |
| Ipasir.LearnedReport | source/ipasir.cpp:179-200 | a learned clause is reported exactly when it is no longer than maxlen, as its literals followed by 0, whichever buffer holds them |
| Ipasir.Reported | source/ipasir.cpp:179-200 | no more reports than learned clauses |
| Ipasir.ReportedExactly | source/ipasir.cpp:180-182 | an array is reported exactly when it is the zero-terminated form of a learned clause no longer than maxlen |
| Ipasir.ReportedAppend | source/ipasir.cpp:179-200 | the reports over a longer log of learned clauses are those of its first part, then those of the rest |
| Ipasir.LiteralValue | source/ipasir.cpp:118-140 | the value of a literal is the literal when it is true, its negation when it is false, and 0 exactly when its variable is unassigned or not in the formula |
| Ipasir.LiteralValueNegate | source/ipasir.cpp:118-140 | a literal and its negation have the same value |
| Ipasir.SolveUnder | source/ipasir.cpp:95 | solving under assumptions with final conflict output enforces every assumption first, never ends in the solving state, and on 10 satisfies every clause, on 20 reports as failed only the trail values of variables that carry an assumption, either as an assumption entry or as the variable of a pending assumption, otherwise reports none; the formula only grows by learned clauses |
| Ipasir.IpasirSolver.constructor | source/ipasir.cpp:25-30 | the interface state starts with no assumptions, no final conflict, no learn callback and no reports |
| Ipasir.IpasirSolver.Add | source/ipasir.cpp:61-76 | a non-zero literal joins the clause under construction and leaves the formula alone; 0 appends a clause holding exactly the collected literals and empties the builder; nothing else changes |
| Ipasir.IpasirSolver.Assume | source/ipasir.cpp:78-89 | a non-zero literal is added to the assumptions of the next solve; 0 changes nothing |
| Ipasir.IpasirSolver.SetLearn | source/ipasir.cpp:175-212 | the learn callback's maxlen is set or cleared, and nothing else changes |
| Ipasir.IpasirSolver.Solve | source/ipasir.cpp:91-116 | the code is the status's code; the assumptions are cleared after each was enforced; on 10 every clause holds, on 20 each failed literal is the trail value of a variable that carries an assumption (an assumption entry, or the variable of a pending assumption), otherwise none failed; the final conflict has no duplicates; the learn callback receives exactly the new learned clauses no longer than maxlen |
| Ipasir.IpasirSolver.Val | source/ipasir.cpp:118-140 | a variable of the formula gives itself when true, its negation when false, 0 when unassigned; any other argument gives 0 |
| Ipasir.IpasirSolver.Failed | source/ipasir.cpp:142-154 | 1 exactly when the literal is in the final conflict of the last solve, 0 exactly when it is not |
| Ipasir.Init | source/ipasir.cpp:36-47 | a fresh interface over a fresh solver with an empty formula, an empty clause under construction and nothing assumed, failed or reported |
| Ipasir.StillValid | source/ipasir.cpp:25-30 | the solver's invariant survives changes made only to the interface state around it |
| Ipasir.ValOfVariable | source/ipasir.cpp:118-140 | on a positive literal, ipasir_val gives the standard's value of that literal |
| Ipasir.ValOfNegativeLost | source/ipasir.cpp:121 | on a negative literal of an assigned variable ipasir_val gives 0, where the standard's value is not 0 |


## Left out

- The command-line front end (source/main.cpp) is not part of this model: option parsing, timing and printing to the terminal.
- The EVSIDS heuristic (source/Heuristics.cpp) computes with floating point. `Cdcl.CdclSolver.PopVariable` returns some unassigned variable, or 0 when none is left, so the order of decisions is not modelled.
- The interrupt flag and the current status are atomics in the source. Here they are plain fields; concurrent writers are not modelled.
- The interrupt callback is a step budget, as described above; an arbitrary callback's answers over time are not modelled.
- The learned-clause hook is modelled as the log `learned`, and the variable-assignment hook that feeds the heuristic is dropped.
- Memory ownership is not modelled: `unique_ptr`, the literal deleter, and `ClauseView`'s non-owning pointer into an allocator block. A clause is a value, so its copy constructor and copy assignment (source/Clause.cpp:53-68) are value copies.
- Iterator boilerplate beyond stepping is not modelled: the formula iterator, and the assignment iterator's comparisons and `swap`.
- `ipasir_signature` and `ipasir_release` are not modelled. They return a constant string and free memory.
- `ipasir_set_terminate` installs the interrupt callback, which is the step budget here.
- The C interface's `void*` casts, its exception handlers and its optional `abort` are not modelled. A caught exception is modelled by its outcome: nothing changes, or 0 is returned.
- Integer widths of the C interface are not modelled: literals are `int32_t` there and unbounded integers here.
- Ipasir.IpasirSolver.Failed: on 0 the source builds a literal from 0, which throws with hot-path checks on, and then leaves the function without a return value. The model answers 0.
- Ipasir.IpasirSolver.Solve: requires every assumption to name a variable of the formula. The source indexes the assignment without a bounds check there, which is undefined behaviour.
- Ipasir.SolveUnder: carries the same requirement on the assumptions.
- Ipasir.IpasirSolver.Solve: the failed literals are the trail values of the variables behind the conflict, not the assumption literals themselves. When propagation has already set an assumed variable the other way, the source puts that trail value in the final conflict (source/CdclSolver.cpp:51-58, headers/pjos/CdclSolver.h:117-119): on the formula `1 0` under the assumption -1 the answer is 20 with `ipasir_failed(1)` = 1 and `ipasir_failed(-1)` = 0, where IPASIR asks for the failed assumption -1. The model keeps the source's behaviour and does not promise that failed literals are assumptions.
- Ipasir.SolveUnder: the same as Ipasir.IpasirSolver.Solve for the failed literals.
- Watchers.Watcher.Update: the debug validation's equality with a full `Rescan` (source/Watcher.cpp:80-86) is not promised after every call, because it does not hold there: on a clause with both signs of the assigned variable, the first of the two passes leaves a status that `Rescan` does not compute (see Findings). Agreement is proved where it holds: for a fresh assignment whose `satisfies` says whether the value makes a literal of the clause true, and after both passes (Watchers.SecondPassAgrees). Unassignments, which the solvers make out of order when they backtrack, keep only soundness.
- Cdcl.CdclSolver.AnalyzeConflict: the learned clause is described by its shape, which is the opposing literals of trail entries. It is not proved to follow logically from the formula.
- Cdcl.CdclSolver.SolveImpl: Unsatisfied is tied to a contradicted assumption or a clause whose watcher reports Unsatisfied. The model proves neither that every literal of that clause is false nor that the formula has no model: the watcher invariant it keeps does not exclude an Unsatisfied watcher over a true, unwatched literal.
- Cdcl.CdclSolver.Search: the same gap as SolveImpl, whose promise it carries: Unsatisfied rests on a watcher's report, not on an all-false clause.
- Cdcl.CdclSolver.Round: the same gap for the round that ends the search with Unsatisfied.
- Cdcl.CdclSolver.Solve: the same gap; an Unsatisfied answer is not proved to mean that the formula has no model under the assumptions.
- Cdcl.CdclSolver.Run: the same gap as Solve.
- Cdcl.CdclSolver.RemoveClause: the trimming of the analysis track is not modelled. Its guard compares a count below the track's length, so it never takes effect.
- Dpll.DpllSolver.SolveImpl: Unsatisfied is tied to an exhausted trail or a contradicted pending assignment. The model does not prove that the formula has no model.
- Dpll.DpllSolver.SolveImpl: Satisfied does not promise that the assumptions hold, because as written it does not (see Findings); Dpll.DpllSolver.SolveImplVerified is the corrected loop that does.
- Dpll.DpllSolver.Solve: calls SolveImpl as written, so a Satisfied answer under assumptions may contradict them; the corrected check is in Dpll.DpllSolver.SolveImplVerified.
- The debug-build assertions of CDCL conflict analysis are an `aborted` outcome, as described above, and are not proved to hold.
- The harness's subprocess, its timeout, and the UTF-8 decoding of the solver's output are not modelled. The exit code and the decoded text are parameters.
- Harness.PyInt: reads an optional sign and ASCII digits, with surrounding whitespace. Python's digit-group underscores and non-ASCII digits are not modelled.
- The reference solver of `run_solver_test` (pysat with CaDiCaL) is an oracle that decides satisfiability.
- The formula's clauses are passed to the oracle directly; pysat's own DIMACS reader is not modelled.
- The test generators and drivers (tests/generate_test.py, tests/naive_random_test.py, tests/sample_test.py) are not part of this model. They use randomness, external generators and file input.
- The warnings of the DIMACS loader are returned as flags, not written to standard error.

## Findings

| source | as written | input that shows it | evidently intended | confidence | as-written member | corrected member |
|---|---|---|---|---|---|---|
| source/Format.cpp:39 | `(assignment == False ? -1 : 1) * variable` multiplies by an unsigned 64-bit variable number, so -1 wraps to 2^64 - 1 and no minus sign is ever printed | an assignment with variable 1 false prints `18446744073709551615` | the literal `-1`, so that the text reads back as the literals that hold | high, not executed | Formats.AssignmentSignLost | Formats.AssignmentTextReadsBack |
| tests/sat_solver.py:39 | `[:-2]` drops the last two values of the `v` line | a solver output `v 1 -2 0` for the formula `2 0`; the parsed model is `[1]` and the cross-check passes on a model that falsifies the formula | `[:-1]`, which drops only the terminating 0 | high, not executed | Harness.ParseOutputAsWrittenLosesLast | Harness.ParseOutputRoundTrip |
| source/Dimacs.cpp:37-42 | the clause and variable counts are compared before the builder's destructor runs `Finish`, so a last clause without a counted terminator is not yet in the formula | `p cnf 1 1` then `1 0` with no newline after it: the read of the final 0 hits the end of input and is dropped, 0 clauses and 0 variables are counted, and both warnings are printed against the preamble's 1 and 1 (the lemmas state the clause-count half; the model compares both counts after `Finish`) | compare after `Finish`, when the formula holds every clause | high, not executed | Dimacs.FormattedFormulaWarnsAsWritten | Dimacs.FormattedFormulaNoWarning |
| source/DpllSolver.cpp:31-32 | the Satisfied branch answers as soon as propagation satisfies the formula, without checking the pending assignments; the undo loop at lines 44-50 also flips an assumption entry as it would a decision | the formula `1 0` solved under the assumption -1: the first propagation sets x1 true and the answer is Satisfied with a model that contradicts the assumption | check every pending assignment before answering Satisfied, as source/CdclSolver.cpp:51-58 does, and answer Unsatisfied when one is contradicted | high, not executed | Dpll.SatisfiedIgnoresAssumption | Dpll.DpllSolver.SolveImplVerified |
| source/Watcher.cpp:80-86 | the debug validation compares the status after one call of Update with a full Rescan, but the solver updates a clause holding both signs of the assigned variable in two calls (headers/pjos/BaseSolver.h:363-374), and after the first the status is not yet the clause's | `p cnf 1 2`, `1 -1 0`, `-1 0`: propagating -1 sets x1 false; on the pass over the clauses with the literal 1 the clause `1 -1` stays Undecided while Rescan finds it Satisfied, and a build with debug validations calls `std::terminate` | validate once both passes are done, when the watcher agrees with Rescan | medium, not executed | Watchers.TautologyFirstPassDisagrees | Watchers.SecondPassAgrees |
| source/ipasir.cpp:121 | `Of(lit)` reads the assignment slot of `lit` itself, so a negative literal becomes a huge unsigned index and the read throws; the handler returns 0 | variable 1 assigned true, then `ipasir_val(s, -1)` returns 0 | the IPASIR value of the literal: `-1` (the literal of variable 1 that is false), as for the positive literal | medium, not executed | Ipasir.ValOfNegativeLost | Ipasir.LiteralValueNegate |
