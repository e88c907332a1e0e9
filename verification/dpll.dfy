/**
 * DpllSolver: depth-first search with chronological backtracking on top of
 * the shared solver state (source/DpllSolver.cpp, headers/pjos/DpllSolver.h).
 *
 * The interrupt callback installed with InterruptOn is modelled as one that
 * answers true from its `budget`-th call on; an interrupt raised before the
 * solve is the interruptRequested field.
 */
module Dpll {
  import opened Core
  import Wrappers
  import opened Literals
  import opened Clauses
  import opened Formulas
  import opened Assignments
  import opened Trails
  import opened Watchers
  import opened BaseSolvers

  /** Entries DPLL undoes while backtracking: propagations, with or without a reason clause. */
  predicate Undoable(e: Entry)
  {
    IsPropagatedFromClause(e.reason) || e.reason == ReasonPropagation
  }

  /** The position of the topmost decision or assumption on the trail, or -1 when there is none. */
  function LastChoice(entries: seq<Entry>): (r: int)
    ensures -1 <= r < |entries|
    ensures r >= 0 ==> !Undoable(entries[r])
    ensures forall k :: r < k < |entries| ==> Undoable(entries[k])
  {
    if entries == [] then -1
    else if !Undoable(entries[|entries| - 1]) then |entries| - 1
    else LastChoice(entries[..|entries| - 1])
  }

  /** The bookkeeping of one round of the undo loop, for the entry at position n - 1. */
  lemma UndoAdvance(es: seq<Entry>, slots: seq<VariableAssignment>, n: nat, cur: seq<VariableAssignment>, top: Entry)
    requires 0 < n <= |es| && top == es[n - 1] && forall k :: 0 <= k < |es| ==> es[k].variable <= |slots|
    requires forall k :: n <= k < |es| ==> Undoable(es[k])
    requires cur == Unassigning(slots, es[n..])
    ensures Undoable(top) ==> forall k :: n - 1 <= k < |es| ==> Undoable(es[k])
    ensures Undoable(top) ==> cur[top.variable - 1 := Unassigned] == Unassigning(slots, es[n - 1..])
    ensures !Undoable(top) ==> LastChoice(es) == n - 1
  {
    UnassigningStep(slots, es, n);
  }

  /**
   * The largest variable (at most |slots|) that is unassigned, or 0 when
   * every variable is assigned: the variable DPLL decides on.
   */
  function HighestUnassigned(slots: seq<VariableAssignment>): (v: nat)
    ensures v <= |slots|
    ensures v > 0 ==> slots[v - 1] == Unassigned
    ensures forall u :: v <= u < |slots| ==> slots[u] != Unassigned
  {
    if slots == [] then 0
    else if slots[|slots| - 1] == Unassigned then |slots|
    else HighestUnassigned(slots[..|slots| - 1])
  }

  /**
   * As written, the Satisfied branch of SolveImpl answers as soon as
   * propagation satisfies the formula. On the formula `1 0` under the
   * assumption -1 the first propagation already does so, and whatever
   * assignment it reaches contradicts the assumption, which is still
   * pending.
   */
  lemma SatisfiedIgnoresAssumption(slots: seq<VariableAssignment>)
    requires |slots| == 1 && HasTrueLiteral(ClauseData([1], 1), slots)
    ensures !Honoured(PendingAssignment(1, False, true), slots)
  {
    var i :| 0 <= i < 1 && TrueAt(ClauseData([1], 1), slots, i);
    assert Eval(1, slots[0]);
  }

  /**
   * The undo loop stops at an assumption as it does at a decision, so
   * Backtrack flips an assumption as it would a decision.
   */
  lemma AssumptionIsFlipped(es: seq<Entry>, v: Var, value: VariableAssignment, level: nat)
    requires es != [] && es[|es| - 1] == Entry(v, value, ReasonAssumption, level)
    ensures LastChoice(es) == |es| - 1
  {
  }

  class DpllSolver {
    const base: BaseSolver

    ghost predicate Valid()
      reads this, base, base.formula, base.assignment, base.trail, base.Watched()
    {
      base.Valid()
    }

    constructor (formula: Formula)
      requires formula.Valid()
      ensures Valid() && base.formula == formula && fresh(base)
      ensures base.assignment.slots == Cleared(formula.numOfVariables) && base.trail.entries == []
      ensures base.pending == [] && base.freshSolver && base.currentStatus == Unknown
    {
      base := new BaseSolver(formula);
    }

    /**
     * The conflict branch: pops and unassigns propagations down to the
     * topmost decision or assumption, pops that too and pushes its variable
     * back with the flipped value as a reasonless propagation, so it is never
     * flipped again. With no decision or assumption left the trail empties
     * and `flipped` is false.
     */
    method Backtrack() returns (flipped: bool)
      requires Valid()
      modifies base.assignment, base.trail, base.Watched()
      ensures Valid()
      ensures var es := old(base.trail.entries); var k := LastChoice(es);
        && (flipped <==> k >= 0)
        && (!flipped ==> base.trail.entries == [] && base.assignment.slots == Unassigning(old(base.assignment.slots), es))
        && (flipped ==>
              && base.trail.entries == es[..k] + [Entry(es[k].variable, FlipVariableAssignment(es[k].assignment), ReasonPropagation, TopLevel(es[..k]))]
              && base.trail.level == TopLevel(es[..k])
              && base.assignment.slots == Unassigning(old(base.assignment.slots), es[k + 1..])[es[k].variable - 1 := FlipVariableAssignment(es[k].assignment)])
    {
      var variable, value;
      flipped, variable, value := PopPropagations();
      if flipped {
        var newValue := FlipVariableAssignment(value);
        base.trail.Propagation(variable, newValue);
        base.Assign(variable, newValue);
      }
    }

    /**
     * The undo loop of the conflict branch: pops and unassigns propagations,
     * then pops the topmost decision or assumption, if any, and returns its
     * variable and value.
     */
    method PopPropagations() returns (found: bool, variable: Var, value: VariableAssignment)
      requires Valid()
      modifies base.assignment, base.trail, base.Watched()
      ensures Valid()
      ensures var es := old(base.trail.entries); var k := LastChoice(es);
        && (found <==> k >= 0)
        && (!found ==> base.trail.entries == [] && base.assignment.slots == Unassigning(old(base.assignment.slots), es))
        && (found ==>
              && base.trail.entries == es[..k] && variable == es[k].variable && value == es[k].assignment
              && base.trail.level == TopLevel(es[..k])
              && base.assignment.slots == Unassigning(old(base.assignment.slots), es[k + 1..]))
    {
      ghost var es := base.trail.entries;
      ghost var slots := base.assignment.slots;
      ghost var m: nat := |es|;
      while true
        invariant Valid()
        invariant m <= |es| && base.trail.entries == es[..m]
        invariant forall k :: 0 <= k < |es| ==> es[k].variable <= |slots|
        invariant forall k :: m <= k < |es| ==> Undoable(es[k])
        invariant base.assignment.slots == Unassigning(slots, es[m..])
        decreases m
      {
        ghost var cur := base.assignment.slots;
        var top := UndoTop();
        if top.None? {
          assert es[0..] == es;
          return false, 1, Unassigned;
        }
        UndoAdvance(es, slots, m, cur, top.value);
        m := m - 1;
        if !Undoable(top.value) {
          return true, top.value.variable, top.value.assignment;
        }
      }
    }

    /**
     * One round of the undo loop: Top; when there is a top entry, unassign
     * its variable if it is a propagation, then Pop. The variable count
     * covers every entry, so neither Top nor Pop discards anything.
     */
    method UndoTop() returns (top: Wrappers.Option<Entry>)
      requires Valid()
      modifies base.assignment, base.trail, base.Watched()
      ensures Valid()
      ensures old(base.trail.entries) == [] ==>
        top.None? && base.trail.entries == [] && base.assignment.slots == old(base.assignment.slots)
      ensures old(base.trail.entries) != [] ==>
        var n := |old(base.trail.entries)|;
        && top == Wrappers.Some(old(base.trail.entries)[n - 1])
        && base.trail.entries == old(base.trail.entries)[..n - 1]
        && base.trail.level == TopLevel(base.trail.entries)
        && base.assignment.slots == if Undoable(top.value)
                                    then old(base.assignment.slots)[top.value.variable - 1 := Unassigned]
                                    else old(base.assignment.slots)
    {
      top := base.PeekTop();
      if top.Some? {
        if Undoable(top.value) {
          base.Assign(top.value.variable, Unassigned);
        }
        base.PopTop();
      }
    }

    /**
     * The decision branch: decides True on the highest-numbered unassigned
     * variable, opening a new level. When every variable is assigned nothing
     * changes (the debug build asserts instead).
     */
    method Decide() returns (decided: bool)
      requires Valid()
      modifies base.assignment, base.trail, base.Watched()
      ensures Valid()
      ensures var v := HighestUnassigned(old(base.assignment.slots));
        && (decided <==> v > 0)
        && (decided ==>
              && base.assignment.slots == old(base.assignment.slots)[v - 1 := True]
              && base.trail.entries == old(base.trail.entries) + [Entry(v, True, ReasonDecision, old(base.trail.level) + 1)]
              && base.trail.level == old(base.trail.level) + 1)
        && (!decided ==>
              base.assignment.slots == old(base.assignment.slots)
              && base.trail.entries == old(base.trail.entries) && base.trail.level == old(base.trail.level))
    {
      var variable := base.assignment.NumOfVariables();
      while variable > 0
        invariant 0 <= variable <= |base.assignment.slots|
        invariant forall u :: variable <= u < |base.assignment.slots| ==> base.assignment.slots[u] != Unassigned
      {
        if base.assignment.Get(variable) == Unassigned {
          base.trail.Decision(variable, True);
          base.Assign(variable, True);
          return true;
        }
        variable := variable - 1;
      }
      decided := false;
    }

    /**
     * SolveImpl: propagate; on a conflict backtrack, and report Unsatisfied
     * when there is nothing left to flip; otherwise perform the next pending
     * assignment, or decide when none is left. Satisfied is reported only
     * when every clause has a true literal; Unsatisfied only with an empty
     * trail or a pending assumption the assignment contradicts. As written,
     * a formula satisfied by propagation is reported Satisfied without a look
     * at the pending assignments (see SatisfiedIgnoresAssumption).
     */
    method SolveImpl(budget: nat) returns (status: SolverStatus)
      requires Valid()
      modifies base.assignment, base.trail, base.Watched()
      ensures Valid()
      ensures status == SolverStatus.Satisfied || status == SolverStatus.Unsatisfied || status == Unknown
      ensures status == SolverStatus.Satisfied ==> forall i :: 0 <= i < |base.formula.clauses| ==>
        Covers(base.formula.clauses[i], base.assignment.slots) && HasTrueLiteral(base.formula.clauses[i], base.assignment.slots)
      ensures status == SolverStatus.Unsatisfied ==>
        base.trail.entries == [] || exists k :: 0 <= k < |base.pending| && !Honoured(base.pending[k], base.assignment.slots)
      ensures base.interruptRequested ==> status == Unknown
    {
      status := Search(budget, false);
    }

    /**
     * SolveImpl with the check the CDCL solver makes before it answers
     * Satisfied: every pending assignment must be honoured by the model,
     * and a contradicted one makes the answer Unsatisfied.
     */
    method SolveImplVerified(budget: nat) returns (status: SolverStatus)
      requires Valid()
      modifies base.assignment, base.trail, base.Watched()
      ensures Valid()
      ensures status == SolverStatus.Satisfied || status == SolverStatus.Unsatisfied || status == Unknown
      ensures status == SolverStatus.Satisfied ==> forall i :: 0 <= i < |base.formula.clauses| ==>
        Covers(base.formula.clauses[i], base.assignment.slots) && HasTrueLiteral(base.formula.clauses[i], base.assignment.slots)
      ensures status == SolverStatus.Satisfied ==> forall k :: 0 <= k < |base.pending| ==>
        Honoured(base.pending[k], base.assignment.slots)
      ensures status == SolverStatus.Unsatisfied ==>
        base.trail.entries == [] || exists k :: 0 <= k < |base.pending| && !Honoured(base.pending[k], base.assignment.slots)
      ensures base.interruptRequested ==> status == Unknown
    {
      status := Search(budget, true);
    }

    /**
     * The loop of SolveImpl. With `verifyPending` the Satisfied branch first
     * checks every pending assignment against the model.
     */
    method Search(budget: nat, verifyPending: bool) returns (status: SolverStatus)
      requires Valid()
      modifies base.assignment, base.trail, base.Watched()
      ensures Valid()
      ensures status == SolverStatus.Satisfied || status == SolverStatus.Unsatisfied || status == Unknown
      ensures status == SolverStatus.Satisfied ==> forall i :: 0 <= i < |base.formula.clauses| ==>
        Covers(base.formula.clauses[i], base.assignment.slots) && HasTrueLiteral(base.formula.clauses[i], base.assignment.slots)
      ensures verifyPending && status == SolverStatus.Satisfied ==> forall k :: 0 <= k < |base.pending| ==>
        Honoured(base.pending[k], base.assignment.slots)
      ensures status == SolverStatus.Unsatisfied ==>
        base.trail.entries == [] || exists k :: 0 <= k < |base.pending| && !Honoured(base.pending[k], base.assignment.slots)
      ensures base.interruptRequested ==> status == Unknown
    {
      var next := 0;
      var calls := 0;
      while true
        invariant Valid() && 0 <= next <= |base.pending|
        decreases budget - calls
      {
        calls := calls + 1;
        if base.interruptRequested || calls >= budget {
          return Unknown;
        }
        var result := base.UnitPropagation();
        if result.Sat? {
          if verifyPending {
            var ok, _ := base.VerifyPendingAssignments(0, 1);
            if !ok {
              return SolverStatus.Unsatisfied;
            }
          }
          return SolverStatus.Satisfied;
        } else if result.Unsat? {
          var flipped := Backtrack();
          if !flipped {
            return SolverStatus.Unsatisfied;
          }
        } else if next == |base.pending| {
          var _ := Decide();
        } else {
          var p := base.pending[next];
          next := next + 1;
          var ok := base.PerformPendingAssignment(p.variable, p.value, p.isAssumption);
          if !ok {
            return SolverStatus.Unsatisfied;
          }
        }
      }
    }

    /**
     * Solve(assumptions): PreSolve, the assumptions saved as pending
     * assignments, SolveImpl, and the result stored as the current status.
     */
    method Solve(assumptions: seq<Literal>, budget: nat) returns (status: SolverStatus)
      requires Valid()
      requires forall k :: 0 <= k < |assumptions| ==> Variable(assumptions[k]) <= base.formula.numOfVariables
      modifies base, base.assignment, base.trail, base.Watched()
      ensures Valid() && base.currentStatus == status && !base.freshSolver
      ensures status == SolverStatus.Satisfied || status == SolverStatus.Unsatisfied || status == Unknown
      ensures status == SolverStatus.Satisfied ==> forall i :: 0 <= i < |base.formula.clauses| ==>
        Covers(base.formula.clauses[i], base.assignment.slots) && HasTrueLiteral(base.formula.clauses[i], base.assignment.slots)
      ensures |base.pending| >= |assumptions|
      ensures forall k :: 0 <= k < |assumptions| ==> Enforces(base.pending[|base.pending| - |assumptions| + k], assumptions[k])
    {
      base.PreSolve();
      base.SaveAssumptions(assumptions);
      status := SolveImpl(budget);
      base.currentStatus := status;
    }
  }
}
