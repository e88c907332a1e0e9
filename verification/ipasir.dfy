/**
 * The IPASIR incremental-solver interface over the CDCL solver
 * (source/ipasir.cpp): a clause under construction, one-shot assumptions,
 * the final conflict of the last solve, and the learned clauses reported
 * to the learn callback.
 */
module Ipasir {
  import opened Core
  import opened Wrappers
  import opened Literals
  import opened Clauses
  import opened Formulas
  import opened BaseSolvers
  import opened Watchers
  import opened Trails
  import opened Cdcl

  /** ipasir_solve's result code: 10 satisfiable, 20 unsatisfiable, 0 otherwise. */
  function SolveCode(status: SolverStatus): (code: int)
    ensures code == 10 <==> status == SolverStatus.Satisfied
    ensures code == 20 <==> status == SolverStatus.Unsatisfied
    ensures code == 0 <==> status == Unknown || status == Solving
  {
    match status
    case Unknown => 0
    case Solving => 0
    case Satisfied => 10
    case Unsatisfied => 20
  }

  /** The literals of a clause as integers, followed by the terminator 0. */
  function ZeroTerminated(ls: seq<Literal>): (r: seq<int>)
    ensures |r| == |ls| + 1 && r[|ls|] == 0
    ensures forall i :: 0 <= i < |ls| ==> r[i] == ls[i] as int && r[i] != 0
  {
    seq(|ls| + 1, i requires 0 <= i <= |ls| => if i < |ls| then ls[i] as int else 0)
  }

  /** What a reader of a zero-terminated array sees: the values before the first 0. */
  function UntilZero(xs: seq<int>): (r: seq<int>)
    ensures |r| <= |xs| && forall i :: 0 <= i < |r| ==> r[i] == xs[i] && r[i] != 0
  {
    if xs == [] || xs[0] == 0 then [] else [xs[0]] + UntilZero(xs[1..])
  }

  /** A learned clause reported to the callback reads back as the clause's literals. */
  lemma {:induction false} ZeroTerminatedReadsBack(ls: seq<Literal>)
    ensures UntilZero(ZeroTerminated(ls)) == ls
    decreases |ls|
  {
    var r := ZeroTerminated(ls);
    if ls != [] {
      assert r[1..] == ZeroTerminated(ls[1..]);
      ZeroTerminatedReadsBack(ls[1..]);
      assert ls == [ls[0]] + ls[1..];
    }
  }

  /**
   * The learn callback's filter: a clause longer than maxlen is not
   * reported; a shorter one is handed over as its literals followed by 0.
   * The source fills a heap vector for clauses over 255 literals and a
   * stack array otherwise; both hold the same values.
   */
  function LearnedReport(c: Clause, maxlen: int): (r: Option<seq<int>>)
    ensures r.Some? <==> Length(c) <= maxlen
    ensures r.Some? ==> |r.value| == Length(c) + 1 && r.value[Length(c)] == 0 && UntilZero(r.value) == c.literals
  {
    ZeroTerminatedReadsBack(c.literals);
    if Length(c) > maxlen then Option.None else Option.Some(ZeroTerminated(c.literals))
  }

  /** The arrays the learn callback receives for the clauses learned, in order. */
  function Reported(learned: seq<Clause>, maxlen: int): (r: seq<seq<int>>)
    ensures |r| <= |learned|
  {
    if learned == [] then []
    else
      var rest := Reported(learned[1..], maxlen);
      match LearnedReport(learned[0], maxlen)
      case Some(a) => [a] + rest
      case None => rest
  }

  /** Every report is a learned clause no longer than maxlen, and every such clause is reported. */
  lemma {:induction false} ReportedExactly(learned: seq<Clause>, maxlen: int)
    ensures forall a :: a in Reported(learned, maxlen) <==>
      exists c :: c in learned && Length(c) <= maxlen && a == ZeroTerminated(c.literals)
    decreases |learned|
  {
    if learned != [] {
      ReportedExactly(learned[1..], maxlen);
      assert learned == [learned[0]] + learned[1..];
      forall a
        ensures a in Reported(learned, maxlen) <==>
          exists c :: c in learned && Length(c) <= maxlen && a == ZeroTerminated(c.literals)
      {
        if exists c :: c in learned && Length(c) <= maxlen && a == ZeroTerminated(c.literals) {
          var c :| c in learned && Length(c) <= maxlen && a == ZeroTerminated(c.literals);
          if c != learned[0] {
            assert c in learned[1..];
          }
        }
      }
    }
  }

  /** Reports over a longer log: the reports of the first part, then those of the second. */
  lemma {:induction false} ReportedAppend(a: seq<Clause>, b: seq<Clause>, maxlen: int)
    ensures Reported(a + b, maxlen) == Reported(a, maxlen) + Reported(b, maxlen)
    decreases |a|
  {
    if a != [] {
      assert (a + b)[1..] == a[1..] + b;
      ReportedAppend(a[1..], b, maxlen);
    } else {
      assert a + b == b;
    }
  }

  /**
   * The IPASIR standard's value of a literal: the literal itself when it is
   * true, its negation when it is false, 0 when its variable is unassigned
   * or unknown to the solver.
   */
  function LiteralValue(slots: seq<VariableAssignment>, lit: Literal): (r: int)
    ensures r == lit as int <==> 1 <= Variable(lit) <= |slots| && Eval(lit, slots[Variable(lit) - 1])
    ensures r == -(lit as int) <==> 1 <= Variable(lit) <= |slots| && Eval(Negate(lit), slots[Variable(lit) - 1])
    ensures r == 0 <==> Variable(lit) > |slots| || slots[Variable(lit) - 1] == Unassigned
  {
    var v := Variable(lit);
    if v > |slots| || slots[v - 1] == Unassigned then 0
    else if Eval(lit, slots[v - 1]) then lit as int
    else -(lit as int)
  }

  /**
   * A literal and its negation have the same value: the literal of their
   * variable that is true, or 0.
   */
  lemma LiteralValueNegate(slots: seq<VariableAssignment>, lit: Literal)
    ensures LiteralValue(slots, Negate(lit)) == LiteralValue(slots, lit)
  {
    var v := Variable(lit);
    assert Negate(lit) as int == -(lit as int);
    if v <= |slots| && slots[v - 1] != Unassigned {
      NegateProperties(lit, slots[v - 1]);
    }
  }

  /**
   * What a solve's result code promises about the final state: on 10 every
   * clause has a true literal under the assignment; on 20 every failed
   * literal is an assumption the conflict depends on; otherwise no literal
   * has failed.
   */
  ghost predicate Answered(code: int, clauses: seq<Clause>, slots: seq<VariableAssignment>,
                           entries: seq<Entry>, pending: seq<PendingAssignment>, failed: set<Literal>)
  {
    && (code == 10 ==> forall i :: 0 <= i < |clauses| ==> Covers(clauses[i], slots) && HasTrueLiteral(clauses[i], slots))
    && (code != 20 ==> failed == {})
    && (code == 20 ==> forall l :: l in failed ==> Responsible(l, entries, pending))
  }

  /**
   * CdclSolver::Solve with final conflict output, as ipasir_solve sees it:
   * the result code's promises, the enforced assumptions and the logs.
   */
  method SolveUnder(s: CdclSolver, assumptions: seq<Literal>, budget: nat) returns (status: SolverStatus, aborted: bool, conflict: set<Literal>)
    requires s.Valid()
    requires forall k :: 0 <= k < |assumptions| ==> Variable(assumptions[k]) <= s.base.formula.numOfVariables
    modifies s, s.base, s.base.formula, s.base.assignment, s.base.trail, s.base.Watched(), s.savedPhases, s.learnedClause, s.allocator
    ensures s.base.currentStatus == status && (aborted ==> status == Unknown) && status != Solving
    ensures !aborted ==> s.Valid()
    ensures Answered(SolveCode(status), s.base.formula.clauses, s.base.assignment.slots, s.base.trail.entries, s.base.pending, conflict)
    ensures |s.base.pending| >= |assumptions|
    ensures forall k :: 0 <= k < |assumptions| ==> Enforces(s.base.pending[k], assumptions[k])
    ensures Logged(old(s.base.formula.clauses), old(s.learned), s.base.formula.clauses, s.learned)
  {
    status, aborted, conflict := s.SolveWithFinalConflict(assumptions, budget);
  }

  /** The state behind the void* handle of the C interface. */
  class IpasirSolver {
    const solver: CdclSolver
    const clauseBuilder: ClauseBuilder
    var assumptions: seq<Literal>
    /** The final conflict copied out of the last unsatisfiable solve, in the set's iteration order. */
    var finalConflict: seq<Literal>
    /** maxlen of the learn callback, or None while no callback is set. */
    var learnLimit: Option<int>
    /** The arrays handed to the learn callback so far, in order. */
    var reports: seq<seq<int>>

    ghost predicate Valid()
      reads this, solver, solver.base, solver.base.formula, solver.base.assignment, solver.base.trail, solver.base.Watched()
      reads solver.learnedClause, solver.savedPhases, solver.allocator, clauseBuilder
    {
      && solver.Valid() && clauseBuilder.Valid() && clauseBuilder != solver.learnedClause
      && forall i, j :: 0 <= i < j < |finalConflict| ==> finalConflict[i] != finalConflict[j]
    }

    /** The interface state around a solver and a clause builder, with nothing assumed, failed or reported. */
    constructor (solver: CdclSolver, clauseBuilder: ClauseBuilder)
      ensures this.solver == solver && this.clauseBuilder == clauseBuilder
      ensures assumptions == [] && finalConflict == [] && learnLimit == Option.None && reports == []
    {
      this.solver := solver;
      this.clauseBuilder := clauseBuilder;
      assumptions := [];
      finalConflict := [];
      learnLimit := Option.None;
      reports := [];
    }

    /**
     * ipasir_add: a non-zero literal joins the clause under construction
     * (as a set); 0 appends that clause to the solver and empties the
     * builder.
     */
    method Add(litOrZero: int)
      requires Valid()
      modifies clauseBuilder, solver, solver.base, solver.base.formula, solver.base.assignment, solver.base.trail, solver.savedPhases
      ensures assumptions == old(assumptions) && finalConflict == old(finalConflict)
      ensures learnLimit == old(learnLimit) && reports == old(reports) && solver.learned == old(solver.learned)
      ensures litOrZero != 0 ==>
        && clauseBuilder.literals == old(clauseBuilder.literals) + {litOrZero}
        && solver.base.formula.clauses == old(solver.base.formula.clauses)
      ensures litOrZero == 0 ==>
        && clauseBuilder.literals == {}
        && |solver.base.formula.clauses| == |old(solver.base.formula.clauses)| + 1
        && solver.base.formula.clauses[..|old(solver.base.formula.clauses)|] == old(solver.base.formula.clauses)
        && var c := solver.base.formula.clauses[|old(solver.base.formula.clauses)|];
          Length(c) == |old(clauseBuilder.literals)| && forall l :: HasLiteral(c, l) <==> l in old(clauseBuilder.literals)
    {
      if litOrZero != 0 {
        clauseBuilder.Add(litOrZero);
      } else {
        var c := clauseBuilder.Make();
        solver.AppendClause(c);
        assert solver.base.formula.clauses[..|old(solver.base.formula.clauses)|] == old(solver.base.formula.clauses);
      }
    }

    /**
     * ipasir_assume: the literal joins the assumptions of the next solve.
     * A zero is refused by the literal's own check; the exception is caught
     * and nothing changes.
     */
    method Assume(lit: int)
      modifies this
      ensures lit != 0 ==> assumptions == old(assumptions) + [lit]
      ensures lit == 0 ==> assumptions == old(assumptions)
      ensures finalConflict == old(finalConflict) && learnLimit == old(learnLimit) && reports == old(reports)
    {
      var l := FromInt(lit);
      if l.Success? {
        assumptions := assumptions + [l.value];
      }
    }

    /**
     * ipasir_set_learn: a callback with its maxlen, or none. The callback
     * itself is not modelled; what it receives is logged in reports.
     */
    method SetLearn(limit: Option<int>)
      modifies this
      ensures learnLimit == limit
      ensures assumptions == old(assumptions) && finalConflict == old(finalConflict) && reports == old(reports)
    {
      learnLimit := limit;
    }

    /**
     * ipasir_solve: clears the old final conflict, solves under the
     * assumptions with final conflict analysis (budget stands for the
     * terminate callback), copies out the final conflict, clears the
     * assumptions and maps the status to 10, 20 or 0. aborted is the debug
     * build's abort at a failed assertion in conflict analysis.
     */
    method Solve(budget: nat) returns (code: int, aborted: bool)
      requires Valid()
      requires forall k :: 0 <= k < |assumptions| ==> Variable(assumptions[k]) <= solver.base.formula.numOfVariables
      modifies this, solver, solver.base, solver.base.formula, solver.base.assignment, solver.base.trail, solver.base.Watched()
      modifies solver.savedPhases, solver.learnedClause, solver.allocator
      ensures code == SolveCode(solver.base.currentStatus) && (aborted ==> code == 0)
      ensures !aborted ==> Valid()
      ensures assumptions == [] && clauseBuilder.literals == old(clauseBuilder.literals)
      ensures |solver.base.pending| >= |old(assumptions)|
      ensures forall k :: 0 <= k < |old(assumptions)| ==> Enforces(solver.base.pending[k], old(assumptions)[k])
      ensures code == 10 ==> forall i :: 0 <= i < |solver.base.formula.clauses| ==>
        HasTrueLiteral(solver.base.formula.clauses[i], solver.base.assignment.slots)
      ensures code != 20 ==> finalConflict == []
      ensures code == 20 ==> forall l :: l in finalConflict ==> Responsible(l, solver.base.trail.entries, solver.base.pending)
      ensures forall i, j :: 0 <= i < j < |finalConflict| ==> finalConflict[i] != finalConflict[j]
      ensures Logged(old(solver.base.formula.clauses), old(solver.learned), solver.base.formula.clauses, solver.learned)
      ensures learnLimit == old(learnLimit)
      ensures reports == old(reports) + match learnLimit
        case Some(maxlen) => Reported(solver.learned[|old(solver.learned)|..], maxlen)
        case None => []
    {
      var learned0 := solver.learned;
      var assumed := assumptions;
      finalConflict, assumptions := [], [];
      StillValid(solver);
      var status, conflict;
      status, aborted, conflict := SolveUnder(solver, assumed, budget);
      label solved:
      var listed := ListLiterals(conflict);
      var reported := if learnLimit.Some? then Reported(solver.learned[|learned0|..], learnLimit.value) else [];
      finalConflict, reports := listed, reports + reported;
      if !aborted {
        StillValid@solved(solver);
      }
      code := SolveCode(status);
    }

    /**
     * ipasir_val: the value slot of variable lit; lit when it is True, -lit
     * when False, 0 when unassigned. A literal that is not a variable of the
     * formula (zero, negative, or too large) makes the bounds-checked read
     * throw; the exception is caught and the result is 0.
     */
    function Val(lit: int): (r: int)
      reads solver.base.assignment
      ensures !(1 <= lit <= |solver.base.assignment.slots|) ==> r == 0
      ensures 1 <= lit <= |solver.base.assignment.slots| ==> var a := solver.base.assignment.slots[lit - 1];
        && (r == lit <==> Eval(lit, a)) && (r == -lit <==> Eval(-lit, a)) && (r == 0 <==> a == Unassigned)
    {
      match solver.base.assignment.Of(lit)
      case Failure(_) => 0
      case Success(a) => if a == Unassigned then 0 else if a == True then lit else -lit
    }

    /** ipasir_failed: 1 when lit is in the final conflict of the last solve, 0 otherwise. */
    function Failed(lit: int): (r: int)
      reads this
      ensures r == 1 <==> exists i :: 0 <= i < |finalConflict| && finalConflict[i] as int == lit
      ensures r == 0 <==> !exists i :: 0 <= i < |finalConflict| && finalConflict[i] as int == lit
    {
      if lit != 0 && lit in finalConflict then 1 else 0
    }
  }

  /** ipasir_init: a CDCL solver over an empty formula it owns, and empty interface state. */
  method Init() returns (s: IpasirSolver)
    ensures s.Valid() && fresh(s) && fresh(s.solver.base) && fresh(s.clauseBuilder)
    ensures s.solver.base.formula.clauses == [] && s.solver.base.formula.numOfVariables == 0 && s.solver.learned == []
    ensures s.clauseBuilder.literals == {} && s.assumptions == [] && s.finalConflict == []
    ensures s.learnLimit == Option.None && s.reports == []
  {
    var formula := new Formula();
    var cdcl := new CdclSolver(formula);
    label built:
    var builder := new ClauseBuilder();
    s := new IpasirSolver(cdcl, builder);
    StillValid@built(cdcl);
  }

  /** The solver's invariant survives changes to objects outside the solver. */
  twostate lemma StillValid(s: CdclSolver)
    requires old(s.Valid())
    requires unchanged(s, s.base, s.base.formula, s.base.assignment, s.base.trail, s.learnedClause, s.savedPhases, s.allocator)
    requires unchanged(s.base.Watched())
    ensures s.Valid()
  {
  }

  /** On a variable of the formula, ipasir_val gives the IPASIR value of its positive literal. */
  lemma ValOfVariable(s: IpasirSolver, lit: Literal)
    requires lit > 0
    ensures s.Val(lit) == LiteralValue(s.solver.base.assignment.slots, lit)
  {
  }

  /**
   * ipasir_val on a negative literal: the read throws and the result is 0,
   * even when the variable is assigned and the standard asks for lit or
   * -lit.
   */
  lemma ValOfNegativeLost(s: IpasirSolver, lit: Literal)
    requires lit < 0 && Variable(lit) <= |s.solver.base.assignment.slots|
    requires s.solver.base.assignment.slots[Variable(lit) - 1] != Unassigned
    ensures s.Val(lit) == 0 && LiteralValue(s.solver.base.assignment.slots, lit) != 0
  {
  }
}
