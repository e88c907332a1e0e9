/**
 * The differential check of the test harness (tests/solver_test.py,
 * run_solver_test): the solver under test and a reference solver get the
 * same formula; a reported model is checked by adding its literals to the
 * reference as unit clauses, an unsatisfiable verdict by asking the
 * reference about the formula alone. The reference solver is an oracle that
 * decides satisfiability, and the formula is the DIMACS text's clauses as
 * the reference reads them.
 */
module SolverTest {
  import opened Wrappers
  import opened Harness
  import Core
  import Formats
  import Literals

  /** Clauses of signed integer literals. */
  type Cnf = seq<seq<int>>

  /** Literal l is true when the variables in t are true and all others false; 0 is never true. */
  predicate Holds(t: set<int>, l: int)
  {
    (l > 0 && l in t) || (l < 0 && -l !in t)
  }

  /** Some literal of the clause is true under t. */
  predicate ClauseHolds(t: set<int>, c: seq<int>)
  {
    exists j :: 0 <= j < |c| && Holds(t, c[j])
  }

  /** Every clause has a literal that is true under t. */
  predicate Satisfies(t: set<int>, cs: Cnf)
  {
    forall i :: 0 <= i < |cs| ==> ClauseHolds(t, cs[i])
  }

  /** Some total assignment satisfies the clauses. */
  ghost predicate Satisfiable(cs: Cnf)
  {
    exists t: set<int> :: Satisfies(t, cs)
  }

  /** One unit clause per literal. */
  function Units(m: seq<int>): (r: Cnf)
    ensures |r| == |m| && forall k :: 0 <= k < |m| ==> r[k] == [m[k]]
  {
    seq(|m|, k requires 0 <= k < |m| => [m[k]])
  }

  /** The reference solver (pysat's Solver): the clauses it was given, and an oracle to decide them. */
  class ReferenceSolver {
    var clauses: Cnf

    constructor()
      ensures clauses == []
    {
      clauses := [];
    }

    /** append_formula */
    method AppendFormula(cs: Cnf)
      modifies this
      ensures clauses == old(clauses) + cs
    {
      clauses := clauses + cs;
    }

    /** add_clause */
    method AddClause(c: seq<int>)
      modifies this
      ensures clauses == old(clauses) + [c]
    {
      clauses := clauses + [c];
    }

    /** solve(): whether the clauses given so far are satisfiable. */
    method Solve(oracle: Cnf -> bool) returns (sat: bool)
      requires forall cs :: oracle(cs) == Satisfiable(cs)
      ensures sat == Satisfiable(clauses)
    {
      sat := oracle(clauses);
    }
  }

  /**
   * What run_solver_test decides from the formula and the parsed output of
   * the solver under test: a parse error propagates; a model passes when
   * the formula plus the model's unit clauses is satisfiable; an
   * unsatisfiable verdict passes when the formula is unsatisfiable; any
   * other combination is a failed model verification.
   */
  ghost function Verdict(cs: Cnf, parsed: Result<Option<seq<int>>, HarnessError>): Result<bool, HarnessError>
  {
    match parsed
    case Failure(e) => Failure(e)
    case Success(Some(model)) =>
      if Satisfiable(cs + Units(model)) then Success(true) else Failure(ModelVerificationFailed)
    case Success(None) =>
      if Satisfiable(cs) then Failure(ModelVerificationFailed) else Success(false)
  }

  /**
   * run_solver_test with the solver under test's exit code and output as
   * parameters, and the number of values its parser drops from the model
   * line (2 as written, 1 as intended). True exactly when the solver
   * reported a model.
   */
  method RunSolverTest(oracle: Cnf -> bool, cs: Cnf, returnCode: int, output: string, drop: nat)
    returns (r: Result<bool, HarnessError>)
    requires forall f :: oracle(f) == Satisfiable(f)
    ensures r == Verdict(cs, ParseOutputWith(returnCode, output, drop))
  {
    var reference := new ReferenceSolver();
    reference.AppendFormula(cs);
    assert reference.clauses == cs;
    var solution := ParseOutputWith(returnCode, output, drop);
    if solution.Failure? {
      return Failure(solution.error);
    }
    match solution.value
    case Some(model) =>
      for i := 0 to |model|
        invariant reference.clauses == cs + Units(model[..i])
      {
        reference.AddClause([model[i]]);
        UnitsSnoc(model, i);
      }
      assert model[..|model|] == model;
      var sat := reference.Solve(oracle);
      if !sat {
        return Failure(ModelVerificationFailed);
      }
      return Success(true);
    case None =>
      var sat := reference.Solve(oracle);
      if sat {
        return Failure(ModelVerificationFailed);
      }
      return Success(false);
  }

  /** Adding the unit clause of one more literal of the model. */
  lemma UnitsSnoc(m: seq<int>, i: nat)
    requires i < |m|
    ensures Units(m[..i + 1]) == Units(m[..i]) + [[m[i]]]
  {
  }

  /** The check passes only on a successful parse, and reports true exactly when the solver gave a model. */
  lemma VerdictOfParse(cs: Cnf, parsed: Result<Option<seq<int>>, HarnessError>)
    ensures Verdict(cs, parsed).Success? ==> parsed.Success? && (Verdict(cs, parsed).value <==> parsed.value.Some?)
  {
  }

  /** The variables a printed model makes true: those not assigned False. */
  function ModelTrue(slots: seq<Core.VariableAssignment>): (t: set<int>)
    ensures forall v :: v in t <==> 1 <= v <= |slots| && slots[v - 1] != Core.False
  {
    set i | 0 <= i < |slots| && slots[i] != Core.False :: i + 1
  }

  /** Every literal of the clauses is a non-zero literal of a variable in 1..n. */
  predicate WithinVariables(cs: Cnf, n: nat)
  {
    forall i, j :: 0 <= i < |cs| && 0 <= j < |cs[i]| ==> cs[i][j] != 0 && -(n as int) <= cs[i][j] <= n
  }

  /** The printed model's literals all hold under the variables it makes true. */
  lemma ModelSatisfiesUnits(slots: seq<Core.VariableAssignment>)
    ensures Satisfies(ModelTrue(slots), Units(Formats.ModelLiterals(slots)))
  {
    var m := Formats.ModelLiterals(slots);
    var units := Units(m);
    forall i | 0 <= i < |units|
      ensures ClauseHolds(ModelTrue(slots), units[i])
    {
      assert Literals.Variable(m[i]) == i + 1;
      assert units[i][0] == m[i];
    }
  }

  /** An assignment that satisfies the printed model's unit clauses agrees with it on every literal of variables 1..n. */
  lemma UnitsPinVariables(slots: seq<Core.VariableAssignment>, t: set<int>, l: int)
    requires Satisfies(t, Units(Formats.ModelLiterals(slots)))
    requires l != 0 && -|slots| <= l <= |slots|
    ensures Holds(t, l) == Holds(ModelTrue(slots), l)
  {
    var m := Formats.ModelLiterals(slots);
    var v := if l > 0 then l else -l;
    assert Holds(t, m[v - 1]) by {
      assert ClauseHolds(t, Units(m)[v - 1]);
    }
    assert Literals.Variable(m[v - 1]) == v;
  }

  /**
   * The unit clauses of a model that names every variable 1..n pin the
   * assignment down: the formula plus those units is satisfiable exactly
   * when the model itself satisfies the formula.
   */
  lemma UnitsPinModel(cs: Cnf, slots: seq<Core.VariableAssignment>)
    requires WithinVariables(cs, |slots|)
    ensures Satisfiable(cs + Units(Formats.ModelLiterals(slots))) <==> Satisfies(ModelTrue(slots), cs)
  {
    var units := Units(Formats.ModelLiterals(slots));
    if Satisfies(ModelTrue(slots), cs) {
      ModelSatisfiesUnits(slots);
      SatisfiesAppend(ModelTrue(slots), cs, units);
    }
    if Satisfiable(cs + units) {
      var t :| Satisfies(t, cs + units);
      SatisfiesAppend(t, cs, units);
      forall i | 0 <= i < |cs|
        ensures ClauseHolds(ModelTrue(slots), cs[i])
      {
        var j :| 0 <= j < |cs[i]| && Holds(t, cs[i][j]);
        UnitsPinVariables(slots, t, cs[i][j]);
      }
    }
  }

  /** A concatenation of clause lists is satisfied exactly when both parts are. */
  lemma SatisfiesAppend(t: set<int>, a: Cnf, b: Cnf)
    ensures Satisfies(t, a + b) <==> Satisfies(t, a) && Satisfies(t, b)
  {
    if Satisfies(t, a) && Satisfies(t, b) {
      forall i | 0 <= i < |a + b|
        ensures ClauseHolds(t, (a + b)[i])
      {
        if i < |a| {
          assert (a + b)[i] == a[i];
        } else {
          assert (a + b)[i] == b[i - |a|];
        }
      }
    }
    if Satisfies(t, a + b) {
      forall i | 0 <= i < |a|
        ensures ClauseHolds(t, a[i])
      {
        assert a[i] == (a + b)[i];
      }
      forall i | 0 <= i < |b|
        ensures ClauseHolds(t, b[i])
      {
        assert b[i] == (a + b)[i + |a|];
      }
    }
  }

  /**
   * With the corrected parser, the check accepts a satisfiable verdict from
   * pjos exactly when the printed model satisfies the formula.
   */
  lemma VerdictOnModel(cs: Cnf, comments: seq<string>, slots: seq<Core.VariableAssignment>)
    requires CommentLines(comments) && WithinVariables(cs, |slots|)
    ensures Verdict(cs, ParseOutput(0, SolverOutput(comments, Core.Satisfied, slots, true)))
      == if Satisfies(ModelTrue(slots), cs) then Success(true) else Failure(ModelVerificationFailed)
  {
    ParseOutputRoundTrip(comments, slots);
    UnitsPinModel(cs, slots);
  }

  /** An unsatisfiable verdict from pjos passes exactly when the formula is unsatisfiable. */
  lemma VerdictOnUnsatisfiable(cs: Cnf, comments: seq<string>, slots: seq<Core.VariableAssignment>, drop: nat)
    requires CommentLines(comments)
    ensures Verdict(cs, ParseOutputWith(0, SolverOutput(comments, Core.Unsatisfied, slots, true), drop))
      == if Satisfiable(cs) then Failure(ModelVerificationFailed) else Success(false)
  {
    ParseSolverOutput(comments, Core.Unsatisfied, slots, true, drop);
  }

  /**
   * The formula `2 0` and a solver output `s SATISFIABLE` / `v 1 -2 0`, a
   * model that falsifies it: the check as written accepts it, because the
   * parser drops -2; the corrected check rejects it.
   */
  lemma WrongModelAccepted()
    ensures !Satisfies(ModelTrue([Core.True, Core.False]), [[2]])
    ensures Verdict([[2]], ParseOutputAsWritten(0, SolverOutput([], Core.Satisfied, [Core.True, Core.False], true))) == Success(true)
    ensures Verdict([[2]], ParseOutput(0, SolverOutput([], Core.Satisfied, [Core.True, Core.False], true))) == Failure(ModelVerificationFailed)
  {
    var slots := [Core.True, Core.False];
    WrongModelRejected(slots);
    WrongModelParsed(slots);
    PartialModelAccepted(ParseOutputAsWritten(0, SolverOutput([], Core.Satisfied, slots, true)));
  }

  /** The model [1] passes the check on `2 0`: {1, 2} satisfies the formula and the unit clause 1. */
  lemma PartialModelAccepted(parsed: Result<Option<seq<int>>, HarnessError>)
    requires parsed == Success(Some([1]))
    ensures Verdict([[2]], parsed) == Success(true)
  {
    assert Satisfies({1, 2}, [[2]] + Units([1])) by {
      assert ClauseHolds({1, 2}, ([[2]] + Units([1]))[0]) by {
        assert ([[2]] + Units([1]))[0][0] == 2;
      }
      assert ClauseHolds({1, 2}, ([[2]] + Units([1]))[1]) by {
        assert ([[2]] + Units([1]))[1][0] == 1;
      }
    }
  }

  /** The as-written parser reads the model line `v 1 -2 0` as the model [1]. */
  lemma WrongModelParsed(slots: seq<Core.VariableAssignment>)
    requires slots == [Core.True, Core.False]
    ensures ParseOutputAsWritten(0, SolverOutput([], Core.Satisfied, slots, true)) == Success(Some([1]))
  {
    var m := Formats.ModelLiterals(slots);
    assert m[0] == 1 by {
      assert Literals.Variable(m[0]) == 1;
    }
    assert m[..1] == [1];
    ParseOutputAsWrittenLosesLast([], slots);
  }

  /** The model 1 -2 falsifies `2 0`, and the corrected check says so. */
  lemma WrongModelRejected(slots: seq<Core.VariableAssignment>)
    requires slots == [Core.True, Core.False]
    ensures !Satisfies(ModelTrue(slots), [[2]])
    ensures Verdict([[2]], ParseOutput(0, SolverOutput([], Core.Satisfied, slots, true))) == Failure(ModelVerificationFailed)
  {
    assert !ClauseHolds(ModelTrue(slots), [[2]][0]) by {
      assert 2 !in ModelTrue(slots);
    }
    VerdictOnModel([[2]], [], slots);
  }
}
