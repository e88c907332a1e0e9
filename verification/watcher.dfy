/**
 * Watchers: the two-watched-literals record of one clause
 * (headers/pjos/Watcher.h, source/Watcher.cpp).
 *
 * An assignment is passed as the sequence of its slots, slot v - 1 holding
 * the value of variable v.
 */
module Watchers {
  import opened Core
  import opened Literals
  import opened Clauses

  datatype ClauseStatus = Satisfied | Unsatisfied | Unit | Undecided

  /** The assignment has a slot for every variable of the clause (the watcher reads it unchecked). */
  predicate Covers(c: Clause, assn: seq<VariableAssignment>)
  {
    c.numOfVariables <= |assn|
  }

  /** A watched position: -1 for "no literal", otherwise a position of the clause. */
  predicate InRange(c: Clause, index: int)
  {
    index == -1 || 0 <= index < |c.literals|
  }

  function ValueAt(c: Clause, assn: seq<VariableAssignment>, i: int): VariableAssignment
    requires Covers(c, assn) && 0 <= i < |c.literals|
  {
    assn[Variable(c.literals[i]) - 1]
  }

  predicate TrueAt(c: Clause, assn: seq<VariableAssignment>, i: int)
    requires Covers(c, assn) && 0 <= i < |c.literals|
  {
    Eval(c.literals[i], ValueAt(c, assn, i))
  }

  predicate UnassignedAt(c: Clause, assn: seq<VariableAssignment>, i: int)
    requires Covers(c, assn) && 0 <= i < |c.literals|
  {
    ValueAt(c, assn, i) == Unassigned
  }

  // ---------------------------------------------------------------------
  // The status a clause has under an assignment, independently of watches

  ghost predicate HasTrueLiteral(c: Clause, assn: seq<VariableAssignment>)
    requires Covers(c, assn)
  {
    exists i :: 0 <= i < |c.literals| && TrueAt(c, assn, i)
  }

  ghost predicate HasUnassigned(c: Clause, assn: seq<VariableAssignment>)
    requires Covers(c, assn)
  {
    exists i :: 0 <= i < |c.literals| && UnassignedAt(c, assn, i)
  }

  ghost predicate HasTwoUnassigned(c: Clause, assn: seq<VariableAssignment>)
    requires Covers(c, assn)
  {
    exists i, j :: 0 <= i < j < |c.literals| && UnassignedAt(c, assn, i) && UnassignedAt(c, assn, j)
  }

  /**
   * Satisfied when some literal is true; otherwise Undecided with two or more
   * unassigned positions, Unit with exactly one and Unsatisfied with none.
   */
  ghost function SemanticStatus(c: Clause, assn: seq<VariableAssignment>): ClauseStatus
    requires Covers(c, assn)
  {
    if HasTrueLiteral(c, assn) then ClauseStatus.Satisfied
    else if HasTwoUnassigned(c, assn) then ClauseStatus.Undecided
    else if HasUnassigned(c, assn) then ClauseStatus.Unit
    else ClauseStatus.Unsatisfied
  }

  // ---------------------------------------------------------------------
  // Watch placements

  /**
   * r is the smallest position below k, other than `other`, whose variable is
   * unassigned, or -1 when there is none.
   */
  ghost predicate LeastUnassignedBelow(c: Clause, assn: seq<VariableAssignment>, r: int, other: int, k: int)
    requires Covers(c, assn) && 0 <= k <= |c.literals|
  {
    if r == -1 then forall j :: 0 <= j < k && j != other ==> !UnassignedAt(c, assn, j)
    else
      && 0 <= r < k && r != other && UnassignedAt(c, assn, r)
      && forall j :: 0 <= j < r && j != other ==> !UnassignedAt(c, assn, j)
  }

  ghost predicate LeastUnassigned(c: Clause, assn: seq<VariableAssignment>, r: int, other: int)
    requires Covers(c, assn)
  {
    LeastUnassignedBelow(c, assn, r, other, |c.literals|)
  }

  /** The watches are the first two unassigned positions below k (or -1 where there are fewer). */
  ghost predicate PlacedBelow(c: Clause, assn: seq<VariableAssignment>, first: int, second: int, k: int)
    requires Covers(c, assn) && 0 <= k <= |c.literals|
  {
    && LeastUnassignedBelow(c, assn, first, -1, k)
    && (first == -1 ==> second == -1)
    && (first != -1 ==> LeastUnassignedBelow(c, assn, second, first, k))
  }

  /** Some literal on the variable of watched position w is true. */
  ghost predicate TrueOverVariableOf(c: Clause, assn: seq<VariableAssignment>, w: int)
    requires Covers(c, assn) && InRange(c, w)
  {
    w != -1 && exists k :: 0 <= k < |c.literals| && Variable(c.literals[k]) == Variable(c.literals[w]) && TrueAt(c, assn, k)
  }

  /**
   * The invariant every watcher keeps under every assignment it is updated
   * for: watches are in range and distinct, a Unit watcher watches exactly
   * one position, and a Satisfied watcher watches a variable one of whose
   * literals is true.
   */
  ghost predicate SoundState(c: Clause, assn: seq<VariableAssignment>, status: ClauseStatus, first: int, second: int)
  {
    && Covers(c, assn) && InRange(c, first) && InRange(c, second)
    && (first != -1 ==> first != second)
    && (status == ClauseStatus.Unit ==> first != -1 && second == -1)
    && (status == ClauseStatus.Satisfied ==> TrueOverVariableOf(c, assn, first) || TrueOverVariableOf(c, assn, second))
  }

  /**
   * A watcher that is not Satisfied watches no true literal, and a Unit
   * watcher watches an unassigned one (the literal unit propagation assigns).
   */
  ghost predicate SettledState(c: Clause, assn: seq<VariableAssignment>, status: ClauseStatus, first: int, second: int)
  {
    && Covers(c, assn) && InRange(c, first) && InRange(c, second)
    && (status != ClauseStatus.Satisfied ==>
          && (first != -1 ==> !TrueAt(c, assn, first))
          && (second != -1 ==> !TrueAt(c, assn, second))
          && (status == ClauseStatus.Unit ==> first != -1 && UnassignedAt(c, assn, first)))
  }

  /** The state Rescan computes: the semantic status, with watches that justify it. */
  ghost predicate CanonicalState(c: Clause, assn: seq<VariableAssignment>, status: ClauseStatus, first: int, second: int)
  {
    && Covers(c, assn) && InRange(c, first) && InRange(c, second)
    && status == SemanticStatus(c, assn)
    && (if status == ClauseStatus.Satisfied
        then (first != -1 ==> first != second) && ((first != -1 && TrueAt(c, assn, first)) || (second != -1 && TrueAt(c, assn, second)))
        else PlacedBelow(c, assn, first, second, |c.literals|))
  }

  /** The two assignments give every literal of the clause the same value. */
  ghost predicate Agree(c: Clause, a1: seq<VariableAssignment>, a2: seq<VariableAssignment>)
    requires Covers(c, a1) && Covers(c, a2)
  {
    forall i :: 0 <= i < |c.literals| ==> ValueAt(c, a1, i) == ValueAt(c, a2, i)
  }

  /** The watcher state of a freshly constructed watcher. */
  function Initial(c: Clause): (r: (ClauseStatus, int, int))
    ensures |c.literals| == 0 ==> r == (ClauseStatus.Unsatisfied, -1, -1)
    ensures |c.literals| == 1 ==> r == (ClauseStatus.Unit, 0, -1)
    ensures |c.literals| >= 2 ==> r == (ClauseStatus.Undecided, 0, 1)
  {
    if |c.literals| > 0 then
      if |c.literals| > 1 then (ClauseStatus.Undecided, 0, 1) else (ClauseStatus.Unit, 0, -1)
    else (ClauseStatus.Unsatisfied, -1, -1)
  }

  // ---------------------------------------------------------------------
  // Lemmas

  /** A canonical watcher is sound and settled. */
  lemma CanonicalIsSoundAndSettled(c: Clause, assn: seq<VariableAssignment>, status: ClauseStatus, first: int, second: int)
    requires CanonicalState(c, assn, status, first, second)
    ensures SoundState(c, assn, status, first, second)
    ensures SettledState(c, assn, status, first, second)
  {
    if status == ClauseStatus.Satisfied {
      if first != -1 && TrueAt(c, assn, first) {
        assert TrueOverVariableOf(c, assn, first);
      } else {
        assert TrueOverVariableOf(c, assn, second);
      }
    } else if status == ClauseStatus.Unit {
      assert HasUnassigned(c, assn) && !HasTwoUnassigned(c, assn);
      var i :| 0 <= i < |c.literals| && UnassignedAt(c, assn, i);
      assert first != -1;
    }
  }

  /** A sound Satisfied watcher belongs to a clause with a true literal. */
  lemma SatisfiedHasTrueLiteral(c: Clause, assn: seq<VariableAssignment>, status: ClauseStatus, first: int, second: int)
    requires SoundState(c, assn, status, first, second) && status == ClauseStatus.Satisfied
    ensures HasTrueLiteral(c, assn)
  {
    if TrueOverVariableOf(c, assn, first) {
      var k :| 0 <= k < |c.literals| && Variable(c.literals[k]) == Variable(c.literals[first]) && TrueAt(c, assn, k);
    } else {
      var k :| 0 <= k < |c.literals| && Variable(c.literals[k]) == Variable(c.literals[second]) && TrueAt(c, assn, k);
    }
  }

  /** Sound and settled states depend only on the values of the clause's own variables. */
  lemma AgreeFrame(c: Clause, a1: seq<VariableAssignment>, a2: seq<VariableAssignment>, status: ClauseStatus, first: int, second: int)
    requires Covers(c, a1) && Covers(c, a2) && Agree(c, a1, a2)
    ensures SoundState(c, a1, status, first, second) ==> SoundState(c, a2, status, first, second)
    ensures SettledState(c, a1, status, first, second) ==> SettledState(c, a2, status, first, second)
    ensures CanonicalState(c, a1, status, first, second) ==> CanonicalState(c, a2, status, first, second)
  {
    assert forall i :: 0 <= i < |c.literals| ==> TrueAt(c, a1, i) == TrueAt(c, a2, i);
    assert forall i :: 0 <= i < |c.literals| ==> UnassignedAt(c, a1, i) == UnassignedAt(c, a2, i);
    assert HasTrueLiteral(c, a1) == HasTrueLiteral(c, a2);
    assert HasUnassigned(c, a1) == HasUnassigned(c, a2);
    assert HasTwoUnassigned(c, a1) == HasTwoUnassigned(c, a2);
    assert InRange(c, first) ==> TrueOverVariableOf(c, a1, first) == TrueOverVariableOf(c, a2, first);
    assert InRange(c, second) ==> TrueOverVariableOf(c, a1, second) == TrueOverVariableOf(c, a2, second);
  }

  /** A new watcher is what Rescan computes while every variable of its clause is unassigned. */
  lemma InitialIsCanonical(c: Clause, assn: seq<VariableAssignment>)
    requires Covers(c, assn) && forall i :: 0 <= i < |c.literals| ==> UnassignedAt(c, assn, i)
    ensures CanonicalState(c, assn, Initial(c).0, Initial(c).1, Initial(c).2)
  {
    forall i | 0 <= i < |c.literals|
      ensures !TrueAt(c, assn, i)
    {
      assert UnassignedAt(c, assn, i);
    }
    if |c.literals| >= 2 {
      assert UnassignedAt(c, assn, 0) && UnassignedAt(c, assn, 1);
    } else if |c.literals| == 1 {
      assert UnassignedAt(c, assn, 0);
    }
  }

  /**
   * Assigning a variable that neither watch is on keeps a sound state sound
   * and a settled one settled; when the assignment does not satisfy the
   * clause, it keeps a canonical state canonical.
   */
  lemma UnwatchedUpdate(c: Clause, prev: seq<VariableAssignment>, assn: seq<VariableAssignment>, variable: Var,
                        value: VariableAssignment, status: ClauseStatus, first: int, second: int)
    requires Covers(c, assn) && OneStep(prev, assn, variable, value) && SoundState(c, prev, status, first, second)
    requires first != -1 && Variable(c.literals[first]) != variable
    requires second != -1 && Variable(c.literals[second]) != variable
    ensures SoundState(c, assn, status, first, second)
    ensures SettledState(c, prev, status, first, second) ==> SettledState(c, assn, status, first, second)
    ensures CanonicalState(c, prev, status, first, second) && value != Unassigned && Make(variable, value) !in c.literals
            ==> CanonicalState(c, assn, status, first, second)
  {
    assert ValueAt(c, prev, first) == ValueAt(c, assn, first);
    assert ValueAt(c, prev, second) == ValueAt(c, assn, second);
    if status == ClauseStatus.Satisfied {
      var w := if TrueOverVariableOf(c, prev, first) then first else second;
      var k :| 0 <= k < |c.literals| && Variable(c.literals[k]) == Variable(c.literals[w]) && TrueAt(c, prev, k);
      assert TrueAt(c, assn, k);
      assert TrueOverVariableOf(c, assn, w);
    }
    if CanonicalState(c, prev, status, first, second) && value != Unassigned && Make(variable, value) !in c.literals {
      UnwatchedKeepsCanonical(c, prev, assn, variable, value, status, first, second);
    }
  }

  /**
   * Assigning a variable that neither watch is on, in a clause that the
   * assignment does not satisfy, keeps a canonical state canonical.
   */
  lemma UnwatchedKeepsCanonical(c: Clause, prev: seq<VariableAssignment>, assn: seq<VariableAssignment>, variable: Var,
                                value: VariableAssignment, status: ClauseStatus, first: int, second: int)
    requires CanonicalState(c, prev, status, first, second) && Covers(c, assn) && OneStep(prev, assn, variable, value)
    requires value != Unassigned && Make(variable, value) !in c.literals
    requires first != -1 && Variable(c.literals[first]) != variable
    requires second != -1 && Variable(c.literals[second]) != variable
    ensures CanonicalState(c, assn, status, first, second)
  {
    forall i | 0 <= i < |c.literals| && TrueAt(c, assn, i)
      ensures TrueAt(c, prev, i)
    {
      if Variable(c.literals[i]) == variable {
        assert false;
      }
    }
    assert forall i :: 0 <= i < |c.literals| && UnassignedAt(c, assn, i) ==> UnassignedAt(c, prev, i);
    if status == ClauseStatus.Satisfied {
      if TrueAt(c, prev, first) {
        assert TrueAt(c, assn, first);
      } else {
        assert TrueAt(c, assn, second);
      }
    } else {
      assert first < second;
      assert UnassignedAt(c, prev, first) && UnassignedAt(c, prev, second);
      assert HasTwoUnassigned(c, prev);
      assert UnassignedAt(c, assn, first) && UnassignedAt(c, assn, second);
      assert HasTwoUnassigned(c, assn);
      assert !HasTrueLiteral(c, assn);
    }
  }

  /** Watched position w holds a true literal (IsSatisfied). */
  predicate Holds(c: Clause, assn: seq<VariableAssignment>, w: int)
    requires Covers(c, assn) && InRange(c, w)
  {
    w != -1 && TrueAt(c, assn, w)
  }

  /** Watched position w is empty or holds an assigned, false literal (IsUnsatisfied). */
  predicate FalseOrNone(c: Clause, assn: seq<VariableAssignment>, w: int)
    requires Covers(c, assn) && InRange(c, w)
  {
    w == -1 || (!UnassignedAt(c, assn, w) && !TrueAt(c, assn, w))
  }

  /** prev and assn differ at most in the slot of `variable`, which assn sets to `value`. */
  ghost predicate OneStep(prev: seq<VariableAssignment>, assn: seq<VariableAssignment>, variable: Var, value: VariableAssignment)
  {
    && |prev| == |assn| && variable <= |assn| && assn[variable - 1] == value
    && forall i :: 0 <= i < |assn| && i != variable - 1 ==> prev[i] == assn[i]
  }

  /** Watches after the satisfying branch of Update. */
  ghost predicate SatisfyingWatches(c: Clause, assn: seq<VariableAssignment>, literal: Literal,
                                    status: ClauseStatus, f0: int, s0: int, f1: int, s1: int)
    requires Covers(c, assn) && InRange(c, f0) && InRange(c, s0)
  {
    if status == ClauseStatus.Satisfied || (f0 != -1 && c.literals[f0] == literal) || (s0 != -1 && c.literals[s0] == literal)
    then f1 == f0 && s1 == s0
    else
      var index := FindLiteral(c, literal);
      if !Holds(c, assn, f0) then f1 == index && s1 == f0
      else if !Holds(c, assn, s0) then f1 == f0 && s1 == index
      else f1 == f0 && s1 == s0
  }

  /** Watches and status after the re-examining branch of Update. */
  ghost predicate RecomputedWatches(c: Clause, assn: seq<VariableAssignment>,
                                    st0: ClauseStatus, f0: int, s0: int, st1: ClauseStatus, f1: int, s1: int)
    requires Covers(c, assn) && InRange(c, f0) && InRange(c, s0)
  {
    && (if FalseOrNone(c, assn, f0) then LeastUnassigned(c, assn, f1, -1) else f1 == f0)
    && InRange(c, f1)
    && (if s0 == f1 || FalseOrNone(c, assn, s0) then LeastUnassigned(c, assn, s1, f1) else s1 == s0)
    && InRange(c, s1)
    && st1 == (if st0 == ClauseStatus.Satisfied && (Holds(c, assn, f1) || Holds(c, assn, s1)) then ClauseStatus.Satisfied
               else if s1 != -1 then ClauseStatus.Undecided
               else if f1 != -1 then ClauseStatus.Unit
               else ClauseStatus.Unsatisfied)
  }

  lemma SatisfyingUpdateSound(c: Clause, prev: seq<VariableAssignment>, assn: seq<VariableAssignment>, variable: Var,
                              value: VariableAssignment, st0: ClauseStatus, f0: int, s0: int, f1: int, s1: int)
    requires Covers(c, assn) && OneStep(prev, assn, variable, value) && SoundState(c, prev, st0, f0, s0)
    requires value != Unassigned && Make(variable, value) in c.literals
    requires SatisfyingWatches(c, assn, Make(variable, value), st0, f0, s0, f1, s1)
    ensures SoundState(c, assn, ClauseStatus.Satisfied, f1, s1)
    ensures CanonicalState(c, prev, st0, f0, s0) && prev[variable - 1] == Unassigned
            ==> CanonicalState(c, assn, ClauseStatus.Satisfied, f1, s1)
  {
    var literal := Make(variable, value);
    MakeRoundTrip(variable, value);
    var index := FindLiteral(c, literal);
    assert TrueAt(c, assn, index);
    assert HasTrueLiteral(c, assn);
    if st0 == ClauseStatus.Satisfied {
      var w := if TrueOverVariableOf(c, prev, f0) then f0 else s0;
      var k :| 0 <= k < |c.literals| && Variable(c.literals[k]) == Variable(c.literals[w]) && TrueAt(c, prev, k);
      if Variable(c.literals[k]) == variable {
        assert TrueOverVariableOf(c, assn, w) by {
          assert Variable(c.literals[index]) == Variable(c.literals[w]) && TrueAt(c, assn, index);
        }
      } else {
        assert TrueAt(c, assn, k);
        assert TrueOverVariableOf(c, assn, w);
      }
      if CanonicalState(c, prev, st0, f0, s0) && prev[variable - 1] == Unassigned {
        if f0 != -1 && TrueAt(c, prev, f0) {
          assert TrueAt(c, assn, f0);
        } else {
          assert TrueAt(c, assn, s0);
        }
      }
    } else if (f0 != -1 && c.literals[f0] == literal) || (s0 != -1 && c.literals[s0] == literal) {
      if f0 != -1 && c.literals[f0] == literal {
        assert TrueAt(c, assn, f0);
        assert TrueOverVariableOf(c, assn, f0);
      } else {
        assert TrueAt(c, assn, s0);
        assert TrueOverVariableOf(c, assn, s0);
      }
    } else if !Holds(c, assn, f0) {
      assert TrueOverVariableOf(c, assn, f1);
    } else {
      assert TrueOverVariableOf(c, assn, f0);
    }
  }

  lemma RecomputedSound(c: Clause, assn: seq<VariableAssignment>,
                        st0: ClauseStatus, f0: int, s0: int, st1: ClauseStatus, f1: int, s1: int)
    requires Covers(c, assn) && InRange(c, f0) && InRange(c, s0)
    requires RecomputedWatches(c, assn, st0, f0, s0, st1, f1, s1)
    requires f0 != -1 ==> f0 != s0
    ensures SoundState(c, assn, st1, f1, s1)
  {
    if st1 == ClauseStatus.Satisfied {
      if Holds(c, assn, f1) {
        assert TrueOverVariableOf(c, assn, f1);
      } else {
        assert TrueOverVariableOf(c, assn, s1);
      }
    }
  }

  lemma RecomputedSettled(c: Clause, prev: seq<VariableAssignment>, assn: seq<VariableAssignment>, variable: Var,
                          value: VariableAssignment, st0: ClauseStatus, f0: int, s0: int, st1: ClauseStatus, f1: int, s1: int)
    requires Covers(c, assn) && OneStep(prev, assn, variable, value) && SoundState(c, prev, st0, f0, s0)
    requires RecomputedWatches(c, assn, st0, f0, s0, st1, f1, s1)
    requires st0 == ClauseStatus.Satisfied
             || (SettledState(c, prev, st0, f0, s0)
                 && !(f0 != -1 && Variable(c.literals[f0]) == variable && TrueAt(c, assn, f0))
                 && !(s0 != -1 && Variable(c.literals[s0]) == variable && TrueAt(c, assn, s0)))
    ensures SettledState(c, assn, st1, f1, s1)
  {
    if st1 != ClauseStatus.Satisfied && st0 != ClauseStatus.Satisfied {
      if f0 != -1 && Variable(c.literals[f0]) != variable {
        assert ValueAt(c, prev, f0) == ValueAt(c, assn, f0);
      }
      if s0 != -1 && Variable(c.literals[s0]) != variable {
        assert ValueAt(c, prev, s0) == ValueAt(c, assn, s0);
      }
    }
  }

  /** What FalsifyingUpdate establishes when it recomputes its watches. */
  lemma Recomputed(c: Clause, prev: seq<VariableAssignment>, assn: seq<VariableAssignment>, variable: Var,
                   value: VariableAssignment, st0: ClauseStatus, f0: int, s0: int, st1: ClauseStatus, f1: int, s1: int)
    requires Covers(c, assn) && OneStep(prev, assn, variable, value) && SoundState(c, prev, st0, f0, s0)
    requires RecomputedWatches(c, assn, st0, f0, s0, st1, f1, s1)
    ensures SoundState(c, assn, st1, f1, s1)
    ensures st0 == ClauseStatus.Satisfied
            || (SettledState(c, prev, st0, f0, s0)
                && !(f0 != -1 && Variable(c.literals[f0]) == variable && TrueAt(c, assn, f0))
                && !(s0 != -1 && Variable(c.literals[s0]) == variable && TrueAt(c, assn, s0)))
            ==> SettledState(c, assn, st1, f1, s1)
    ensures CanonicalState(c, prev, st0, f0, s0) && prev[variable - 1] == Unassigned && value != Unassigned
            && Make(variable, value) !in c.literals
            ==> CanonicalState(c, assn, st1, f1, s1)
  {
    RecomputedSound(c, assn, st0, f0, s0, st1, f1, s1);
    if st0 == ClauseStatus.Satisfied
       || (SettledState(c, prev, st0, f0, s0)
           && !(f0 != -1 && Variable(c.literals[f0]) == variable && TrueAt(c, assn, f0))
           && !(s0 != -1 && Variable(c.literals[s0]) == variable && TrueAt(c, assn, s0)))
    {
      RecomputedSettled(c, prev, assn, variable, value, st0, f0, s0, st1, f1, s1);
    }
    if CanonicalState(c, prev, st0, f0, s0) && prev[variable - 1] == Unassigned && value != Unassigned
       && Make(variable, value) !in c.literals
    {
      RecomputedCanonical(c, prev, assn, variable, value, st0, f0, s0, st1, f1, s1);
    }
  }

  lemma RecomputedCanonical(c: Clause, prev: seq<VariableAssignment>, assn: seq<VariableAssignment>, variable: Var,
                            value: VariableAssignment, st0: ClauseStatus, f0: int, s0: int, st1: ClauseStatus, f1: int, s1: int)
    requires Covers(c, assn) && OneStep(prev, assn, variable, value) && CanonicalState(c, prev, st0, f0, s0)
    requires prev[variable - 1] == Unassigned && value != Unassigned && Make(variable, value) !in c.literals
    requires RecomputedWatches(c, assn, st0, f0, s0, st1, f1, s1)
    ensures CanonicalState(c, assn, st1, f1, s1)
  {
    MakeRoundTrip(variable, value);
    forall i | 0 <= i < |c.literals| && Variable(c.literals[i]) == variable
      ensures !TrueAt(c, assn, i) && !UnassignedAt(c, assn, i)
    {
      if TrueAt(c, assn, i) {
        assert false;
      }
    }
    assert forall i :: 0 <= i < |c.literals| && Variable(c.literals[i]) != variable ==> ValueAt(c, prev, i) == ValueAt(c, assn, i);
    assert forall i :: 0 <= i < |c.literals| && TrueAt(c, assn, i) ==> TrueAt(c, prev, i);
    assert forall i :: 0 <= i < |c.literals| && UnassignedAt(c, assn, i) ==> UnassignedAt(c, prev, i);
    if st0 == ClauseStatus.Satisfied {
      var w := if f0 != -1 && TrueAt(c, prev, f0) then f0 else s0;
      assert TrueAt(c, assn, w);
      assert HasTrueLiteral(c, assn);
      if w == f0 {
        assert f1 == f0;
      } else {
        assert s1 == s0;
      }
    } else {
      assert !HasTrueLiteral(c, assn);
      if f1 != -1 && s1 != -1 {
        assert UnassignedAt(c, assn, f1) && UnassignedAt(c, assn, s1);
        assert f1 < s1;
        assert HasTwoUnassigned(c, assn);
      } else if f1 != -1 {
        assert UnassignedAt(c, assn, f1);
        assert HasUnassigned(c, assn);
      }
    }
  }

  // ---------------------------------------------------------------------
  // The debug validation against a full rescan

  /**
   * As written, the re-examining branch of Update disagrees with Rescan on
   * a clause holding both signs of a variable. The clause `1 -1`, Undecided
   * and watching positions 0 and 1, sees x1 become False on the pass over
   * the clauses where x1 occurs positively (so `satisfies` is false). Its
   * first watch is false and no position is unassigned, so that watch is
   * dropped; the second watch, -1, is true and kept; the result is
   * Undecided. The clause's status under the assignment, which Rescan
   * computes, is Satisfied.
   */
  lemma TautologyFirstPassDisagrees(st1: ClauseStatus, f1: int, s1: int)
    requires RecomputedWatches(ClauseData([1, -1], 1), [False], ClauseStatus.Undecided, 0, 1, st1, f1, s1)
    ensures st1 == ClauseStatus.Undecided && f1 == -1 && s1 == 1
    ensures SemanticStatus(ClauseData([1, -1], 1), [False]) == ClauseStatus.Satisfied
  {
    var c := ClauseData([1, -1], 1);
    assert TrueAt(c, [False], 1);
    assert !UnassignedAt(c, [False], 0) && !UnassignedAt(c, [False], 1);
  }

  /**
   * Where the validation is meant to hold: once both passes of the solver's
   * watcher update are done. A sound watcher re-examined after an assignment
   * (the pass where the assigned value satisfies no literal on the variable)
   * and then given the satisfying pass for the literal the value makes true
   * is exactly in the state Rescan computes.
   */
  lemma SecondPassAgrees(c: Clause, assn: seq<VariableAssignment>, variable: Var, value: VariableAssignment,
                         st0: ClauseStatus, f0: int, s0: int, st1: ClauseStatus, f1: int, s1: int, f2: int, s2: int)
    requires Covers(c, assn) && InRange(c, f0) && InRange(c, s0) && (f0 != -1 ==> f0 != s0)
    requires variable <= |assn| && assn[variable - 1] == value && value != Unassigned
    requires Make(variable, value) in c.literals
    requires RecomputedWatches(c, assn, st0, f0, s0, st1, f1, s1)
    requires SatisfyingWatches(c, assn, Make(variable, value), st1, f1, s1, f2, s2)
    ensures CanonicalState(c, assn, ClauseStatus.Satisfied, f2, s2)
  {
    RecomputedSound(c, assn, st0, f0, s0, st1, f1, s1);
    var literal := Make(variable, value);
    MakeRoundTrip(variable, value);
    var index := FindLiteral(c, literal);
    assert TrueAt(c, assn, index);
    assert HasTrueLiteral(c, assn);
    if st1 == ClauseStatus.Satisfied {
      assert Holds(c, assn, f1) || Holds(c, assn, s1);
    } else if f1 != -1 && c.literals[f1] == literal {
      assert TrueAt(c, assn, f1);
    } else if s1 != -1 && c.literals[s1] == literal {
      assert TrueAt(c, assn, s1);
    } else if !Holds(c, assn, f1) {
      assert f2 == index && TrueAt(c, assn, f2);
    } else {
      assert TrueAt(c, assn, f2);
    }
  }

  class Watcher {
    const clause: Clause
    var status: ClauseStatus
    var first: int
    var second: int

    ghost predicate Sound(assn: seq<VariableAssignment>)
      reads this
    {
      SoundState(clause, assn, status, first, second)
    }

    ghost predicate Settled(assn: seq<VariableAssignment>)
      reads this
    {
      SettledState(clause, assn, status, first, second)
    }

    ghost predicate Canonical(assn: seq<VariableAssignment>)
      reads this
    {
      CanonicalState(clause, assn, status, first, second)
    }

    /** A watched literal on `variable` is true. */
    ghost predicate WatchesTrueOver(assn: seq<VariableAssignment>, variable: int)
      reads this
      requires Covers(clause, assn) && InRange(clause, first) && InRange(clause, second)
    {
      || (first != -1 && Variable(clause.literals[first]) == variable && TrueAt(clause, assn, first))
      || (second != -1 && Variable(clause.literals[second]) == variable && TrueAt(clause, assn, second))
    }

    /**
     * An empty clause is Unsatisfied with no watches, a one-literal clause is
     * Unit watching position 0, any longer one Undecided watching 0 and 1.
     */
    constructor (c: Clause)
      ensures clause == c && (status, first, second) == Initial(c)
    {
      clause := c;
      status := ClauseStatus.Undecided;
      first, second := -1, -1;
      if |c.literals| > 0 {
        first := 0;
        if |c.literals| > 1 {
          second := 1;
        } else {
          status := ClauseStatus.Unit;
        }
      } else {
        status := ClauseStatus.Unsatisfied;
      }
    }

    /** IsSatisfied(index): false for -1, otherwise whether the literal there is true. */
    function IsSatisfied(assn: seq<VariableAssignment>, index: int): (r: bool)
      requires Covers(clause, assn) && InRange(clause, index)
      ensures r ==> index != -1 && ValueAt(clause, assn, index) != Unassigned
      ensures index != -1 ==> (r <==> TrueAt(clause, assn, index))
    {
      if index == -1 then false
      else Eval(clause.literals[index], assn[Variable(clause.literals[index]) - 1])
    }

    /** IsUnsatisfied(index): true for -1, otherwise whether the literal there is assigned and false. */
    function IsUnsatisfied(assn: seq<VariableAssignment>, index: int): (r: bool)
      requires Covers(clause, assn) && InRange(clause, index)
      ensures index == -1 ==> r
      ensures index != -1 ==> (r <==> !UnassignedAt(clause, assn, index) && !TrueAt(clause, assn, index))
    {
      if index == -1 then true
      else
        var a := assn[Variable(clause.literals[index]) - 1];
        a != Unassigned && !Eval(clause.literals[index], a)
    }

    /** A watched position is exactly one of: satisfied, unsatisfied, unassigned. */
    lemma WatchTrichotomy(assn: seq<VariableAssignment>, index: int)
      requires Covers(clause, assn) && 0 <= index < |clause.literals|
      ensures IsSatisfied(assn, index) || IsUnsatisfied(assn, index) || UnassignedAt(clause, assn, index)
      ensures !(IsSatisfied(assn, index) && IsUnsatisfied(assn, index))
      ensures UnassignedAt(clause, assn, index) ==> !IsSatisfied(assn, index) && !IsUnsatisfied(assn, index)
    {

    }

    /** FindUnassigned(other): the smallest position other than `other` whose variable is unassigned, or -1. */
    method FindUnassigned(assn: seq<VariableAssignment>, other: int) returns (r: int)
      requires Covers(clause, assn)
      ensures LeastUnassigned(clause, assn, r, other)
    {
      var i := 0;
      while i < |clause.literals|
        invariant 0 <= i <= |clause.literals|
        invariant forall j :: 0 <= j < i && j != other ==> !UnassignedAt(clause, assn, j)
      {
        if assn[Variable(clause.literals[i]) - 1] == Unassigned && i != other {
          return i;
        }
        i := i + 1;
      }
      return -1;
    }

    /** UpdateStatus: the status the current watches justify. */
    method UpdateStatus(assn: seq<VariableAssignment>)
      requires Covers(clause, assn) && InRange(clause, first) && InRange(clause, second)
      modifies this
      ensures first == old(first) && second == old(second)
      ensures status == (if IsSatisfied(assn, first) || IsSatisfied(assn, second) then ClauseStatus.Satisfied
                         else if second != -1 then ClauseStatus.Undecided
                         else if first != -1 then ClauseStatus.Unit
                         else ClauseStatus.Unsatisfied)
    {
      if IsSatisfied(assn, first) || IsSatisfied(assn, second) {
        status := ClauseStatus.Satisfied;
      } else if second != -1 {
        status := ClauseStatus.Undecided;
      } else if first != -1 {
        status := ClauseStatus.Unit;
      } else {
        status := ClauseStatus.Unsatisfied;
      }
    }

    /**
     * Rescan: a full pass over the clause. The last true literal becomes the
     * first watch; without true literals the watches are the first two
     * unassigned positions, and the status is then the semantic one.
     */
    method Rescan(assn: seq<VariableAssignment>)
      requires Covers(clause, assn)
      modifies this
      ensures Canonical(assn) && Sound(assn) && Settled(assn)
    {
      first, second := -1, -1;
      var i := 0;
      while i < |clause.literals|
        invariant 0 <= i <= |clause.literals|
        invariant -1 <= first < i && -1 <= second < i
        invariant first != -1 ==> first != second
        invariant (exists j :: 0 <= j < i && TrueAt(clause, assn, j)) ==> first != -1 && TrueAt(clause, assn, first)
        invariant !(exists j :: 0 <= j < i && TrueAt(clause, assn, j)) ==> PlacedBelow(clause, assn, first, second, i)
      {
        var literal := clause.literals[i];
        var a := assn[Variable(literal) - 1];
        if Eval(literal, a) {
          second := first;
          first := i;
        } else if a == Unassigned {
          if first == -1 {
            first := i;
          } else if second == -1 {
            second := i;
          }
        }
        i := i + 1;
      }
      UpdateStatus(assn);
      RescanStatus(assn);
      CanonicalIsSoundAndSettled(clause, assn, status, first, second);
    }

    /**
     * Update: the incremental step for an assignment of `variable` to `value`
     * that touches the clause. `prev` is the assignment the watcher was last
     * brought up to date with; it differs from `assn` in that variable only.
     * `satisfies` says that the assigned value makes a literal of the clause
     * true.
     */
    method Update(ghost prev: seq<VariableAssignment>, assn: seq<VariableAssignment>,
                  variable: Var, value: VariableAssignment, satisfies: bool)
      requires Covers(clause, assn) && OneStep(prev, assn, variable, value) && Sound(prev)
      requires satisfies ==> value != Unassigned && Make(variable, value) in clause.literals
      modifies this
      ensures Sound(assn)
      ensures satisfies ==> status == ClauseStatus.Satisfied
      ensures (!satisfies && (old(status) == ClauseStatus.Satisfied || (old(Settled(prev)) && !old(WatchesTrueOver(assn, variable)))))
              ==> Settled(assn)
      ensures (old(Canonical(prev)) && prev[variable - 1] == Unassigned && value != Unassigned
               && (satisfies <==> Make(variable, value) in clause.literals))
              ==> Canonical(assn)
    {
      if satisfies {
        SatisfyingUpdate(prev, assn, variable, value);
      } else {
        FalsifyingUpdate(prev, assn, variable, value);
      }
    }

    /** The branch of Update for an assignment that makes a literal of the clause true. */
    method SatisfyingUpdate(ghost prev: seq<VariableAssignment>, assn: seq<VariableAssignment>,
                            variable: Var, value: VariableAssignment)
      requires Covers(clause, assn) && OneStep(prev, assn, variable, value) && Sound(prev)
      requires value != Unassigned && Make(variable, value) in clause.literals
      modifies this
      ensures Sound(assn) && status == ClauseStatus.Satisfied
      ensures old(Canonical(prev)) && prev[variable - 1] == Unassigned ==> Canonical(assn)
    {
      ghost var st0, f0, s0 := status, first, second;
      var literal := Make(variable, value);
      if status != ClauseStatus.Satisfied
        && (first == -1 || literal != clause.literals[first])
        && (second == -1 || literal != clause.literals[second])
      {
        var index := FindLiteral(clause, literal);
        if !IsSatisfied(assn, first) {
          second := first;
          first := index;
        } else if !IsSatisfied(assn, second) {
          second := index;
        }
      }
      status := ClauseStatus.Satisfied;
      SatisfyingUpdateSound(clause, prev, assn, variable, value, st0, f0, s0, first, second);
    }

    /** The branch of Update for an assignment that makes no literal of the clause true. */
    method FalsifyingUpdate(ghost prev: seq<VariableAssignment>, assn: seq<VariableAssignment>,
                            variable: Var, value: VariableAssignment)
      requires Covers(clause, assn) && OneStep(prev, assn, variable, value) && Sound(prev)
      modifies this
      ensures Sound(assn)
      ensures (old(status) == ClauseStatus.Satisfied || (old(Settled(prev)) && !old(WatchesTrueOver(assn, variable))))
              ==> Settled(assn)
      ensures (old(Canonical(prev)) && prev[variable - 1] == Unassigned && value != Unassigned
               && Make(variable, value) !in clause.literals)
              ==> Canonical(assn)
    {
      ghost var st0, f0, s0 := status, first, second;
      if first != -1 && variable != Variable(clause.literals[first])
        && second != -1 && variable != Variable(clause.literals[second])
      {
        UnwatchedUpdate(clause, prev, assn, variable, value, status, first, second);
        return;
      }
      var f, sec, st := Recompute(assn);
      Recomputed(clause, prev, assn, variable, value, st0, f0, s0, st, f, sec);
      first, second, status := f, sec, st;
    }

    /**
     * The watches and status FalsifyingUpdate moves to: a false or missing
     * watch is replaced by the first unassigned literal (avoiding the other
     * watch), then UpdateStatus; nothing is changed yet.
     */
    method Recompute(assn: seq<VariableAssignment>) returns (f: int, sec: int, st: ClauseStatus)
      requires Covers(clause, assn) && InRange(clause, first) && InRange(clause, second)
      ensures RecomputedWatches(clause, assn, status, first, second, st, f, sec)
    {
      f, sec, st := first, second, status;
      if IsUnsatisfied(assn, f) {
        f := FindUnassigned(assn, -1);
      }
      assert if FalseOrNone(clause, assn, first) then LeastUnassigned(clause, assn, f, -1) else f == first;
      if sec == f || IsUnsatisfied(assn, sec) {
        sec := FindUnassigned(assn, f);
      }
      assert if second == f || FalseOrNone(clause, assn, second) then LeastUnassigned(clause, assn, sec, f) else sec == second;
      if st == ClauseStatus.Satisfied && (IsSatisfied(assn, f) || IsSatisfied(assn, sec)) {
        st := ClauseStatus.Satisfied;
      } else if sec != -1 {
        st := ClauseStatus.Undecided;
      } else if f != -1 {
        st := ClauseStatus.Unit;
      } else {
        st := ClauseStatus.Unsatisfied;
      }
    }

    /** The status UpdateStatus derives from canonically placed watches is the semantic one. */
    lemma RescanStatus(assn: seq<VariableAssignment>)
      requires Covers(clause, assn) && InRange(clause, first) && InRange(clause, second)
      requires first != -1 ==> first != second
      requires HasTrueLiteral(clause, assn) ==> first != -1 && TrueAt(clause, assn, first)
      requires !HasTrueLiteral(clause, assn) ==> PlacedBelow(clause, assn, first, second, |clause.literals|)
      requires status == (if IsSatisfied(assn, first) || IsSatisfied(assn, second) then ClauseStatus.Satisfied
                          else if second != -1 then ClauseStatus.Undecided
                          else if first != -1 then ClauseStatus.Unit
                          else ClauseStatus.Unsatisfied)
      ensures Canonical(assn)
    {
      if !HasTrueLiteral(clause, assn) {
        if first != -1 && second != -1 {
          assert first < second;
          assert UnassignedAt(clause, assn, first) && UnassignedAt(clause, assn, second);
        } else if first != -1 {
          assert UnassignedAt(clause, assn, first);
        }
      }
    }
  }
}
