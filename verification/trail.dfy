/**
 * DecisionTrail: the stack of variable assignments in the order the solver
 * made them, with a decision-level counter and a variable-to-position index
 * (headers/pjos/DecisionTrail.h, source/DecisionTrail.cpp).
 */
module Trails {
  import opened Core
  import opened Wrappers
  import opened Literals

  /** Reason codes; a non-negative reason is the index of the clause that propagated the entry. */
  const ReasonAssumption: int := -3
  const ReasonPropagation: int := -2
  const ReasonDecision: int := -1

  /** The position stored for an unindexed variable (size_t(-1) in the source). */
  const EmptyIndex: int := -1

  function IsPropagatedFromClause(reason: int): (r: bool)
    ensures reason == ReasonAssumption || reason == ReasonPropagation || reason == ReasonDecision ==> !r
    ensures r ==> reason >= 0
  {
    reason >= 0
  }

  datatype Entry = Entry(variable: Var, assignment: VariableAssignment, reason: int, level: nat)

  /** The stack left after dropping the top entries whose variable exceeds n. */
  function Trimmed(entries: seq<Entry>, n: nat): (r: seq<Entry>)
    ensures |r| <= |entries| && r == entries[..|r|]
    ensures r == [] || r[|r| - 1].variable <= n
    ensures forall i :: |r| <= i < |entries| ==> entries[i].variable > n
  {
    if entries == [] || entries[|entries| - 1].variable <= n then entries
    else Trimmed(entries[..|entries| - 1], n)
  }

  /** The level of the top entry, or 0 for an empty trail: the level counter of a trail that only the push and pop operations have changed. */
  function TopLevel(entries: seq<Entry>): nat
  {
    if entries == [] then 0 else entries[|entries| - 1].level
  }

  /** The slots after unassigning the variable of every entry. */
  function Unassigning(slots: seq<VariableAssignment>, entries: seq<Entry>): (r: seq<VariableAssignment>)
    requires forall k :: 0 <= k < |entries| ==> entries[k].variable <= |slots|
    ensures |r| == |slots|
  {
    if entries == [] then slots
    else Unassigning(slots, entries[1..])[entries[0].variable - 1 := Unassigned]
  }

  /** Unassigning clears exactly the slots of the entries' variables and keeps the others. */
  lemma {:induction false} UnassigningClears(slots: seq<VariableAssignment>, entries: seq<Entry>, i: int)
    requires forall k :: 0 <= k < |entries| ==> entries[k].variable <= |slots|
    requires 0 <= i < |slots|
    ensures (exists k :: 0 <= k < |entries| && entries[k].variable == i + 1) ==> Unassigning(slots, entries)[i] == Unassigned
    ensures (forall k :: 0 <= k < |entries| ==> entries[k].variable != i + 1) ==> Unassigning(slots, entries)[i] == slots[i]
  {
    if entries != [] {
      UnassigningClears(slots, entries[1..], i);
      if exists k :: 0 <= k < |entries| && entries[k].variable == i + 1 {
        var k :| 0 <= k < |entries| && entries[k].variable == i + 1;
        if k > 0 {
          assert entries[1..][k - 1] == entries[k];
        }
      }
      if forall k :: 0 <= k < |entries| ==> entries[k].variable != i + 1 {
        assert entries[0].variable != i + 1;
        assert forall k :: 0 <= k < |entries| - 1 ==> entries[1..][k] == entries[k + 1];
      }
    }
  }

  /** A trail whose variables are all within the index loses nothing to the discarding step of Top and Pop. */
  lemma TrimmedIdentity(entries: seq<Entry>, n: nat)
    requires forall k :: 0 <= k < |entries| ==> entries[k].variable <= n
    ensures Trimmed(entries, n) == entries
  {
  }

  /** Unassigning one more entry from below the ones already undone. */
  lemma UnassigningStep(slots: seq<VariableAssignment>, es: seq<Entry>, n: nat)
    requires 0 < n <= |es| && forall k :: 0 <= k < |es| ==> es[k].variable <= |slots|
    ensures Unassigning(slots, es[n - 1..]) == Unassigning(slots, es[n..])[es[n - 1].variable - 1 := Unassigned]
  {
    assert es[n - 1..][1..] == es[n..];
  }

  class DecisionTrail {
    var entries: seq<Entry>
    var level: nat
    /** varIndex[v - 1] is the position of the newest entry of variable v, or EmptyIndex. */
    var varIndex: seq<int>

    /**
     * Every index entry points at an entry of its own variable, levels never
     * decrease from bottom to top, and no entry is above the level counter.
     */
    ghost predicate Valid()
      reads this
    {
      && (forall v :: 0 <= v < |varIndex| ==>
            varIndex[v] == EmptyIndex || (0 <= varIndex[v] < |entries| && entries[varIndex[v]].variable == v + 1))
      && (forall i, j :: 0 <= i < j < |entries| ==> entries[i].level <= entries[j].level)
      && (forall i :: 0 <= i < |entries| ==> entries[i].level <= level)
    }

    constructor (numOfVariables: nat)
      ensures Valid() && entries == [] && level == 0 && varIndex == seq(numOfVariables, _ => EmptyIndex)
    {
      entries := [];
      level := 0;
      varIndex := seq(numOfVariables, _ => EmptyIndex);
    }

    function Level(): nat
      reads this
    {
      level
    }

    function Length(): nat
      reads this
    {
      |entries|
    }

    /** operator[](index): read-only access from the bottom of the stack. */
    function Get(index: int): Entry
      reads this
      requires 0 <= index < Length()
    {
      entries[index]
    }

    /** Find(variable): the newest entry of the variable, if it is indexed. */
    function Find(variable: int): (r: Option<Entry>)
      reads this
      requires Valid()
      ensures r.Some? ==> r.value.variable == variable && r.value in entries
      ensures variable < 1 || variable > |varIndex| ==> r.None?
      ensures r.None? <==> variable < 1 || variable > |varIndex| || varIndex[variable - 1] == EmptyIndex
    {
      if variable < 1 || variable - 1 >= |varIndex| then None
      else if varIndex[variable - 1] == EmptyIndex then None
      else Some(entries[varIndex[variable - 1]])
    }

    /** Pushes an entry and indexes it (the shared body of the four push operations). */
    method Push(variable: Var, a: VariableAssignment, reason: int, newLevel: nat)
      requires Valid() && variable <= |varIndex| && newLevel >= level
      modifies this
      ensures Valid()
      ensures entries == old(entries) + [Entry(variable, a, reason, newLevel)] && level == newLevel
      ensures varIndex == old(varIndex)[variable - 1 := |old(entries)|]
      ensures Find(variable) == Some(Entry(variable, a, reason, newLevel))
    {
      varIndex := varIndex[variable - 1 := |entries|];
      entries := entries + [Entry(variable, a, reason, newLevel)];
      level := newLevel;
    }

    /** A decision opens a new level. */
    method Decision(variable: Var, a: VariableAssignment)
      requires Valid() && variable <= |varIndex|
      modifies this
      ensures Valid()
      ensures entries == old(entries) + [Entry(variable, a, ReasonDecision, old(level) + 1)] && level == old(level) + 1
      ensures varIndex == old(varIndex)[variable - 1 := |old(entries)|]
      ensures Find(variable) == Some(entries[|entries| - 1])
    {
      Push(variable, a, ReasonDecision, level + 1);
    }

    /** A propagation with no reason clause stays on the current level. */
    method Propagation(variable: Var, a: VariableAssignment)
      requires Valid() && variable <= |varIndex|
      modifies this
      ensures Valid()
      ensures entries == old(entries) + [Entry(variable, a, ReasonPropagation, old(level))] && level == old(level)
      ensures varIndex == old(varIndex)[variable - 1 := |old(entries)|]
      ensures Find(variable) == Some(entries[|entries| - 1])
    {
      Push(variable, a, ReasonPropagation, level);
    }

    /** A propagation forced by clause `reason` stays on the current level. */
    method PropagationFrom(variable: Var, a: VariableAssignment, reason: nat)
      requires Valid() && variable <= |varIndex|
      modifies this
      ensures Valid()
      ensures entries == old(entries) + [Entry(variable, a, reason, old(level))] && level == old(level)
      ensures varIndex == old(varIndex)[variable - 1 := |old(entries)|]
      ensures Find(variable) == Some(entries[|entries| - 1])
    {
      Push(variable, a, reason, level);
    }

    /** An assumption opens a new level, like a decision. */
    method Assumption(variable: Var, a: VariableAssignment)
      requires Valid() && variable <= |varIndex|
      modifies this
      ensures Valid()
      ensures entries == old(entries) + [Entry(variable, a, ReasonAssumption, old(level) + 1)] && level == old(level) + 1
      ensures varIndex == old(varIndex)[variable - 1 := |old(entries)|]
      ensures Find(variable) == Some(entries[|entries| - 1])
    {
      Push(variable, a, ReasonAssumption, level + 1);
    }

    /** Drops top entries of variables beyond the index (the loop Top and Pop start with). */
    method Discard()
      requires Valid()
      modifies this
      ensures Valid() && level == old(level) && varIndex == old(varIndex)
      ensures entries == Trimmed(old(entries), |varIndex|)
    {
      while entries != [] && entries[|entries| - 1].variable > |varIndex|
        invariant Valid() && level == old(level) && varIndex == old(varIndex)
        invariant Trimmed(entries, |varIndex|) == Trimmed(old(entries), |varIndex|)
        decreases |entries|
      {
        entries := entries[..|entries| - 1];
      }
    }

    /** Top: after discarding, the top entry, or null when the trail is empty. */
    method Top() returns (e: Option<Entry>)
      requires Valid()
      modifies this
      ensures Valid() && level == old(level) && varIndex == old(varIndex)
      ensures entries == Trimmed(old(entries), |varIndex|)
      ensures e == if entries == [] then None else Some(entries[|entries| - 1])
    {
      Discard();
      if entries != [] {
        e := Some(entries[|entries| - 1]);
      } else {
        e := None;
      }
    }

    /**
     * Pop: after discarding, removes the top entry, unindexes its variable and
     * lowers the level to the new top's level, or 0 when the trail empties.
     */
    method Pop()
      requires Valid()
      modifies this
      ensures Valid()
      ensures var t := Trimmed(old(entries), |old(varIndex)|);
        if t == [] then entries == [] && level == old(level) && varIndex == old(varIndex)
        else
          && entries == t[..|t| - 1]
          && varIndex == old(varIndex)[t[|t| - 1].variable - 1 := EmptyIndex]
          && level == (if entries == [] then 0 else entries[|entries| - 1].level)
          && Find(t[|t| - 1].variable) == None
    {
      Discard();
      if entries != [] {
        var top := entries[|entries| - 1];
        varIndex := varIndex[top.variable - 1 := EmptyIndex];
        entries := entries[..|entries| - 1];
        if entries != [] {
          level := entries[|entries| - 1].level;
        } else {
          level := 0;
        }
      }
    }

    method Reset()
      modifies this
      ensures Valid() && entries == [] && level == 0 && varIndex == seq(|old(varIndex)|, _ => EmptyIndex)
    {
      entries := [];
      level := 0;
      varIndex := seq(|varIndex|, _ => EmptyIndex);
    }

    /** Resizes the index: shrinking drops the tail, growing adds unindexed variables. */
    method SetNumOfVariables(n: nat)
      requires Valid()
      modifies this
      ensures Valid() && entries == old(entries) && level == old(level)
      ensures |varIndex| == n
      ensures forall v :: 0 <= v < n && v < |old(varIndex)| ==> varIndex[v] == old(varIndex)[v]
      ensures forall v :: |old(varIndex)| <= v < n ==> varIndex[v] == EmptyIndex
    {
      if |varIndex| > n {
        varIndex := varIndex[..n];
      } else if |varIndex| < n {
        varIndex := varIndex + seq(n - |varIndex|, _ => EmptyIndex);
      }
    }
  }
}
