/**
 * Assignment: one three-valued slot per variable, addressed from 1
 * (headers/pjos/Assignment.h, source/Assignment.cpp).
 */
module Assignments {
  import opened Core
  import opened Wrappers

  /** The unassigned assignment of n variables. */
  function Cleared(n: nat): (s: seq<VariableAssignment>)
    ensures |s| == n && forall i :: 0 <= i < n ==> s[i] == Unassigned
  {
    seq(n, _ => Unassigned)
  }

  /** The slots after resizing to n: a prefix when shrinking, padding with Unassigned when growing. */
  function Resized(s: seq<VariableAssignment>, n: nat): (r: seq<VariableAssignment>)
    ensures |r| == n
    ensures forall i :: 0 <= i < n && i < |s| ==> r[i] == s[i]
    ensures forall i :: |s| <= i < n ==> r[i] == Unassigned
  {
    if n <= |s| then s[..n] else s + Cleared(n - |s|)
  }

  class Assignment {
    /** The backing vector: slot i - 1 holds the value of variable i. */
    var slots: seq<VariableAssignment>

    constructor (numOfVariables: nat)
      ensures slots == Cleared(numOfVariables)
    {
      slots := Cleared(numOfVariables);
    }

    function NumOfVariables(): nat
      reads this
    {
      |slots|
    }

    /** The unchecked read operator[](index). */
    function Get(index: int): VariableAssignment
      reads this
      requires 1 <= index <= NumOfVariables()
    {
      slots[index - 1]
    }

    /** The bounds-checked read: out of 1..NumOfVariables() it throws. */
    function Of(index: int): (r: Result<VariableAssignment, Error>)
      reads this
      ensures r.Success? <==> 1 <= index <= NumOfVariables()
      ensures r.Success? ==> r.value == Get(index)
    {
      if 1 <= index <= |slots| then Success(slots[index - 1]) else Failure(OutOfRange)
    }

    /** The bounds-checked write; out of range it throws and changes nothing. */
    method Set(index: int, a: VariableAssignment) returns (r: Result<(), Error>)
      modifies this
      ensures r.Success? <==> 1 <= index <= |old(slots)|
      ensures r.Success? ==> slots == old(slots)[index - 1 := a]
      ensures r.Failure? ==> slots == old(slots)
      ensures Of(index) == if r.Success? then Success(a) else Failure(OutOfRange)
    {
      if 1 <= index <= |slots| {
        slots := slots[index - 1 := a];
        r := Success(());
      } else {
        r := Failure(OutOfRange);
      }
    }

    /** The unchecked write through operator[](index). */
    method Put(index: int, a: VariableAssignment)
      requires 1 <= index <= NumOfVariables()
      modifies this
      ensures slots == old(slots)[index - 1 := a]
    {
      slots := slots[index - 1 := a];
    }

    method Reset()
      modifies this
      ensures slots == Cleared(|old(slots)|)
    {
      slots := Cleared(|slots|);
    }

    method SetNumOfVariables(n: nat)
      modifies this
      ensures slots == Resized(old(slots), n)
    {
      if |slots| > n {
        slots := slots[..n];
      } else if |slots| < n {
        slots := slots + Cleared(n - |slots|);
      }
    }

    method Begin() returns (it: AssignmentIterator)
      ensures fresh(it) && it.owner == this && it.position == 0 && it.variable == 1
    {
      it := new AssignmentIterator(this, 0, 1);
    }

    method End() returns (it: AssignmentIterator)
      ensures fresh(it) && it.owner == this && it.position == |slots| && it.variable == |slots| + 1
    {
      it := new AssignmentIterator(this, |slots|, |slots| + 1);
    }

    /**
     * A range-for over the assignment, as the formatters run it: from begin()
     * to end(), dereferencing each step.
     */
    method Pairs() returns (ps: seq<(int, VariableAssignment)>)
      ensures |ps| == |slots|
      ensures forall i :: 0 <= i < |ps| ==> ps[i] == (i + 1, slots[i])
    {
      var it := Begin();
      var end := End();
      ps := [];
      while !it.Equals(end)
        invariant it != end && end.position == |slots|
        invariant it.owner == this && it.Valid()
        invariant 0 <= it.position <= |slots| && |ps| == it.position
        invariant forall i :: 0 <= i < |ps| ==> ps[i] == (i + 1, slots[i])
        decreases |slots| - it.position
      {
        ps := ps + [it.Deref()];
        it.Next();
      }
    }
  }

  /** Walks the slots and the variable number in step. */
  class AssignmentIterator {
    const owner: Assignment
    /** The offset of the underlying vector iterator. */
    var position: int
    var variable: int

    /** The variable number is always one past the slot offset. */
    ghost predicate Valid()
      reads this
    {
      variable == position + 1
    }

    constructor (owner: Assignment, position: int, variable: int)
      ensures this.owner == owner && this.position == position && this.variable == variable
    {
      this.owner := owner;
      this.position := position;
      this.variable := variable;
    }

    /** operator++ */
    method Next()
      modifies this
      ensures position == old(position) + 1 && variable == old(variable) + 1
      ensures old(Valid()) ==> Valid()
    {
      position := position + 1;
      variable := variable + 1;
    }

    /** operator-- */
    method Prev()
      modifies this
      ensures position == old(position) - 1 && variable == old(variable) - 1
      ensures old(Valid()) ==> Valid()
    {
      position := position - 1;
      variable := variable - 1;
    }

    /** operator+=; operator-= is the same with -distance. */
    method Advance(distance: int)
      modifies this
      ensures position == old(position) + distance && variable == old(variable) + distance
      ensures old(Valid()) ==> Valid()
    {
      position := position + distance;
      variable := variable + distance;
    }

    /** operator+: a new iterator distance steps further; operator- is the same with -distance. */
    method Plus(distance: int) returns (it: AssignmentIterator)
      ensures fresh(it) && it.owner == owner
      ensures it.position == position + distance && it.variable == variable + distance
      ensures Valid() ==> it.Valid()
    {
      it := new AssignmentIterator(owner, position + distance, variable + distance);
    }

    /** operator== compares the underlying iterators only. */
    predicate Equals(other: AssignmentIterator)
      reads this, other
    {
      position == other.position
    }

    /** operator*: the variable and its value. */
    function Deref(): (r: (int, VariableAssignment))
      reads this, owner
      requires Valid() && 0 <= position < owner.NumOfVariables()
      ensures r.0 == position + 1 && r.1 == owner.Get(r.0)
    {
      (variable, owner.slots[position])
    }
  }
}
