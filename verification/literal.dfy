/**
 * Literals: a signed non-zero integer, +v for variable v and -v for its
 * negation (headers/pjos/Literal.h).
 */
module Literals {
  import opened Core
  import opened Wrappers

  /** The integer that ends a clause in DIMACS and IPASIR, never a literal. */
  const Terminator: int := 0

  type Literal = l: int | l != Terminator witness 1

  /** Variable numbers start at 1. */
  type Var = v: int | v >= 1 witness 1

  /** Swaps True and False; Unassigned stays Unassigned. */
  function FlipVariableAssignment(a: VariableAssignment): (r: VariableAssignment)
    ensures (r == Unassigned) <==> (a == Unassigned)
    ensures a != Unassigned ==> r != a
  {
    match a
    case False => True
    case True => False
    case Unassigned => Unassigned
  }

  /** Literal(Int) with the hot-path check: zero throws. */
  function FromInt(x: int): (r: Result<Literal, Error>)
    ensures r.Success? <==> x != Terminator
    ensures r.Success? ==> r.value as int == x
  {
    if x == Terminator then Failure(SatError("Literal cannot be zero")) else Success(x)
  }

  /** Literal(UInt, VariableAssignment) without the check: False gives the negative literal. */
  function Make(variable: Var, a: VariableAssignment): (l: Literal)
    ensures Variable(l) == variable
    ensures l < 0 <==> a == False
  {
    if a == False then -(variable as int) else variable
  }

  /** Literal(UInt, VariableAssignment) with the hot-path check: variable 0 throws. */
  function FromVariable(variable: nat, a: VariableAssignment): (r: Result<Literal, Error>)
    ensures r.Success? <==> variable != 0
    ensures r.Success? ==> Variable(r.value) == variable && (r.value < 0 <==> a == False)
  {
    if variable == 0 then Failure(SatError("Literal cannot be zero")) else Success(Make(variable, a))
  }

  function Variable(l: Literal): (v: Var)
    ensures v == l || v == -(l as int)
  {
    if l < 0 then -(l as int) else l
  }

  /** The (variable, value) pair that makes the literal true. */
  function AssignmentOf(l: Literal): (p: (Var, VariableAssignment))
    ensures p.1 != Unassigned
    ensures Make(p.0, p.1) == l
    ensures Eval(l, p.1)
  {
    (Variable(l), if l < 0 then False else True)
  }

  /** Whether the literal is true when its variable has value a. */
  function Eval(l: Literal, a: VariableAssignment): (r: bool)
    ensures r ==> a != Unassigned
    ensures r <==> (if l < 0 then a == False else a == True)
  {
    (l > 0 && a == True) || (l < 0 && a == False)
  }

  function Negate(l: Literal): (r: Literal)
    ensures Variable(r) == Variable(l) && r != l
  {
    -(l as int)
  }

  /** std::less<Literal>: by variable first, then by signed value. */
  predicate Less(l1: Literal, l2: Literal)
  {
    Variable(l1) < Variable(l2) || (Variable(l1) == Variable(l2) && l1 < l2)
  }

  lemma FlipIsInvolution(a: VariableAssignment)
    ensures FlipVariableAssignment(FlipVariableAssignment(a)) == a
  {
  }

  /** The flipped value falsifies every literal the old value satisfied, and vice versa. */
  lemma FlipNegatesEval(l: Literal, a: VariableAssignment)
    requires a != Unassigned
    ensures Eval(l, FlipVariableAssignment(a)) == !Eval(l, a)
  {
  }

  lemma MakeRoundTrip(variable: Var, a: VariableAssignment)
    requires a != Unassigned
    ensures Variable(Make(variable, a)) == variable
    ensures AssignmentOf(Make(variable, a)) == (variable, a)
  {
  }

  lemma NegateProperties(l: Literal, a: VariableAssignment)
    ensures Negate(Negate(l)) == l
    ensures a != Unassigned ==> Eval(Negate(l), a) == !Eval(l, a)
    ensures !Eval(l, Unassigned) && !Eval(Negate(l), Unassigned)
  {
  }

  /** Less is a strict total order whose incomparable pairs are exactly the equal ones. */
  lemma LessIsStrictTotalOrder(l1: Literal, l2: Literal, l3: Literal)
    ensures !Less(l1, l1)
    ensures Less(l1, l2) ==> !Less(l2, l1)
    ensures Less(l1, l2) && Less(l2, l3) ==> Less(l1, l3)
    ensures l1 == l2 || Less(l1, l2) || Less(l2, l1)
  {
  }
}
