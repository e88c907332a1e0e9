/**
 * Formula: a vector of clauses with a cached variable count, and the
 * builder that turns a literal stream into clauses
 * (headers/pjos/Formula.h, source/Formula.cpp).
 */
module Formulas {
  import opened Literals
  import opened Clauses

  class Formula {
    /** The stored clauses in insertion order; a stored clause is never modified. */
    var clauses: seq<Clause>
    /** Cached count: the largest variable count of any clause appended so far. */
    var numOfVariables: nat

    /** The cached count covers every stored clause. */
    ghost predicate Valid()
      reads this
    {
      forall i :: 0 <= i < |clauses| ==> clauses[i].numOfVariables <= numOfVariables
    }

    constructor ()
      ensures Valid() && clauses == [] && numOfVariables == 0
    {
      clauses := [];
      numOfVariables := 0;
    }

    function NumOfClauses(): nat
      reads this
    {
      |clauses|
    }

    function Empty(): (r: bool)
      reads this
      ensures r <==> clauses == []
    {
      NumOfClauses() == 0
    }

    function NumOfVariables(): nat
      reads this
    {
      numOfVariables
    }

    /** operator[](index): the index-th clause in insertion order. */
    function Get(index: int): Clause
      reads this
      requires 0 <= index < NumOfClauses()
    {
      clauses[index]
    }

    method AppendClause(c: Clause)
      requires Valid()
      modifies this
      ensures Valid()
      ensures clauses == old(clauses) + [c]
      ensures numOfVariables == if c.numOfVariables > old(numOfVariables) then c.numOfVariables else old(numOfVariables)
    {
      clauses := clauses + [c];
      if c.numOfVariables > numOfVariables {
        numOfVariables := c.numOfVariables;
      }
    }

    /** Removes clause `index` if it exists; the variable count is not recomputed. */
    method RemoveClause(index: int) returns (removed: bool)
      requires Valid()
      modifies this
      ensures Valid() && numOfVariables == old(numOfVariables)
      ensures removed <==> 0 <= index < |old(clauses)|
      ensures removed ==> clauses == old(clauses)[..index] + old(clauses)[index + 1..]
      ensures !removed ==> clauses == old(clauses)
    {
      if 0 <= index < |clauses| {
        clauses := clauses[..index] + clauses[index + 1..];
        removed := true;
      } else {
        removed := false;
      }
    }

    /** Drops every clause; the variable count is kept. */
    method Clear()
      requires Valid()
      modifies this
      ensures Valid() && clauses == [] && numOfVariables == old(numOfVariables)
    {
      clauses := [];
    }
  }

  /** Feeds a formula from a stream of literals and clause ends. */
  class FormulaBuilder {
    const formula: Formula
    const builder: ClauseBuilder
    /** No literal has been appended since the last clause end. */
    var newClause: bool

    ghost predicate Valid()
      reads this, formula, builder
    {
      formula.Valid() && builder.Valid() && (newClause ==> builder.literals == {})
    }

    constructor (formula: Formula)
      requires formula.Valid()
      ensures Valid() && this.formula == formula && newClause
      ensures fresh(builder) && formula.clauses == old(formula.clauses)
    {
      this.formula := formula;
      builder := new ClauseBuilder();
      newClause := true;
    }

    method AppendLiteral(l: Literal)
      requires Valid()
      modifies this, builder
      ensures Valid() && !newClause
      ensures builder.literals == old(builder.literals) + {l}
    {
      newClause := false;
      builder.Add(l);
    }

    /** Appends the clause built so far, even an empty one. */
    method EndClause()
      requires Valid()
      modifies this, builder, formula
      ensures Valid() && newClause && builder.literals == {}
      ensures |formula.clauses| == |old(formula.clauses)| + 1
      ensures formula.clauses[..|old(formula.clauses)|] == old(formula.clauses)
      ensures var c := formula.clauses[|old(formula.clauses)|];
        forall l :: HasLiteral(c, l) <==> l in old(builder.literals)
    {
      var c := builder.Make();
      formula.AppendClause(c);
      newClause := true;
    }

    /**
     * Finish, which the destructor calls: appends the pending clause only if a
     * literal came after the last clause end. It leaves newClause as it was.
     */
    method Finish()
      requires Valid()
      modifies this, builder, formula
      ensures Valid() && newClause == old(newClause) && builder.literals == {}
      ensures old(newClause) ==> formula.clauses == old(formula.clauses)
      ensures !old(newClause) ==>
        && |formula.clauses| == |old(formula.clauses)| + 1
        && formula.clauses[..|old(formula.clauses)|] == old(formula.clauses)
        && forall l :: HasLiteral(formula.clauses[|old(formula.clauses)|], l) <==> l in old(builder.literals)
    {
      if !newClause {
        var c := builder.Make();
        formula.AppendClause(c);
      }
    }
  }
}
