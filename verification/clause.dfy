/**
 * Clauses: an immutable sequence of literals with a cached variable count,
 * and the builder that makes them from a literal set
 * (headers/pjos/Clause.h, source/Clause.cpp).
 */
module Clauses {
  import opened Core
  import opened Wrappers
  import opened Literals
  import opened Allocators

  datatype ClauseData = ClauseData(literals: seq<Literal>, numOfVariables: nat)

  /** Every literal's variable is within the clause's variable count. */
  type Clause = c: ClauseData | forall i :: 0 <= i < |c.literals| ==> Variable(c.literals[i]) <= c.numOfVariables
    witness ClauseData([], 0)

  function Length(c: Clause): nat
  {
    |c.literals|
  }

  /** An empty clause contains no literal at all. */
  function Empty(c: Clause): (r: bool)
    ensures r <==> forall l: Literal :: !HasLiteral(c, l)
  {
    assert Length(c) > 0 ==> HasLiteral(c, c.literals[0]);
    Length(c) == 0
  }

  /** The position of the first occurrence of l at or after `from`, or Length(c) (end()) when there is none. */
  function FindLiteralFrom(c: Clause, l: Literal, from: nat): (r: nat)
    requires from <= Length(c)
    ensures from <= r <= Length(c)
    ensures r < Length(c) ==> c.literals[r] == l
    ensures forall j :: from <= j < r ==> c.literals[j] != l
    decreases Length(c) - from
  {
    if from == Length(c) || c.literals[from] == l then from else FindLiteralFrom(c, l, from + 1)
  }

  /** FindLiteral: the first position holding l, or end(). */
  function FindLiteral(c: Clause, l: Literal): (r: nat)
    ensures r <= Length(c)
    ensures r < Length(c) ==> c.literals[r] == l && forall j :: 0 <= j < r ==> c.literals[j] != l
    ensures r == Length(c) <==> l !in c.literals
  {
    FindLiteralFrom(c, l, 0)
  }

  function HasLiteral(c: Clause, l: Literal): (r: bool)
    ensures r <==> l in c.literals
  {
    FindLiteral(c, l) != Length(c)
  }

  /** HasVariable(v): some literal of the clause is on variable v. */
  function HasVariable(c: Clause, v: int): (r: bool)
    ensures r <==> v >= 1 && (HasLiteral(c, v) || HasLiteral(c, -v))
  {
    exists i :: 0 <= i < Length(c) && Variable(c.literals[i]) == v
  }

  /** The bounds-checked access At(index). */
  function At(c: Clause, index: int): (r: Result<Literal, Error>)
    ensures r.Success? <==> 0 <= index < Length(c)
    ensures r.Success? ==> r.value == c.literals[index]
  {
    if 0 <= index < Length(c) then Success(c.literals[index])
    else Failure(SatError("Requested literal index is out of bounds"))
  }

  /** m is the largest variable of the literals in s, or 0 for the empty set. */
  ghost predicate IsMaxVariable(s: set<Literal>, m: nat)
  {
    && (forall l :: l in s ==> Variable(l) <= m)
    && (m == 0 || exists l :: l in s && Variable(l) == m)
  }

  /**
   * Lists the elements of a literal set, each once, in an order the model
   * leaves open (the iteration order of an unordered_set).
   */
  method ListLiterals(s: set<Literal>) returns (r: seq<Literal>)
    ensures |r| == |s|
    ensures forall l :: l in r <==> l in s
    ensures forall i, j :: 0 <= i < j < |r| ==> r[i] != r[j]
  {
    r := [];
    var rest := s;
    while rest != {}
      invariant rest <= s
      invariant forall l :: l in r <==> l in s && l !in rest
      invariant |r| + |rest| == |s|
      invariant forall i, j :: 0 <= i < j < |r| ==> r[i] != r[j]
      decreases |rest|
    {
      var l :| l in rest;
      r := r + [l];
      rest := rest - {l};
    }
  }

  class ClauseBuilder {
    var literals: set<Literal>
    var numOfVariables: nat

    ghost predicate Valid()
      reads this
    {
      IsMaxVariable(literals, numOfVariables)
    }

    constructor ()
      ensures Valid() && literals == {} && numOfVariables == 0
    {
      literals := {};
      numOfVariables := 0;
    }

    /** Add: set insertion, so adding a literal twice changes nothing. */
    method Add(l: Literal)
      requires Valid()
      modifies this
      ensures Valid()
      ensures literals == old(literals) + {l}
      ensures numOfVariables == if Variable(l) > old(numOfVariables) then Variable(l) else old(numOfVariables)
    {
      literals := literals + {l};
      if Variable(l) > numOfVariables {
        numOfVariables := Variable(l);
      }
    }

    method Reset()
      modifies this
      ensures Valid() && literals == {} && numOfVariables == 0
    {
      literals := {};
      numOfVariables := 0;
    }

    /**
     * Make(allocator): the clause holds exactly the builder's literals, each
     * once, in an unspecified order; the builder is emptied.
     */
    method MakeIn(allocator: LiteralStackAllocator) returns (c: Clause)
      requires Valid() && allocator.Valid()
      modifies this, allocator
      ensures Valid() && literals == {} && numOfVariables == 0
      ensures allocator.Valid() && |allocator.issued| == |old(allocator.issued)| + 1
      ensures allocator.issued[..|old(allocator.issued)|] == old(allocator.issued)
      ensures allocator.issued[|old(allocator.issued)|].length == |old(literals)|
      ensures Length(c) == |old(literals)| && c.numOfVariables == old(numOfVariables)
      ensures forall l :: HasLiteral(c, l) <==> l in old(literals)
      ensures forall i, j :: 0 <= i < j < Length(c) ==> c.literals[i] != c.literals[j]
    {
      var block := allocator.Allocate(|literals|);
      c := Build();
      Reset();
    }

    /** Make(): the same with the default allocator, which always hands out an owning array. */
    method Make() returns (c: Clause)
      requires Valid()
      modifies this
      ensures Valid() && literals == {} && numOfVariables == 0
      ensures Length(c) == |old(literals)| && c.numOfVariables == old(numOfVariables)
      ensures forall l :: HasLiteral(c, l) <==> l in old(literals)
      ensures forall i, j :: 0 <= i < j < Length(c) ==> c.literals[i] != c.literals[j]
    {
      c := Build();
      Reset();
    }

    /** Copies the set into a clause (the std::copy step shared by both Make overloads). */
    method Build() returns (c: Clause)
      requires Valid()
      ensures Length(c) == |literals| && c.numOfVariables == numOfVariables
      ensures forall l :: HasLiteral(c, l) <==> l in literals
      ensures forall i, j :: 0 <= i < j < Length(c) ==> c.literals[i] != c.literals[j]
    {
      var lits := ListLiterals(literals);
      assert forall i :: 0 <= i < |lits| ==> lits[i] in literals;
      c := ClauseData(lits, numOfVariables);
    }
  }
}
