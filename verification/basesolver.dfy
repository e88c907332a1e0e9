/**
 * BaseSolver: the state every algorithm shares (variable index, watchers,
 * assignment, decision trail, pending assignments) and the operations on it,
 * unit propagation first among them (headers/pjos/BaseSolver.h). The
 * ModifiableSolverBase mixin, which appends and removes clauses of an owned
 * formula, is folded into the same class.
 *
 * The source's OnVariableAssignment hook only feeds the branching heuristic,
 * which is not part of this model, so Assign does not call out.
 */
module BaseSolvers {
  import opened Core
  import Wrappers
  import opened Literals
  import opened Clauses
  import opened Formulas
  import opened Assignments
  import opened Trails
  import opened Watchers

  /** Sat and Pass come with no clause (ClauseUndef in the source), Unsat with the conflicting one. */
  datatype UnitPropagationResult = Sat | Unsat(clause: nat) | Pass

  datatype LiteralPolarity = PurePositive | PureNegative | Mixed | None

  /** The clauses a variable occurs in, by sign, and the signs it has occurred with. */
  datatype VariableIndexEntry = VariableIndexEntry(positive: seq<nat>, negative: seq<nat>, polarity: LiteralPolarity)

  /** A queued assignment: an assumption is enforced, any other one is a hint. */
  datatype PendingAssignment = PendingAssignment(variable: Var, value: VariableAssignment, isAssumption: bool)

  const EmptyEntry := VariableIndexEntry([], [], None)

  predicate HasPositive(p: LiteralPolarity)
  {
    p == PurePositive || p == Mixed
  }

  predicate HasNegative(p: LiteralPolarity)
  {
    p == PureNegative || p == Mixed
  }

  /** The polarity that records which signs a variable has occurred with. */
  function Summary(positive: bool, negative: bool): (p: LiteralPolarity)
    ensures HasPositive(p) == positive && HasNegative(p) == negative
  {
    if positive && negative then Mixed
    else if positive then PurePositive
    else if negative then PureNegative
    else None
  }

  /**
   * The polarity transition of UpdateClauseIndex: None becomes pure, a pure
   * polarity meeting the other sign becomes Mixed, and Mixed stays.
   */
  function NextPolarity(p: LiteralPolarity, positive: bool): (r: LiteralPolarity)
    ensures r == Summary(HasPositive(p) || positive, HasNegative(p) || !positive)
  {
    if positive then
      match p
      case PurePositive => PurePositive
      case Mixed => Mixed
      case PureNegative => Mixed
      case None => PurePositive
    else
      match p
      case PureNegative => PureNegative
      case Mixed => Mixed
      case PurePositive => Mixed
      case None => PureNegative
  }

  /**
   * An index entry of `variable` lists exactly the clauses holding its
   * positive (negative) literal, and its polarity covers every sign listed.
   */
  ghost predicate EntryMatches(e: VariableIndexEntry, variable: Var, clauses: seq<Clause>)
  {
    && (forall i :: i in e.positive ==> i < |clauses|)
    && (forall i :: i in e.negative ==> i < |clauses|)
    && (forall i :: 0 <= i < |clauses| ==> (i in e.positive <==> Make(variable, True) in clauses[i].literals))
    && (forall i :: 0 <= i < |clauses| ==> (i in e.negative <==> Make(variable, False) in clauses[i].literals))
    && (|e.positive| > 0 ==> HasPositive(e.polarity))
    && (|e.negative| > 0 ==> HasNegative(e.polarity))
  }

  ghost predicate IndexMatches(index: seq<VariableIndexEntry>, clauses: seq<Clause>)
  {
    forall v :: 0 <= v < |index| ==> EntryMatches(index[v], v + 1, clauses)
  }

  /** `after` is `before` with clause `clauseIdx`, holding `lits`, recorded. */
  ghost predicate Extends(before: VariableIndexEntry, after: VariableIndexEntry, variable: Var, clauseIdx: nat, lits: seq<Literal>)
  {
    && (forall i :: i in after.positive <==> i in before.positive || (i == clauseIdx && Make(variable, True) in lits))
    && (forall i :: i in after.negative <==> i in before.negative || (i == clauseIdx && Make(variable, False) in lits))
    && after.polarity == Summary(HasPositive(before.polarity) || Make(variable, True) in lits,
                                 HasNegative(before.polarity) || Make(variable, False) in lits)
  }

  /** UpdateClauseIndex: records every literal of clause `clauseIdx` under its variable. */
  method UpdateClauseIndex(index: seq<VariableIndexEntry>, clauseIdx: nat, c: Clause) returns (r: seq<VariableIndexEntry>)
    requires c.numOfVariables <= |index|
    ensures |r| == |index|
    ensures forall v :: 0 <= v < |r| ==> Extends(index[v], r[v], v + 1, clauseIdx, c.literals)
  {
    r := index;
    for k := 0 to |c.literals|
      invariant |r| == |index|
      invariant forall v :: 0 <= v < |r| ==> Extends(index[v], r[v], v + 1, clauseIdx, c.literals[..k])
    {
      var literal := c.literals[k];
      var (variable, a) := AssignmentOf(literal);
      var entry := r[variable - 1];
      if a == True {
        r := r[variable - 1 := entry.(positive := entry.positive + [clauseIdx], polarity := NextPolarity(entry.polarity, true))];
      } else {
        r := r[variable - 1 := entry.(negative := entry.negative + [clauseIdx], polarity := NextPolarity(entry.polarity, false))];
      }
      assert c.literals[..k + 1] == c.literals[..k] + [literal];
    }
    assert c.literals[..|c.literals|] == c.literals;
  }

  /** Recording an appended clause keeps the index exact. */
  lemma IndexAppend(index: seq<VariableIndexEntry>, r: seq<VariableIndexEntry>, clauses: seq<Clause>, c: Clause)
    requires IndexMatches(index, clauses) && |r| == |index|
    requires forall v :: 0 <= v < |r| ==> Extends(index[v], r[v], v + 1, |clauses|, c.literals)
    ensures IndexMatches(r, clauses + [c])
  {
    var cs := clauses + [c];
    forall v | 0 <= v < |r|
      ensures EntryMatches(r[v], v + 1, cs)
    {
      assert EntryMatches(index[v], v + 1, clauses);
      if |r[v].positive| > 0 {
        assert r[v].positive[0] in r[v].positive;
      }
      if |r[v].negative| > 0 {
        assert r[v].negative[0] in r[v].negative;
      }
      forall i | 0 <= i < |cs|
        ensures (i in r[v].positive <==> Make(v + 1, True) in cs[i].literals)
        ensures (i in r[v].negative <==> Make(v + 1, False) in cs[i].literals)
      {
        if i < |clauses| {
          assert cs[i] == clauses[i];
        }
      }
    }
  }

  /** A clause without a literal on `variable` sees no difference between the two assignments. */
  lemma UntouchedAgree(c: Clause, prev: seq<VariableAssignment>, assn: seq<VariableAssignment>, variable: Var, value: VariableAssignment)
    requires Covers(c, assn) && OneStep(prev, assn, variable, value)
    requires Make(variable, True) !in c.literals && Make(variable, False) !in c.literals
    ensures Covers(c, prev) && Agree(c, prev, assn)
  {
    forall i | 0 <= i < |c.literals|
      ensures Variable(c.literals[i]) != variable
    {
    }
  }

  /** A watcher after the positive-occurrence pass of UpdateWatchers. */
  ghost predicate PositiveDone(w: Watcher, assn: seq<VariableAssignment>, variable: Var, value: VariableAssignment)
    reads w
  {
    && w.Sound(assn)
    && (value == True ==> w.status == ClauseStatus.Satisfied)
    && (value != True ==> w.Settled(assn) || (value == False && Make(variable, False) in w.clause.literals))
  }

  /** One step of the positive pass: the watcher of a clause holding the positive literal. */
  method UpdatePositive(w: Watcher, ghost prev: seq<VariableAssignment>, assn: seq<VariableAssignment>,
                        variable: Var, value: VariableAssignment, ghost touched: bool)
    requires Covers(w.clause, assn) && OneStep(prev, assn, variable, value)
    requires Make(variable, True) in w.clause.literals
    requires touched ==> PositiveDone(w, assn, variable, value)
    requires !touched ==> w.Sound(prev) && w.Settled(prev)
    modifies w
    ensures PositiveDone(w, assn, variable, value)
  {
    w.Update(if touched then assn else prev, assn, variable, value, value == True);
  }

  /**
   * One step of the negative pass: the watcher of a clause holding the
   * negative literal, which the positive pass has already seen if the
   * clause holds the positive one as well.
   */
  method UpdateNegative(w: Watcher, ghost prev: seq<VariableAssignment>, assn: seq<VariableAssignment>,
                        variable: Var, value: VariableAssignment, ghost touched: bool, ghost seen: bool)
    requires Covers(w.clause, assn) && OneStep(prev, assn, variable, value)
    requires Make(variable, False) in w.clause.literals
    requires touched ==> w.Sound(assn) && w.Settled(assn)
    requires !touched && seen ==> PositiveDone(w, assn, variable, value)
    requires !touched && !seen ==> w.Sound(prev) && w.Settled(prev) && Make(variable, True) !in w.clause.literals
    modifies w
    ensures w.Sound(assn) && w.Settled(assn)
  {
    w.Update(if touched || seen then assn else prev, assn, variable, value, value == False);
  }

  /** The number of unassigned slots: the measure unit propagation decreases. */
  function CountUnassigned(s: seq<VariableAssignment>): nat
  {
    if s == [] then 0 else (if s[0] == Unassigned then 1 else 0) + CountUnassigned(s[1..])
  }

  /** Assigning an unassigned slot removes exactly one unassigned slot. */
  lemma {:induction false} AssigningDecreasesCount(s: seq<VariableAssignment>, i: nat, a: VariableAssignment)
    requires i < |s| && s[i] == Unassigned && a != Unassigned
    ensures CountUnassigned(s[i := a]) + 1 == CountUnassigned(s)
  {
    if i == 0 {
      assert s[i := a][1..] == s[1..];
    } else {
      AssigningDecreasesCount(s[1..], i - 1, a);
      assert s[i := a][1..] == s[1..][i - 1 := a];
    }
  }

  /** `after` keeps every value `before` had assigned. */
  ghost predicate Extension(before: seq<VariableAssignment>, after: seq<VariableAssignment>)
  {
    |before| == |after| && forall v :: 0 <= v < |before| && before[v] != Unassigned ==> after[v] == before[v]
  }

  /**
   * `after` is `before` plus propagations: each new entry is at `level`,
   * names as its reason a clause holding the literal it made true, and that
   * value is still in place.
   */
  ghost predicate Propagations(before: seq<Entry>, after: seq<Entry>, level: nat, clauses: seq<Clause>, assn: seq<VariableAssignment>)
  {
    && |before| <= |after| && after[..|before|] == before
    && forall k :: |before| <= k < |after| ==>
         && 0 <= after[k].reason < |clauses| && after[k].level == level
         && after[k].assignment != Unassigned
         && after[k].variable <= |assn| && assn[after[k].variable - 1] == after[k].assignment
         && Make(after[k].variable, after[k].assignment) in clauses[after[k].reason].literals
  }

  /** Two runs of propagations, the second keeping the values of the first, make one run. */
  lemma PropagationsCompose(e0: seq<Entry>, e1: seq<Entry>, e2: seq<Entry>, level: nat, clauses: seq<Clause>,
                            a1: seq<VariableAssignment>, a2: seq<VariableAssignment>)
    requires Propagations(e0, e1, level, clauses, a1) && Propagations(e1, e2, level, clauses, a2) && Extension(a1, a2)
    ensures Propagations(e0, e2, level, clauses, a2)
  {
    assert e2[..|e0|] == e1[..|e0|];
    forall k | |e0| <= k < |e2|
      ensures && 0 <= e2[k].reason < |clauses| && e2[k].level == level
        && e2[k].assignment != Unassigned
        && e2[k].variable <= |a2| && a2[e2[k].variable - 1] == e2[k].assignment
        && Make(e2[k].variable, e2[k].assignment) in clauses[e2[k].reason].literals
    {
      if k < |e1| {
        assert e2[k] == e1[k];
      }
    }
  }

  /** A pending assignment is honoured unless it is an assumption the assignment contradicts. */
  predicate Honoured(p: PendingAssignment, assn: seq<VariableAssignment>)
    requires p.variable <= |assn|
  {
    !p.isAssumption || assn[p.variable - 1] == Unassigned || assn[p.variable - 1] == p.value
  }

  /** The pending assignment enforces the assumption literal. */
  predicate Enforces(p: PendingAssignment, assumption: Literal)
  {
    p.isAssumption && p.value != Unassigned && Make(p.variable, p.value) == assumption
  }

  /**
   * A non-enforced assignment of an unassigned variable that makes no
   * literal of any clause false: its opposite literal occurs nowhere.
   */
  ghost predicate PureAssignment(p: PendingAssignment, assn: seq<VariableAssignment>, clauses: seq<Clause>)
  {
    && !p.isAssumption && p.value != Unassigned
    && p.variable <= |assn| && assn[p.variable - 1] == Unassigned
    && forall i :: 0 <= i < |clauses| ==> Negate(Make(p.variable, p.value)) !in clauses[i].literals
  }

  /** A variable ScanPureLiterals reports: unassigned and not of mixed polarity. */
  predicate Candidate(e: VariableIndexEntry, value: VariableAssignment)
  {
    value == Unassigned && e.polarity != Mixed
  }

  ghost function Variables(ps: seq<PendingAssignment>): set<int>
  {
    set k | 0 <= k < |ps| :: ps[k].variable
  }

  lemma VariablesAppend(ps: seq<PendingAssignment>, p: PendingAssignment)
    ensures Variables(ps + [p]) == Variables(ps) + {p.variable}
  {
    var qs := ps + [p];
    assert qs[|ps|].variable == p.variable;
    forall v | v in Variables(qs)
      ensures v in Variables(ps) + {p.variable}
    {
      var k :| 0 <= k < |qs| && qs[k].variable == v;
      if k < |ps| {
        assert ps[k].variable == v;
      }
    }
    forall v | v in Variables(ps)
      ensures v in Variables(qs)
    {
      var k :| 0 <= k < |ps| && ps[k].variable == v;
      assert qs[k].variable == v;
    }
  }

  /** ResetCurrentStatus: a finished result (Satisfied, Unsatisfied) no longer holds once the formula changes. */
  function ResetCurrentStatus(s: SolverStatus): SolverStatus
  {
    if s == SolverStatus.Satisfied || s == SolverStatus.Unsatisfied then Unknown else s
  }

  /**
   * The clause numbers of an index list once clause `index` is removed:
   * `index` itself is dropped and every later number moves down by one.
   */
  function Renumbered(list: seq<nat>, index: nat): seq<nat>
  {
    if list == [] then []
    else
      var rest := Renumbered(list[1..], index);
      if list[0] == index then rest
      else [if list[0] < index then list[0] else list[0] - 1] + rest
  }

  /** A number is in the renumbered list exactly when it named a clause other than `index`, before the shift. */
  lemma {:induction false} RenumberedMembers(list: seq<nat>, index: nat, i: int)
    ensures i in Renumbered(list, index) ==> (i < index && i in list) || (i >= index && i + 1 in list)
    ensures (i < index && i in list) ==> i in Renumbered(list, index)
    ensures (i >= index && i + 1 in list) ==> i in Renumbered(list, index)
  {
    if list != [] {
      RenumberedMembers(list[1..], index, i);
      assert list == [list[0]] + list[1..];
    }
  }

  /** Entries for variables that occur in no clause extend an exact index. */
  lemma IndexGrow(index: seq<VariableIndexEntry>, clauses: seq<Clause>, m: nat)
    requires IndexMatches(index, clauses)
    requires forall i :: 0 <= i < |clauses| ==> clauses[i].numOfVariables <= |index|
    ensures IndexMatches(index + seq(m, _ => EmptyEntry), clauses)
  {
    var r := index + seq(m, _ => EmptyEntry);
    forall v | |index| <= v < |r|
      ensures EntryMatches(r[v], v + 1, clauses)
    {
      forall i | 0 <= i < |clauses|
        ensures Make(v + 1, True) !in clauses[i].literals && Make(v + 1, False) !in clauses[i].literals
      {
        var c := clauses[i];
        assert forall k :: 0 <= k < |c.literals| ==> Variable(c.literals[k]) < v + 1;
      }
    }
    forall v | 0 <= v < |index|
      ensures EntryMatches(r[v], v + 1, clauses)
    {
      assert r[v] == index[v];
    }
  }

  /** Renumbering every entry keeps the index exact for the clauses without clause `index`. */
  lemma IndexRemove(index: seq<VariableIndexEntry>, r: seq<VariableIndexEntry>, clauses: seq<Clause>, removed: nat)
    requires IndexMatches(index, clauses) && removed < |clauses| && |r| == |index|
    requires forall v :: 0 <= v < |r| ==>
      r[v] == index[v].(positive := Renumbered(index[v].positive, removed), negative := Renumbered(index[v].negative, removed))
    ensures IndexMatches(r, clauses[..removed] + clauses[removed + 1..])
  {
    var cs := clauses[..removed] + clauses[removed + 1..];
    forall v | 0 <= v < |r|
      ensures EntryMatches(r[v], v + 1, cs)
    {
      var e, e' := index[v], r[v];
      assert EntryMatches(e, v + 1, clauses);
      forall i | 0 <= i < |cs|
        ensures (i in e'.positive <==> Make(v + 1, True) in cs[i].literals)
        ensures (i in e'.negative <==> Make(v + 1, False) in cs[i].literals)
      {
        RenumberedMembers(e.positive, removed, i);
        RenumberedMembers(e.negative, removed, i);
        if i < removed {
          assert cs[i] == clauses[i];
        } else {
          assert cs[i] == clauses[i + 1];
          assert (i + 1 in e.positive <==> Make(v + 1, True) in clauses[i + 1].literals);
          assert (i + 1 in e.negative <==> Make(v + 1, False) in clauses[i + 1].literals);
        }
      }
      forall i | i in e'.positive
        ensures i < |cs| && HasPositive(e'.polarity)
      {
        RenumberedMembers(e.positive, removed, i);
        if i < removed {
          assert i in e.positive;
        } else {
          assert i + 1 in e.positive;
        }
      }
      forall i | i in e'.negative
        ensures i < |cs| && HasNegative(e'.polarity)
      {
        RenumberedMembers(e.negative, removed, i);
        if i < removed {
          assert i in e.negative;
        } else {
          assert i + 1 in e.negative;
        }
      }
      if |e'.positive| > 0 {
        assert e'.positive[0] in e'.positive;
      }
      if |e'.negative| > 0 {
        assert e'.negative[0] in e'.negative;
      }
    }
  }

  class BaseSolver {
    /** The formula being solved; the modifiable solvers own it and change it only through this class. */
    const formula: Formula
    /** Entry v - 1 describes variable v. */
    var variableIndex: seq<VariableIndexEntry>
    /** Watcher i watches clause i of the formula. */
    var watchers: seq<Watcher>
    const assignment: Assignment
    const trail: DecisionTrail
    var pending: seq<PendingAssignment>
    var interruptRequested: bool
    var currentStatus: SolverStatus
    /** No solve has started yet, so PreSolve may skip the reset. */
    var freshSolver: bool

    /** Top on a trail the variable count covers: the top entry, nothing discarded. */
    method PeekTop() returns (top: Wrappers.Option<Entry>)
      requires Valid()
      modifies trail
      ensures Valid() && trail.entries == old(trail.entries) && trail.level == old(trail.level)
      ensures top == if trail.entries == [] then Wrappers.None else Wrappers.Some(trail.entries[|trail.entries| - 1])
    {
      TrimmedIdentity(trail.entries, |trail.varIndex|);
      top := trail.Top();
    }

    /** Pop on a non-empty trail the variable count covers: exactly the top entry goes. */
    method PopTop()
      requires Valid() && trail.entries != []
      modifies trail
      ensures Valid()
      ensures var n := |old(trail.entries)|;
        && trail.entries == old(trail.entries)[..n - 1]
        && trail.level == TopLevel(trail.entries)
    {
      TrimmedIdentity(trail.entries, |trail.varIndex|);
      trail.Pop();
    }

    /** Builds a watcher and the index entries for every clause of the formula, nothing assigned. */
    constructor (formula: Formula)
      requires formula.Valid()
      ensures Valid() && this.formula == formula
      ensures assignment.slots == Cleared(formula.numOfVariables) && trail.entries == [] && trail.level == 0
      ensures pending == [] && freshSolver && !interruptRequested && currentStatus == Unknown
      ensures forall j :: 0 <= j < |watchers| ==> watchers[j].Canonical(assignment.slots)
      ensures fresh(assignment) && fresh(trail) && forall j :: 0 <= j < |watchers| ==> fresh(watchers[j])
    {
      var n := formula.numOfVariables;
      var ws: seq<Watcher> := [];
      var index := seq(n, _ => EmptyEntry);
      ghost var slots := Cleared(n);
      var i := 0;
      while i < |formula.clauses|
        invariant 0 <= i <= |formula.clauses| && |ws| == i && |index| == n
        invariant forall j, k :: 0 <= j < k < i ==> ws[j] != ws[k]
        invariant forall j :: 0 <= j < i ==> fresh(ws[j])
        invariant forall j :: 0 <= j < i ==> ws[j].clause == formula.clauses[j]
        invariant forall j :: 0 <= j < i ==> ws[j].Canonical(slots) && ws[j].Sound(slots) && ws[j].Settled(slots)
        invariant IndexMatches(index, formula.clauses[..i])
      {
        var c := formula.clauses[i];
        var w := new Watcher(c);
        InitialIsCanonical(c, slots);
        CanonicalIsSoundAndSettled(c, slots, w.status, w.first, w.second);
        ws := ws + [w];
        var extended := UpdateClauseIndex(index, i, c);
        IndexAppend(index, extended, formula.clauses[..i], c);
        assert formula.clauses[..i] + [c] == formula.clauses[..i + 1];
        index := extended;
        i := i + 1;
      }
      assert formula.clauses[..i] == formula.clauses;
      this.formula := formula;
      variableIndex := index;
      watchers := ws;
      assignment := new Assignment(n);
      trail := new DecisionTrail(n);
      pending := [];
      interruptRequested := false;
      currentStatus := Unknown;
      freshSolver := true;
    }

    ghost function Watched(): set<Watcher>
      reads this
    {
      set j | 0 <= j < |watchers| :: watchers[j]
    }

    /**
     * The index and the watchers describe `clauses`: one distinct watcher per
     * clause, and an index entry per variable that lists exactly its occurrences.
     */
    ghost predicate Structure(clauses: seq<Clause>)
      reads this, assignment
    {
      && |variableIndex| == |assignment.slots|
      && (forall i :: 0 <= i < |clauses| ==> clauses[i].numOfVariables <= |assignment.slots|)
      && |watchers| == |clauses|
      && (forall i, j :: 0 <= i < j < |watchers| ==> watchers[i] != watchers[j])
      && (forall j :: 0 <= j < |watchers| ==> watchers[j].clause == clauses[j])
      && IndexMatches(variableIndex, clauses)
    }

    /** Every watcher is Sound and Settled under `assn`. */
    ghost predicate WatchersHold(assn: seq<VariableAssignment>)
      reads this, Watched()
    {
      forall j :: 0 <= j < |watchers| ==> watchers[j].Sound(assn) && watchers[j].Settled(assn)
    }

    ghost predicate Valid()
      reads this, formula, assignment, trail, Watched()
    {
      && formula.Valid() && trail.Valid()
      && |assignment.slots| == formula.numOfVariables && |trail.varIndex| == formula.numOfVariables
      && Structure(formula.clauses)
      && WatchersHold(assignment.slots)
      && (forall k :: 0 <= k < |pending| ==> pending[k].variable <= formula.numOfVariables)
      && (forall k :: 0 <= k < |trail.entries| ==> trail.entries[k].variable <= formula.numOfVariables)
    }

    /** The positive-occurrence pass of UpdateWatchers. */
    method PositivePass(ghost prev: seq<VariableAssignment>, ghost snap: seq<(ClauseStatus, int, int)>,
                        variable: Var, value: VariableAssignment, positive: seq<nat>)
      requires OneStep(prev, assignment.slots, variable, value) && |snap| == |watchers|
      requires forall i, j :: 0 <= i < j < |watchers| ==> watchers[i] != watchers[j]
      requires forall j :: 0 <= j < |watchers| ==> Covers(watchers[j].clause, assignment.slots)
      requires forall j :: 0 <= j < |watchers| ==>
        SoundState(watchers[j].clause, prev, snap[j].0, snap[j].1, snap[j].2) && SettledState(watchers[j].clause, prev, snap[j].0, snap[j].1, snap[j].2)
      requires forall j :: 0 <= j < |watchers| ==> (watchers[j].status, watchers[j].first, watchers[j].second) == snap[j]
      requires forall j :: j in positive ==> 0 <= j < |watchers| && Make(variable, True) in watchers[j].clause.literals
      modifies Watched()
      ensures forall j :: 0 <= j < |watchers| && j !in positive ==> (watchers[j].status, watchers[j].first, watchers[j].second) == snap[j]
      ensures forall j :: 0 <= j < |watchers| && j in positive ==> PositiveDone(watchers[j], assignment.slots, variable, value)
    {
      ghost var post := assignment.slots;
      for k := 0 to |positive|
        invariant forall j :: 0 <= j < |watchers| && j !in positive[..k] ==>
          (watchers[j].status, watchers[j].first, watchers[j].second) == snap[j]
        invariant forall j :: 0 <= j < |watchers| && j in positive[..k] ==> PositiveDone(watchers[j], post, variable, value)
      {
        var j := positive[k];
        assert j in positive;
        UpdatePositive(watchers[j], prev, assignment.slots, variable, value, j in positive[..k]);
        assert positive[..k + 1] == positive[..k] + [j];
      }
      assert positive[..|positive|] == positive;
    }

    /** The negative-occurrence pass of UpdateWatchers, after the positive one. */
    method NegativePass(ghost prev: seq<VariableAssignment>, ghost snap: seq<(ClauseStatus, int, int)>,
                        variable: Var, value: VariableAssignment, positive: seq<nat>, negative: seq<nat>)
      requires OneStep(prev, assignment.slots, variable, value) && |snap| == |watchers|
      requires forall i, j :: 0 <= i < j < |watchers| ==> watchers[i] != watchers[j]
      requires forall j :: 0 <= j < |watchers| ==> Covers(watchers[j].clause, assignment.slots)
      requires forall j :: 0 <= j < |watchers| ==>
        SoundState(watchers[j].clause, prev, snap[j].0, snap[j].1, snap[j].2) && SettledState(watchers[j].clause, prev, snap[j].0, snap[j].1, snap[j].2)
      requires forall j :: 0 <= j < |watchers| ==> (j in positive <==> Make(variable, True) in watchers[j].clause.literals)
      requires forall j :: j in negative ==> 0 <= j < |watchers| && Make(variable, False) in watchers[j].clause.literals
      requires forall j :: 0 <= j < |watchers| && j !in positive ==> (watchers[j].status, watchers[j].first, watchers[j].second) == snap[j]
      requires forall j :: 0 <= j < |watchers| && j in positive ==> PositiveDone(watchers[j], assignment.slots, variable, value)
      modifies Watched()
      ensures forall j :: 0 <= j < |watchers| && j in negative ==> watchers[j].Sound(assignment.slots) && watchers[j].Settled(assignment.slots)
      ensures forall j :: 0 <= j < |watchers| && j !in negative && j in positive ==> PositiveDone(watchers[j], assignment.slots, variable, value)
      ensures forall j :: 0 <= j < |watchers| && j !in negative && j !in positive ==>
        (watchers[j].status, watchers[j].first, watchers[j].second) == snap[j]
    {
      ghost var post := assignment.slots;
      for k := 0 to |negative|
        invariant forall j :: 0 <= j < |watchers| && j in negative[..k] ==> watchers[j].Sound(post) && watchers[j].Settled(post)
        invariant forall j :: 0 <= j < |watchers| && j !in negative[..k] && j in positive ==> PositiveDone(watchers[j], post, variable, value)
        invariant forall j :: 0 <= j < |watchers| && j !in negative[..k] && j !in positive ==>
          (watchers[j].status, watchers[j].first, watchers[j].second) == snap[j]
      {
        var j := negative[k];
        assert j in negative;
        UpdateNegative(watchers[j], prev, assignment.slots, variable, value, j in negative[..k], j in positive);
        assert negative[..k + 1] == negative[..k] + [j];
      }
      assert negative[..|negative|] == negative;
    }

    /**
     * UpdateWatchers: brings every watcher of a clause holding `variable` up
     * to date with its new value, positive occurrences first. The watchers
     * were Sound and Settled under `prev`, the assignment before the change.
     */
    method UpdateWatchers(ghost prev: seq<VariableAssignment>, variable: Var, value: VariableAssignment)
      requires formula.Valid() && Structure(formula.clauses) && WatchersHold(prev)
      requires OneStep(prev, assignment.slots, variable, value)
      modifies Watched()
      ensures WatchersHold(assignment.slots)
      ensures forall j :: 0 <= j < |watchers| && !HasVariable(watchers[j].clause, variable) ==>
        (watchers[j].status, watchers[j].first, watchers[j].second) == old((watchers[j].status, watchers[j].first, watchers[j].second))
    {
      ghost var post := assignment.slots;
      ghost var snap := seq(|watchers|, j requires 0 <= j < |watchers| reads this, Watched() =>
                              (watchers[j].status, watchers[j].first, watchers[j].second));
      var entry := variableIndex[variable - 1];
      assert EntryMatches(entry, variable, formula.clauses);
      PositivePass(prev, snap, variable, value, entry.positive);
      NegativePass(prev, snap, variable, value, entry.positive, entry.negative);
      forall j | 0 <= j < |watchers|
        ensures watchers[j].Sound(post) && watchers[j].Settled(post)
      {
        if j !in entry.negative && j !in entry.positive {
          UntouchedAgree(watchers[j].clause, prev, post, variable, value);
          AgreeFrame(watchers[j].clause, prev, post, snap[j].0, snap[j].1, snap[j].2);
        }
      }
    }

    /** Assign: sets the variable and updates the watchers of its clauses. */
    method Assign(variable: Var, value: VariableAssignment)
      requires Valid() && variable <= formula.numOfVariables
      modifies assignment, Watched()
      ensures Valid()
      ensures assignment.slots == old(assignment.slots)[variable - 1 := value]
      ensures forall j :: 0 <= j < |watchers| && !HasVariable(watchers[j].clause, variable) ==>
        (watchers[j].status, watchers[j].first, watchers[j].second) == old((watchers[j].status, watchers[j].first, watchers[j].second))
    {
      ghost var prev := assignment.slots;
      assignment.Put(variable, value);
      UpdateWatchers(prev, variable, value);
    }

    /** The propagation step: assigns the one open literal of Unit clause i, recorded as implied by it. */
    method PropagateUnit(i: nat)
      requires Valid() && i < |watchers| && watchers[i].status == ClauseStatus.Unit
      modifies assignment, trail, Watched()
      ensures Valid() && watchers == old(watchers)
      ensures CountUnassigned(assignment.slots) < old(CountUnassigned(assignment.slots))
      ensures Extension(old(assignment.slots), assignment.slots)
      ensures trail.level == old(trail.level)
      ensures Propagations(old(trail.entries), trail.entries, trail.level, formula.clauses, assignment.slots)
    {
      var w := watchers[i];
      var literal := formula.clauses[i].literals[w.first];
      var (variable, value) := AssignmentOf(literal);
      assert UnassignedAt(w.clause, assignment.slots, w.first);
      AssigningDecreasesCount(assignment.slots, variable - 1, value);
      trail.PropagationFrom(variable, value, i);
      Assign(variable, value);
    }

    /**
     * UnitPropagation: sweeps the watchers, assigning the open literal of
     * the first Unit clause found and starting over, until a sweep finds
     * every clause Satisfied (Sat), an Unsatisfied clause (Unsat) or nothing
     * left to propagate (Pass).
     */
    method UnitPropagation() returns (result: UnitPropagationResult)
      requires Valid()
      modifies assignment, trail, Watched()
      ensures Valid()
      ensures result.Sat? ==> forall i :: 0 <= i < |formula.clauses| ==>
        Covers(formula.clauses[i], assignment.slots) && HasTrueLiteral(formula.clauses[i], assignment.slots)
      ensures result.Unsat? ==> result.clause < |watchers| && watchers[result.clause].status == ClauseStatus.Unsatisfied
      ensures result.Pass? ==> forall i :: 0 <= i < |watchers| ==>
        watchers[i].status == ClauseStatus.Satisfied || watchers[i].status == ClauseStatus.Undecided
      ensures Extension(old(assignment.slots), assignment.slots)
      ensures trail.level == old(trail.level)
      ensures Propagations(old(trail.entries), trail.entries, trail.level, formula.clauses, assignment.slots)
    {
      ghost var slots0 := assignment.slots;
      ghost var entries0 := trail.entries;
      var allSatisfied := false;
      var propagate := true;
      while propagate && !allSatisfied
        invariant Valid()
        invariant propagate ==> !allSatisfied
        invariant allSatisfied ==> forall j :: 0 <= j < |watchers| ==> watchers[j].status == ClauseStatus.Satisfied
        invariant !propagate && !allSatisfied ==> forall j :: 0 <= j < |watchers| ==>
          watchers[j].status == ClauseStatus.Satisfied || watchers[j].status == ClauseStatus.Undecided
        invariant Extension(slots0, assignment.slots)
        invariant trail.level == old(trail.level)
        invariant Propagations(entries0, trail.entries, trail.level, formula.clauses, assignment.slots)
        decreases CountUnassigned(assignment.slots), propagate
      {
        var conflict;
        propagate, allSatisfied, conflict := Sweep(slots0, entries0);
        if conflict >= 0 {
          return Unsat(conflict);
        }
      }
      if allSatisfied {
        SatisfiedFormula();
        result := Sat;
      } else {
        result := Pass;
      }
    }

    /**
     * One sweep of UnitPropagation over the watchers: it stops at the first
     * Unit clause, whose open literal it assigns (`propagate`), or at the
     * first Unsatisfied clause (`conflict`, otherwise -1); `allSatisfied`
     * tells whether every clause seen was Satisfied.
     */
    method Sweep(ghost slots0: seq<VariableAssignment>, ghost entries0: seq<Entry>) returns (propagate: bool, allSatisfied: bool, conflict: int)
      requires Valid() && Extension(slots0, assignment.slots)
      requires Propagations(entries0, trail.entries, trail.level, formula.clauses, assignment.slots)
      modifies assignment, trail, Watched()
      ensures Valid() && Extension(slots0, assignment.slots) && trail.level == old(trail.level)
      ensures Propagations(entries0, trail.entries, trail.level, formula.clauses, assignment.slots)
      ensures -1 <= conflict < |watchers|
      ensures conflict >= 0 ==> watchers[conflict].status == ClauseStatus.Unsatisfied
      ensures conflict < 0 && propagate ==> !allSatisfied && CountUnassigned(assignment.slots) < old(CountUnassigned(assignment.slots))
      ensures conflict < 0 && !propagate ==> CountUnassigned(assignment.slots) == old(CountUnassigned(assignment.slots))
      ensures conflict < 0 && !propagate && allSatisfied ==> forall j :: 0 <= j < |watchers| ==> watchers[j].status == ClauseStatus.Satisfied
      ensures conflict < 0 && !propagate ==> forall j :: 0 <= j < |watchers| ==>
        watchers[j].status == ClauseStatus.Satisfied || watchers[j].status == ClauseStatus.Undecided
    {
      propagate, allSatisfied, conflict := false, true, -1;
      ghost var count0 := CountUnassigned(assignment.slots);
      var i := 0;
      while !propagate && i < |watchers|
        invariant 0 <= i <= |watchers|
        invariant Valid()
        invariant !propagate ==> CountUnassigned(assignment.slots) == count0
        invariant !propagate ==> (allSatisfied ==> forall j :: 0 <= j < i ==> watchers[j].status == ClauseStatus.Satisfied)
        invariant !propagate ==> forall j :: 0 <= j < i ==>
          watchers[j].status == ClauseStatus.Satisfied || watchers[j].status == ClauseStatus.Undecided
        invariant propagate ==> !allSatisfied && CountUnassigned(assignment.slots) < count0
        invariant Extension(slots0, assignment.slots)
        invariant trail.level == old(trail.level)
        invariant Propagations(entries0, trail.entries, trail.level, formula.clauses, assignment.slots)
      {
        var w := watchers[i];
        var st := w.status;
        allSatisfied := allSatisfied && st == ClauseStatus.Satisfied;
        if st == ClauseStatus.Unit {
          ghost var slots1, entries1 := assignment.slots, trail.entries;
          PropagateUnit(i);
          PropagationsCompose(entries0, entries1, trail.entries, trail.level, formula.clauses, slots1, assignment.slots);
          propagate := true;
        } else if st == ClauseStatus.Unsatisfied {
          conflict := i;
          return;
        }
        i := i + 1;
      }
    }

    /** When every watcher is Satisfied, every clause has a true literal. */
    lemma SatisfiedFormula()
      requires Valid() && forall j :: 0 <= j < |watchers| ==> watchers[j].status == ClauseStatus.Satisfied
      ensures forall i :: 0 <= i < |formula.clauses| ==>
        Covers(formula.clauses[i], assignment.slots) && HasTrueLiteral(formula.clauses[i], assignment.slots)
    {
      forall i | 0 <= i < |formula.clauses|
        ensures Covers(formula.clauses[i], assignment.slots) && HasTrueLiteral(formula.clauses[i], assignment.slots)
      {
        var w := watchers[i];
        SatisfiedHasTrueLiteral(w.clause, assignment.slots, w.status, w.first, w.second);
      }
    }

    method Interrupt()
      modifies this
      ensures interruptRequested
      ensures watchers == old(watchers) && variableIndex == old(variableIndex) && pending == old(pending)
      ensures currentStatus == old(currentStatus) && freshSolver == old(freshSolver)
    {
      interruptRequested := true;
    }

    /** ResetState: drops the pending assignments, the assignment and the trail, and rescans every watcher. */
    method ResetState()
      requires Valid()
      modifies this, assignment, trail, Watched()
      ensures Valid()
      ensures watchers == old(watchers) && variableIndex == old(variableIndex)
      ensures currentStatus == old(currentStatus) && freshSolver == old(freshSolver) && interruptRequested == old(interruptRequested)
      ensures pending == [] && assignment.slots == Cleared(|old(assignment.slots)|)
      ensures trail.entries == [] && trail.level == 0
      ensures forall j :: 0 <= j < |watchers| ==> watchers[j].Canonical(assignment.slots)
    {
      pending := [];
      assignment.Reset();
      trail.Reset();
      RescanAll();
    }

    /** The loop of ResetState that rescans every watcher against the current assignment. */
    method RescanAll()
      requires Structure(formula.clauses)
      modifies Watched()
      ensures forall j :: 0 <= j < |watchers| ==>
        watchers[j].Canonical(assignment.slots) && watchers[j].Sound(assignment.slots) && watchers[j].Settled(assignment.slots)
    {
      for k := 0 to |watchers|
        invariant forall j :: 0 <= j < k ==>
          watchers[j].Canonical(assignment.slots) && watchers[j].Sound(assignment.slots) && watchers[j].Settled(assignment.slots)
      {
        watchers[k].Rescan(assignment.slots);
      }
    }

    /**
     * PerformPendingAssignment: an assumption is assigned (if unassigned) and
     * recorded at a new level, and fails only against an opposite value; any
     * other pending assignment becomes a decision if the variable is still
     * unassigned and is dropped otherwise.
     */
    method PerformPendingAssignment(variable: Var, value: VariableAssignment, isAssumption: bool) returns (ok: bool)
      requires Valid() && variable <= formula.numOfVariables
      modifies assignment, trail, Watched()
      ensures Valid()
      ensures ok <==> Honoured(PendingAssignment(variable, value, isAssumption), old(assignment.slots))
      ensures var before := old(assignment.slots[variable - 1]);
        if isAssumption && (before == Unassigned || before == value) then
          && assignment.slots == old(assignment.slots)[variable - 1 := value]
          && trail.entries == old(trail.entries) + [Entry(variable, value, ReasonAssumption, old(trail.level) + 1)]
          && trail.level == old(trail.level) + 1
        else if !isAssumption && before == Unassigned then
          && assignment.slots == old(assignment.slots)[variable - 1 := value]
          && trail.entries == old(trail.entries) + [Entry(variable, value, ReasonDecision, old(trail.level) + 1)]
          && trail.level == old(trail.level) + 1
        else
          assignment.slots == old(assignment.slots) && trail.entries == old(trail.entries) && trail.level == old(trail.level)
    {
      var current := assignment.slots[variable - 1];
      if isAssumption {
        if current == Unassigned {
          Open(variable, value, true);
        } else if current == value {
          trail.Assumption(variable, value);
        } else {
          return false;
        }
      } else if current == Unassigned {
        Open(variable, value, false);
      }
      return true;
    }

    /** Assign, then an assumption or a decision entry opening a new level. */
    method Open(variable: Var, value: VariableAssignment, isAssumption: bool)
      requires Valid() && variable <= formula.numOfVariables
      modifies assignment, trail, Watched()
      ensures Valid()
      ensures assignment.slots == old(assignment.slots)[variable - 1 := value]
      ensures trail.entries == old(trail.entries) + [Entry(variable, value, if isAssumption then ReasonAssumption else ReasonDecision, old(trail.level) + 1)]
      ensures trail.level == old(trail.level) + 1
    {
      Assign(variable, value);
      if isAssumption {
        trail.Assumption(variable, value);
      } else {
        trail.Decision(variable, value);
      }
    }

    /**
     * VerifyPendingAssignments over pending[from..]: false, with the literal
     * of the first contradicted assumption as the conflict, if some assumption
     * is not honoured; otherwise true and the conflict stays `previous`.
     */
    method VerifyPendingAssignments(from: nat, previous: Literal) returns (ok: bool, conflict: Literal)
      requires Valid() && from <= |pending|
      ensures ok <==> forall k :: from <= k < |pending| ==> Honoured(pending[k], assignment.slots)
      ensures ok ==> conflict == previous
      ensures !ok ==> exists k :: from <= k < |pending| && !Honoured(pending[k], assignment.slots)
                        && conflict == Make(pending[k].variable, pending[k].value)
                        && forall m :: from <= m < k ==> Honoured(pending[m], assignment.slots)
    {
      conflict := previous;
      var k := from;
      while k < |pending|
        invariant from <= k <= |pending|
        invariant forall m :: from <= m < k ==> Honoured(pending[m], assignment.slots)
      {
        var p := pending[k];
        var current := assignment.slots[p.variable - 1];
        if p.isAssumption && current != Unassigned && current != p.value {
          conflict := Make(p.variable, p.value);
          return false, conflict;
        }
        k := k + 1;
      }
      return true, conflict;
    }

    /** SaveAssumptions: queues every assumption literal, in order, as an enforced pending assignment. */
    method SaveAssumptions(assumptions: seq<Literal>)
      requires Valid() && forall k :: 0 <= k < |assumptions| ==> Variable(assumptions[k]) <= formula.numOfVariables
      modifies this
      ensures Valid()
      ensures watchers == old(watchers) && variableIndex == old(variableIndex)
      ensures currentStatus == old(currentStatus) && freshSolver == old(freshSolver) && interruptRequested == old(interruptRequested)
      ensures |pending| == |old(pending)| + |assumptions| && pending[..|old(pending)|] == old(pending)
      ensures forall k :: 0 <= k < |assumptions| ==> Enforces(pending[|old(pending)| + k], assumptions[k])
    {
      ghost var added: seq<PendingAssignment> := [];
      for k := 0 to |assumptions|
        invariant Valid()
        invariant pending == old(pending) + added && |added| == k
        invariant forall m :: 0 <= m < k ==> Enforces(added[m], assumptions[m])
        invariant watchers == old(watchers) && variableIndex == old(variableIndex)
        invariant currentStatus == old(currentStatus) && freshSolver == old(freshSolver) && interruptRequested == old(interruptRequested)
      {
        var (variable, value) := AssignmentOf(assumptions[k]);
        added := added + [PendingAssignment(variable, value, true)];
        pending := pending + [PendingAssignment(variable, value, true)];
      }
      assert forall k :: 0 <= k < |assumptions| ==> pending[|old(pending)| + k] == added[k];
    }

    /**
     * ScanPureLiterals: for every unassigned variable, in increasing order,
     * that has not occurred with both signs, a non-enforced assignment to the
     * value its polarity allows (True when it never occurred). The opposite
     * literal occurs in no clause of the formula.
     */
    method ScanPureLiterals() returns (found: seq<PendingAssignment>)
      requires |variableIndex| == |assignment.slots| == formula.numOfVariables
      requires IndexMatches(variableIndex, formula.clauses)
      ensures forall k :: 0 <= k < |found| ==> PureAssignment(found[k], assignment.slots, formula.clauses)
      ensures forall k, m :: 0 <= k < m < |found| ==> found[k].variable < found[m].variable
      ensures forall i :: 0 <= i < |variableIndex| ==>
        (Candidate(variableIndex[i], assignment.slots[i]) ==> i + 1 in Variables(found))
    {
      found := [];
      var variable: Var := 1;
      while variable <= formula.numOfVariables
        invariant 1 <= variable <= formula.numOfVariables + 1
        invariant forall k :: 0 <= k < |found| ==> PureAssignment(found[k], assignment.slots, formula.clauses)
        invariant forall k :: 0 <= k < |found| ==> found[k].variable < variable
        invariant forall k, m :: 0 <= k < m < |found| ==> found[k].variable < found[m].variable
        invariant forall i :: 0 <= i < variable - 1 ==>
          (Candidate(variableIndex[i], assignment.slots[i]) ==> i + 1 in Variables(found))
      {
        var pure, p := PureOf(variable);
        if pure {
          VariablesAppend(found, p);
          found := found + [p];
        }
        variable := variable + 1;
      }
    }

    /**
     * The assignment ScanPureLiterals emits for one variable, if any: True
     * for PurePositive or None, False for PureNegative, when unassigned.
     */
    method PureOf(variable: Var) returns (pure: bool, p: PendingAssignment)
      requires |variableIndex| == |assignment.slots| == formula.numOfVariables
      requires IndexMatches(variableIndex, formula.clauses) && variable <= formula.numOfVariables
      ensures pure <==> Candidate(variableIndex[variable - 1], assignment.slots[variable - 1])
      ensures pure ==> p.variable == variable && PureAssignment(p, assignment.slots, formula.clauses)
    {
      var entry := variableIndex[variable - 1];
      assert EntryMatches(entry, variable, formula.clauses);
      pure, p := false, PendingAssignment(variable, True, false);
      if assignment.slots[variable - 1] == Unassigned {
        match entry.polarity
        case PurePositive | None =>
          assert |entry.negative| == 0;
          pure := true;
        case PureNegative =>
          assert |entry.positive| == 0;
          pure, p := true, PendingAssignment(variable, False, false);
        case Mixed =>
      }
    }

    /** PreSolve: resets the state unless nothing was solved yet, then marks the solver Solving. */
    method PreSolve()
      requires Valid()
      modifies this, assignment, trail, Watched()
      ensures Valid() && !freshSolver && !interruptRequested && currentStatus == Solving
      ensures watchers == old(watchers) && variableIndex == old(variableIndex)
      ensures old(freshSolver) ==> pending == old(pending) && assignment.slots == old(assignment.slots)
                                   && trail.entries == old(trail.entries) && trail.level == old(trail.level)
      ensures !old(freshSolver) ==> pending == [] && assignment.slots == Cleared(|old(assignment.slots)|)
                                    && trail.entries == [] && trail.level == 0
    {
      if !freshSolver {
        ResetState();
      }
      freshSolver := false;
      interruptRequested := false;
      currentStatus := Solving;
    }

    /**
     * The first half of AttachClause: the assignment, the trail and the index
     * grow to n variables, the new ones unassigned and unindexed.
     */
    method GrowTo(n: nat, clauses: seq<Clause>)
      requires trail.Valid() && |assignment.slots| == |trail.varIndex| <= n
      requires Structure(clauses) && WatchersHold(assignment.slots)
      modifies this`variableIndex, assignment, trail
      ensures trail.Valid() && |assignment.slots| == |trail.varIndex| == n
      ensures Structure(clauses) && WatchersHold(assignment.slots)
      ensures assignment.slots == Resized(old(assignment.slots), n)
      ensures trail.entries == old(trail.entries) && trail.level == old(trail.level)
    {
      ghost var before := assignment.slots;
      assignment.SetNumOfVariables(n);
      trail.SetNumOfVariables(n);
      if n > |variableIndex| {
        IndexGrow(variableIndex, clauses, n - |variableIndex|);
        variableIndex := variableIndex + seq(n - |variableIndex|, _ => EmptyEntry);
      }
      forall j | 0 <= j < |watchers|
        ensures watchers[j].Sound(assignment.slots) && watchers[j].Settled(assignment.slots)
      {
        var w := watchers[j];
        AgreeFrame(w.clause, before, assignment.slots, w.status, w.first, w.second);
      }
    }

    /**
     * AttachClause for the clause the formula has just appended at position
     * `clauseIndex`: the assignment, the trail and the index grow to the
     * formula's variable count, and a watcher for the clause is rescanned
     * against the current assignment.
     */
    method AttachClause(clauseIndex: nat, c: Clause)
      requires formula.Valid() && trail.Valid()
      requires clauseIndex + 1 == |formula.clauses| && c == formula.clauses[clauseIndex]
      requires |assignment.slots| == |trail.varIndex| <= formula.numOfVariables
      requires Structure(formula.clauses[..clauseIndex]) && WatchersHold(assignment.slots)
      requires forall k :: 0 <= k < |pending| ==> pending[k].variable <= formula.numOfVariables
      requires forall k :: 0 <= k < |trail.entries| ==> trail.entries[k].variable <= |trail.varIndex|
      modifies this, assignment, trail
      ensures Valid()
      ensures |watchers| == clauseIndex + 1 && watchers[..clauseIndex] == old(watchers) && fresh(watchers[clauseIndex])
      ensures watchers[clauseIndex].Canonical(assignment.slots)
      ensures assignment.slots == Resized(old(assignment.slots), formula.numOfVariables)
      ensures trail.entries == old(trail.entries) && trail.level == old(trail.level)
      ensures pending == old(pending) && currentStatus == ResetCurrentStatus(old(currentStatus))
      ensures freshSolver == old(freshSolver) && interruptRequested == old(interruptRequested)
    {
      currentStatus := ResetCurrentStatus(currentStatus);
      var clauses := formula.clauses[..clauseIndex];
      GrowTo(formula.numOfVariables, clauses);
      ghost var slots, entries, level := assignment.slots, trail.entries, trail.level;
      InsertWatcher(clauses, c);
      assert slots == assignment.slots && entries == trail.entries && level == trail.level;
      assert clauses + [c] == formula.clauses;
    }

    /**
     * The second half of AttachClause: a watcher for the clause appended
     * after `clauses`, rescanned against the current assignment, and the
     * clause's literals recorded in the index.
     */
    method InsertWatcher(clauses: seq<Clause>, c: Clause)
      requires Structure(clauses) && WatchersHold(assignment.slots) && c.numOfVariables <= |assignment.slots|
      modifies this`watchers, this`variableIndex
      ensures Structure(clauses + [c]) && WatchersHold(assignment.slots)
      ensures |watchers| == |old(watchers)| + 1 && watchers[..|old(watchers)|] == old(watchers) && fresh(watchers[|old(watchers)|])
      ensures watchers[|old(watchers)|].Canonical(assignment.slots)
    {
      var w := new Watcher(c);
      w.Rescan(assignment.slots);
      watchers := watchers + [w];
      var extended := UpdateClauseIndex(variableIndex, |clauses|, c);
      IndexAppend(variableIndex, extended, clauses, c);
      variableIndex := extended;
    }

    /** ModifiableSolverBase::AppendClause: appends the clause to the owned formula and attaches it. */
    method AppendClause(c: Clause)
      requires Valid()
      modifies this, formula, assignment, trail
      ensures Valid()
      ensures formula.clauses == old(formula.clauses) + [c]
      ensures formula.numOfVariables == if c.numOfVariables > old(formula.numOfVariables) then c.numOfVariables else old(formula.numOfVariables)
      ensures |watchers| == |old(watchers)| + 1 && watchers[..|old(watchers)|] == old(watchers) && fresh(watchers[|old(watchers)|])
      ensures watchers[|old(watchers)|].Canonical(assignment.slots)
      ensures assignment.slots == Resized(old(assignment.slots), formula.numOfVariables)
      ensures trail.entries == old(trail.entries) && trail.level == old(trail.level)
      ensures pending == old(pending) && currentStatus == ResetCurrentStatus(old(currentStatus))
      ensures freshSolver == old(freshSolver) && interruptRequested == old(interruptRequested)
    {
      formula.AppendClause(c);
      assert formula.clauses[..|formula.clauses| - 1] == old(formula.clauses);
      AttachClause(|formula.clauses| - 1, c);
    }

    /**
     * DetachClause for clause `index`, before the formula drops it: the index
     * forgets the clause and renumbers the later ones, and its watcher goes.
     * The formula's variable count has not changed yet, so the assignment,
     * the trail and the index keep their sizes.
     */
    method DetachClause(index: nat)
      requires Valid() && index < |formula.clauses|
      modifies this
      ensures Structure(old(formula.clauses)[..index] + old(formula.clauses)[index + 1..]) && WatchersHold(assignment.slots)
      ensures watchers == old(watchers)[..index] + old(watchers)[index + 1..]
      ensures pending == old(pending) && currentStatus == ResetCurrentStatus(old(currentStatus))
      ensures freshSolver == old(freshSolver) && interruptRequested == old(interruptRequested)
    {
      currentStatus := ResetCurrentStatus(currentStatus);
      ghost var index0 := variableIndex;
      for v := 0 to |variableIndex|
        invariant |variableIndex| == |index0|
        invariant forall u :: 0 <= u < v ==>
          variableIndex[u] == index0[u].(positive := Renumbered(index0[u].positive, index), negative := Renumbered(index0[u].negative, index))
        invariant forall u :: v <= u < |variableIndex| ==> variableIndex[u] == index0[u]
        invariant watchers == old(watchers) && pending == old(pending) && currentStatus == ResetCurrentStatus(old(currentStatus))
        invariant freshSolver == old(freshSolver) && interruptRequested == old(interruptRequested)
      {
        var entry := variableIndex[v];
        variableIndex := variableIndex[v := entry.(positive := Renumbered(entry.positive, index),
                                                    negative := Renumbered(entry.negative, index))];
      }
      IndexRemove(index0, variableIndex, formula.clauses, index);
      watchers := watchers[..index] + watchers[index + 1..];
      assert forall j :: 0 <= j < |watchers| ==> watchers[j] == old(watchers)[if j < index then j else j + 1];
    }

    /** ModifiableSolverBase::RemoveClause: detaches clause `index`, then drops it from the owned formula. */
    method RemoveClause(index: nat)
      requires Valid() && index < |formula.clauses|
      modifies this, formula
      ensures Valid()
      ensures formula.clauses == old(formula.clauses)[..index] + old(formula.clauses)[index + 1..]
      ensures formula.numOfVariables == old(formula.numOfVariables)
      ensures watchers == old(watchers)[..index] + old(watchers)[index + 1..]
      ensures pending == old(pending) && currentStatus == ResetCurrentStatus(old(currentStatus))
      ensures freshSolver == old(freshSolver) && interruptRequested == old(interruptRequested)
    {
      DetachClause(index);
      var _ := formula.RemoveClause(index);
    }
  }
}
