/**
 * CdclSolver: conflict-driven clause learning on top of the shared solver
 * state (source/CdclSolver.cpp, headers/pjos/CdclSolver.h).
 *
 * The EVSIDS activity heuristic is replaced by a choice of any unassigned
 * variable; the learned-clause callback is the log `learned`; the interrupt
 * callback answers true from its `budget`-th call on. The debug-build
 * assertions of conflict analysis rest on invariants of the implication
 * graph that this model does not carry: where one of them would fire, the
 * model stops with an explicit `aborted` outcome instead.
 */
module Cdcl {
  import opened Core
  import Wrappers
  import opened Literals
  import opened Clauses
  import opened Formulas
  import opened Assignments
  import opened Trails
  import opened Watchers
  import opened Allocators
  import opened BaseSolvers

  /** CdclSolver::Parameters; both are on by default. */
  datatype Parameters = Parameters(pureLiteralElimination: bool, phaseSaving: bool)

  const DefaultParameters := Parameters(true, true)

  /** AnalysisTrackState: the marks conflict analysis puts on variables. */
  datatype TrackState = Untracked | Pending | Processed

  /** The literal a learned clause gets for a trail entry: false exactly while the entry's value holds. */
  function Opposing(e: Entry): Literal
  {
    Make(e.variable, FlipVariableAssignment(e.assignment))
  }

  /** The literal a final conflict gets for a trail entry: the assumption as it was made. */
  function Asserted(e: Entry): Literal
  {
    Make(e.variable, e.assignment)
  }

  /** The number of variables marked `s`. */
  function Count(track: seq<TrackState>, s: TrackState): nat
  {
    if track == [] then 0
    else Count(track[..|track| - 1], s) + (if track[|track| - 1] == s then 1 else 0)
  }

  /** Re-marking one variable moves it from one count to the other. */
  lemma {:induction false} CountUpdate(track: seq<TrackState>, i: nat, s: TrackState, x: TrackState)
    requires i < |track|
    ensures Count(track[i := s], x) + (if track[i] == x then 1 else 0) == Count(track, x) + (if s == x then 1 else 0)
    decreases |track|
  {
    var n := |track|;
    var t := track[i := s];
    if i == n - 1 {
      assert t[..n - 1] == track[..n - 1];
    } else {
      assert t[..n - 1] == track[..n - 1][i := s];
      CountUpdate(track[..n - 1], i, s, x);
    }
  }

  /** A decision above `target` whose value Backjump saves when phase saving is on. */
  predicate Saves(e: Entry, target: nat, enabled: bool)
  {
    enabled && e.reason == ReasonDecision && e.level > target
  }

  /**
   * The saved phases after Backjump pops `entries` (bottom to top, popped
   * from the top): every popped decision above the target records its value.
   */
  function SavedPhases(phases: seq<VariableAssignment>, entries: seq<Entry>, target: nat, enabled: bool): (r: seq<VariableAssignment>)
    requires forall k :: 0 <= k < |entries| ==> entries[k].variable <= |phases|
    ensures |r| == |phases|
  {
    if entries == [] then phases
    else
      var rest := SavedPhases(phases, entries[1..], target, enabled);
      if Saves(entries[0], target, enabled) then rest[entries[0].variable - 1 := entries[0].assignment] else rest
  }

  /**
   * A variable keeps its saved phase unless a popped decision names it; when
   * one does, the lowest such decision (the one popped last) wins.
   */
  lemma {:induction false} SavedPhasesRecords(phases: seq<VariableAssignment>, entries: seq<Entry>, target: nat, enabled: bool, i: int, k: int)
    requires forall m :: 0 <= m < |entries| ==> entries[m].variable <= |phases|
    requires 0 <= i < |phases|
    ensures (forall m :: 0 <= m < |entries| && entries[m].variable == i + 1 ==> !Saves(entries[m], target, enabled)) ==>
              SavedPhases(phases, entries, target, enabled)[i] == phases[i]
    ensures (&& 0 <= k < |entries| && entries[k].variable == i + 1 && Saves(entries[k], target, enabled)
             && forall m :: 0 <= m < k && entries[m].variable == i + 1 ==> !Saves(entries[m], target, enabled)) ==>
              SavedPhases(phases, entries, target, enabled)[i] == entries[k].assignment
    decreases |entries|
  {
    if entries != [] {
      var tail := entries[1..];
      assert forall m :: 0 <= m < |tail| ==> tail[m] == entries[m + 1];
      SavedPhasesRecords(phases, tail, target, enabled, i, k - 1);
    }
  }

  /** The bookkeeping of one round of the Backjump loop, for the entry at position n - 1. */
  lemma BackjumpAdvance(es: seq<Entry>, slots: seq<VariableAssignment>, phases: seq<VariableAssignment>, n: nat, target: nat, enabled: bool)
    requires 0 < n <= |es| && |phases| == |slots| && forall k :: 0 <= k < |es| ==> es[k].variable <= |slots|
    ensures Unassigning(slots, es[n - 1..]) == Unassigning(slots, es[n..])[es[n - 1].variable - 1 := Unassigned]
    ensures SavedPhases(phases, es[n - 1..], target, enabled) ==
      var rest := SavedPhases(phases, es[n..], target, enabled);
      if Saves(es[n - 1], target, enabled) then rest[es[n - 1].variable - 1 := es[n - 1].assignment] else rest
  {
    UnassigningStep(slots, es, n);
    assert es[n - 1..][1..] == es[n..];
  }

  /** The value a decision on a variable takes: its saved phase when phase saving has one, else True. */
  function ChosenPhase(saved: VariableAssignment, phaseSaving: bool): (a: VariableAssignment)
    ensures a != Unassigned
    ensures phaseSaving && saved != Unassigned ==> a == saved
  {
    if phaseSaving && saved != Unassigned then saved else True
  }

  /** Every clause-propagated entry names a clause of the formula. */
  ghost predicate ReasonsIn(entries: seq<Entry>, clauses: seq<Clause>)
  {
    forall k :: 0 <= k < |entries| && IsPropagatedFromClause(entries[k].reason) ==> entries[k].reason < |clauses|
  }

  /** Every assumption on the trail is at a level no higher than `bound`. */
  ghost predicate AssumptionsUpTo(entries: seq<Entry>, bound: nat)
  {
    forall k :: 0 <= k < |entries| && entries[k].reason == ReasonAssumption ==> entries[k].level <= bound
  }

  /** The assumptions come first among the pending assignments. */
  predicate AssumptionsFirst(pending: seq<PendingAssignment>)
  {
    forall i, j :: 0 <= i < j < |pending| && pending[j].isAssumption ==> pending[i].isAssumption
  }

  /** l is the learned literal of an entry below the conflict level, at most `bj`. */
  ghost predicate Below(l: Literal, entries: seq<Entry>, level: nat, bj: nat)
  {
    exists e :: e in entries && l == Opposing(e) && e.level < level && e.level <= bj
  }

  /** `bj` is 0 or the level of an entry whose learned literal is in `lits`. */
  ghost predicate Attained(lits: set<Literal>, entries: seq<Entry>, bj: nat)
  {
    bj == 0 || exists e :: e in entries && e.level == bj && Opposing(e) in lits
  }

  /**
   * A literal of the final conflict is the value of a trail entry that is an
   * assumption, or, for a failed assumption, of an entry on a variable of the seed.
   */
  ghost predicate Blamed(l: Literal, entries: seq<Entry>, seed: seq<Literal>, assumptionClause: bool)
  {
    exists e :: e in entries && l == Asserted(e) &&
      (e.reason == ReasonAssumption || (assumptionClause && exists j :: 0 <= j < |seed| && Variable(seed[j]) == e.variable))
  }

  /** A track with no `x` mark counts none. */
  lemma {:induction false} CountAbsent(track: seq<TrackState>, x: TrackState)
    requires forall i :: 0 <= i < |track| ==> track[i] != x
    ensures Count(track, x) == 0
  {
    if track != [] {
      CountAbsent(track[..|track| - 1], x);
    }
  }

  /** Literals a reason clause contributes are assumption values, which are blamed whatever the seed. */
  lemma BlamedFromReason(es: seq<Entry>, before: set<Literal>, after: set<Literal>, lits: seq<Literal>, seed: seq<Literal>, assumptionClause: bool)
    requires forall l :: l in after && l !in before ==> Blamed(l, es, lits, false)
    ensures forall l :: l in after && l !in before ==> Blamed(l, es, seed, assumptionClause)
  {
  }

  /**
   * The solving loop's bookkeeping on values: `next` pending assignments
   * done, `nA` of them assumptions, which sit at the lowest nA levels; while
   * an assumption is still to come no level above them is open.
   */
  ghost predicate Progress(entries: seq<Entry>, level: nat, clauses: seq<Clause>, pending: seq<PendingAssignment>, nA: nat, next: nat)
  {
    && next <= |pending|
    && ReasonsIn(entries, clauses)
    && AssumptionsUpTo(entries, nA)
    && AssumptionsFirst(pending)
    && (next < |pending| && pending[next].isAssumption ==> level <= nA)
  }

  /** Appending a clause keeps the bookkeeping. */
  lemma ProgressAppend(entries: seq<Entry>, level: nat, clauses: seq<Clause>, c: Clause, pending: seq<PendingAssignment>, nA: nat, next: nat)
    requires Progress(entries, level, clauses, pending, nA, next)
    ensures Progress(entries, level, clauses + [c], pending, nA, next)
  {
  }

  /**
   * Performing the pending assignment at `next` keeps the bookkeeping: an
   * assumption opens level at most nA + 1, anything else opens a decision
   * level or changes nothing.
   */
  lemma ProgressPerform(entries: seq<Entry>, level: nat, clauses: seq<Clause>, pending: seq<PendingAssignment>, nA: nat, next: nat,
                        entries': seq<Entry>, level': nat)
    requires Progress(entries, level, clauses, pending, nA, next) && next < |pending|
    requires var p := pending[next];
      || (entries' == entries && level' == level)
      || (entries' == entries + [Entry(p.variable, p.value, if p.isAssumption then ReasonAssumption else ReasonDecision, level + 1)]
          && level' == level + 1)
    ensures Progress(entries', level', clauses, pending, if pending[next].isAssumption then nA + 1 else nA, next + 1)
  {
  }

  /**
   * The clauses `c` are the clauses `c0` followed by the clauses logged in
   * `log` since it was `log0`.
   */
  ghost predicate Logged(c0: seq<Clause>, log0: seq<Clause>, c: seq<Clause>, log: seq<Clause>)
  {
    |log| >= |log0| && log[..|log0|] == log0 && c == c0 + log[|log0|..]
  }

  lemma LoggedTrans(c0: seq<Clause>, log0: seq<Clause>, c1: seq<Clause>, log1: seq<Clause>, c2: seq<Clause>, log2: seq<Clause>)
    requires Logged(c0, log0, c1, log1) && Logged(c1, log1, c2, log2)
    ensures Logged(c0, log0, c2, log2)
  {
    assert log2[|log0|..] == log1[|log0|..] + log2[|log1|..] by {
      assert log2[..|log1|] == log1;
    }
  }

  /** A decision keeps the bookkeeping once every pending assignment is performed. */
  lemma ProgressDecide(entries: seq<Entry>, clauses: seq<Clause>, pending: seq<PendingAssignment>, nA: nat, next: nat, entries': seq<Entry>)
    requires Progress(entries, TopLevel(entries), clauses, pending, nA, next) && next == |pending|
    requires entries' == entries || exists e: Entry :: e.reason == ReasonDecision && entries' == entries + [e]
    ensures Progress(entries', TopLevel(entries'), clauses, pending, nA, next)
  {
  }

  /** Assumptions up to one level are up to any higher one. */
  lemma AssumptionsBelow(entries: seq<Entry>, bound: nat, higher: nat)
    requires AssumptionsUpTo(entries, bound) && bound <= higher
    ensures AssumptionsUpTo(entries, higher)
  {
  }

  /** Propagations at the top level keep it the top level. */
  lemma PropagationsKeepTop(before: seq<Entry>, after: seq<Entry>, level: nat, clauses: seq<Clause>, assn: seq<VariableAssignment>)
    requires level == TopLevel(before) && Propagations(before, after, level, clauses, assn)
    ensures level == TopLevel(after)
  {
    if |after| > |before| {
      assert after[|after| - 1].level == level;
    } else {
      assert after == after[..|before|];
    }
  }

  /**
   * A literal of the final conflict is the value of an assumption on the
   * trail, or of an entry on the variable of a pending assumption.
   */
  ghost predicate Responsible(l: Literal, entries: seq<Entry>, pending: seq<PendingAssignment>)
  {
    exists e :: e in entries && l == Asserted(e) &&
      (e.reason == ReasonAssumption || exists k :: 0 <= k < |pending| && pending[k].isAssumption && pending[k].variable == e.variable)
  }

  /**
   * A clause learned at `level` with backjump level `bj`: it holds the
   * opposing literal of an entry at `level` (the UIP), every other literal
   * opposes an entry below `level` and no higher than `bj`, and one of them
   * sits exactly at `bj` unless `bj` is the level just below.
   */
  ghost predicate Learned(clause: Clause, es: seq<Entry>, level: nat, bj: nat)
  {
    && (exists k :: && 0 <= k < |es| && es[k].level == level && HasLiteral(clause, Opposing(es[k]))
                    && forall l :: HasLiteral(clause, l) && l != Opposing(es[k]) ==> Below(l, es, level, bj))
    && (bj + 1 == level || exists e :: e in es && e.level == bj && HasLiteral(clause, Opposing(e)))
  }

  /**
   * The learned clause of AnalyzeConflict: the opposing literal of the UIP,
   * at the conflict level, and literals of lower entries at most the
   * backjump level, which one of them attains unless it is the level just
   * below the conflict.
   */
  lemma LearnedShape(es: seq<Entry>, level: nat, idx: int, lits: set<Literal>, bj0: nat, bj: nat, clause: Clause)
    requires 0 <= idx < |es| && es[idx].level == level && 0 < level && bj0 < level
    requires forall l :: l in lits ==> Below(l, es, level, bj0)
    requires Attained(lits, es, bj0)
    requires bj == if bj0 == 0 then level - 1 else bj0
    requires forall l :: HasLiteral(clause, l) <==> l in lits + {Opposing(es[idx])}
    ensures bj < level && Learned(clause, es, level, bj)
  {
    forall l | HasLiteral(clause, l) && l != Opposing(es[idx])
      ensures Below(l, es, level, bj)
    {
      var e :| e in es && l == Opposing(e) && e.level < level && e.level <= bj0;
    }
  }

  class CdclSolver {
    const base: BaseSolver
    var parameters: Parameters
    /** Entry v - 1 marks variable v during conflict analysis. */
    var analysisTrack: seq<TrackState>
    const learnedClause: ClauseBuilder
    const savedPhases: Assignment
    const allocator: LiteralStackAllocator
    var finalConflict: set<Literal>
    /** Every clause handed to the learned-clause callback, in order. */
    var learned: seq<Clause>

    /** Everything but the emptiness of the builders between analyses. */
    ghost predicate Consistent()
      reads this, base, base.formula, base.assignment, base.trail, base.Watched(), learnedClause, savedPhases, allocator
    {
      && base.Valid()
      && base.trail.level == TopLevel(base.trail.entries)
      && (base.freshSolver ==> base.trail.entries == [] && base.pending == [])
      && savedPhases != base.assignment
      && |analysisTrack| == base.formula.numOfVariables
      && |savedPhases.slots| == base.formula.numOfVariables
      && learnedClause.Valid() && allocator.Valid()
    }

    ghost predicate Valid()
      reads this, base, base.formula, base.assignment, base.trail, base.Watched(), learnedClause, savedPhases, allocator
    {
      Consistent() && learnedClause.literals == {} && finalConflict == {}
    }

    constructor (formula: Formula)
      requires formula.Valid()
      ensures Valid() && base.formula == formula && fresh(base) && fresh(learnedClause)
      ensures base.assignment.slots == Cleared(formula.numOfVariables) && base.trail.entries == []
      ensures savedPhases.slots == Cleared(formula.numOfVariables)
      ensures analysisTrack == seq(formula.numOfVariables, _ => Untracked)
      ensures parameters == DefaultParameters && learned == []
    {
      base := new BaseSolver(formula);
      parameters := DefaultParameters;
      analysisTrack := seq(formula.numOfVariables, _ => Untracked);
      learnedClause := new ClauseBuilder();
      savedPhases := new Assignment(formula.numOfVariables);
      allocator := new LiteralStackAllocator(DefaultChunkSize);
      finalConflict := {};
      learned := [];
    }

    /**
     * Backjump(target): pops and unassigns every entry above the target
     * level, saving the values of the popped decisions when phase saving is
     * on. The trail cannot run out first (a positive level means a
     * non-empty trail), so the source's failure result is never produced,
     * and no assumption is popped: every assumption sits at or below the
     * target, which discharges the debug assertion on the popped reason.
     */
    method Backjump(target: nat)
      requires Consistent() && AssumptionsUpTo(base.trail.entries, target)
      modifies base.assignment, base.trail, base.Watched(), savedPhases
      ensures Consistent()
      ensures var es := old(base.trail.entries); var m := |base.trail.entries|;
        && m <= |es| && base.trail.entries == es[..m]
        && (forall k :: 0 <= k < m ==> es[k].level <= target)
        && (forall k :: m <= k < |es| ==> es[k].level > target)
        && base.assignment.slots == Unassigning(old(base.assignment.slots), es[m..])
        && savedPhases.slots == SavedPhases(old(savedPhases.slots), es[m..], target, parameters.phaseSaving)
      ensures base.trail.level <= target
    {
      ghost var es := base.trail.entries;
      ghost var slots := base.assignment.slots;
      ghost var phases := savedPhases.slots;
      ghost var m: nat := |es|;
      while base.trail.level > target
        invariant Consistent() && AssumptionsUpTo(base.trail.entries, target)
        invariant BackjumpState(target, es, slots, phases, m)
        decreases m
      {
        m := PopRound(target, es, slots, phases, m);
      }
    }

    /** What the Backjump loop keeps: the trail is es[..m], and the entries above m have been undone. */
    ghost predicate BackjumpState(target: nat, es: seq<Entry>, slots: seq<VariableAssignment>, phases: seq<VariableAssignment>, m: nat)
      reads this, base, base.trail, base.assignment, savedPhases
    {
      && m <= |es| && base.trail.entries == es[..m]
      && (forall k :: 0 <= k < |es| ==> es[k].variable <= |slots|)
      && |phases| == |slots|
      && (forall k :: m <= k < |es| ==> es[k].level > target)
      && base.assignment.slots == Unassigning(slots, es[m..])
      && savedPhases.slots == SavedPhases(phases, es[m..], target, parameters.phaseSaving)
    }

    /** A round of the Backjump loop with its bookkeeping: one more entry of es is undone. */
    method PopRound(target: nat, ghost es: seq<Entry>, ghost slots: seq<VariableAssignment>, ghost phases: seq<VariableAssignment>, ghost m: nat)
      returns (ghost m': nat)
      requires Consistent() && AssumptionsUpTo(base.trail.entries, target) && base.trail.level > target
      requires BackjumpState(target, es, slots, phases, m)
      modifies base.assignment, base.trail, base.Watched(), savedPhases
      ensures Consistent() && AssumptionsUpTo(base.trail.entries, target)
      ensures BackjumpState(target, es, slots, phases, m') && m' < m
    {
      PopAbove(target);
      BackjumpAdvance(es, slots, phases, m, target, parameters.phaseSaving);
      m' := m - 1;
    }

    /** One round of the Backjump loop: the top entry, above the target, is popped and unassigned. */
    method PopAbove(target: nat)
      requires Consistent() && AssumptionsUpTo(base.trail.entries, target) && base.trail.level > target
      modifies base.assignment, base.trail, base.Watched(), savedPhases
      ensures Consistent() && AssumptionsUpTo(base.trail.entries, target)
      ensures var n := |old(base.trail.entries)|;
        && n > 0 && base.trail.entries == old(base.trail.entries)[..n - 1]
        && var e := old(base.trail.entries)[n - 1];
        && e.level > target
        && base.assignment.slots == old(base.assignment.slots)[e.variable - 1 := Unassigned]
        && savedPhases.slots == if Saves(e, target, parameters.phaseSaving)
                                then old(savedPhases.slots)[e.variable - 1 := e.assignment]
                                else old(savedPhases.slots)
    {
      var top := base.PeekTop();
      var e := top.value;
      assert e.reason != ReasonAssumption;
      SavePhase(e, target);
      UnassignTop(e);
    }

    /** The phase-saving step of Backjump for the popped entry e. */
    method SavePhase(e: Entry, target: nat)
      requires e.variable <= |savedPhases.slots|
      modifies savedPhases
      ensures savedPhases.slots == if Saves(e, target, parameters.phaseSaving)
                                   then old(savedPhases.slots)[e.variable - 1 := e.assignment]
                                   else old(savedPhases.slots)
    {
      if parameters.phaseSaving && e.reason == ReasonDecision && e.level > target {
        savedPhases.Put(e.variable, e.assignment);
      }
    }

    /** Unassigns the variable of the top entry e, then pops it. */
    method UnassignTop(e: Entry)
      requires Consistent() && base.trail.entries != [] && e == base.trail.entries[|base.trail.entries| - 1]
      modifies base.assignment, base.trail, base.Watched()
      ensures Consistent()
      ensures var n := |old(base.trail.entries)|;
        && base.trail.entries == old(base.trail.entries)[..n - 1]
        && base.assignment.slots == old(base.assignment.slots)[e.variable - 1 := Unassigned]
    {
      base.Assign(e.variable, Unassigned);
      base.PopTop();
    }

    /**
     * The trail search of conflict analysis: from position idx downwards, the
     * first entry whose variable is marked Pending. Reaching the bottom
     * without one is where the debug build asserts.
     */
    method FindPending(idx: int) returns (found: bool, j: int)
      requires 0 <= idx < |base.trail.entries|
      requires forall k :: 0 <= k < |base.trail.entries| ==> base.trail.entries[k].variable <= |analysisTrack|
      ensures found ==> 0 <= j <= idx && analysisTrack[base.trail.entries[j].variable - 1] == Pending
      ensures found ==> forall k :: j < k <= idx ==> analysisTrack[base.trail.entries[k].variable - 1] != Pending
      ensures !found ==> forall k :: 0 <= k <= idx ==> analysisTrack[base.trail.entries[k].variable - 1] != Pending
    {
      j := idx;
      while analysisTrack[base.trail.entries[j].variable - 1] != Pending
        invariant 0 <= j <= idx
        invariant forall k :: j < k <= idx ==> analysisTrack[base.trail.entries[k].variable - 1] != Pending
        decreases j
      {
        if j == 0 {
          return false, j;
        }
        j := j - 1;
      }
      found := true;
    }

    /**
     * The clause scan of AnalyzeConflict: every untracked variable of the
     * clause is looked up on the trail; one assigned at the current level is
     * marked Pending and adds a path, one assigned below goes into the
     * learned clause as its opposing literal and may raise the backjump
     * level. A variable with no trail entry is where the debug build asserts.
     */
    method ScanConflictClause(lits: seq<Literal>, paths: nat, bj: nat) returns (ok: bool, outPaths: nat, outBj: nat)
      requires base.trail.Valid() && Learning(base.trail.entries, base.trail.level, bj)
      requires forall k :: 0 <= k < |lits| ==> Variable(lits[k]) <= |analysisTrack|
      modifies this`analysisTrack, learnedClause
      ensures learnedClause.Valid() && |analysisTrack| == |old(analysisTrack)| && old(learnedClause.literals) <= learnedClause.literals
      ensures forall i :: 0 <= i < |analysisTrack| && old(analysisTrack)[i] != Untracked ==> analysisTrack[i] == old(analysisTrack)[i]
      ensures ok ==> outPaths >= paths && bj <= outBj && Learning(base.trail.entries, base.trail.level, outBj)
    {
      ghost var es, level, track0 := base.trail.entries, base.trail.level, analysisTrack;
      outPaths, outBj := paths, bj;
      for k := 0 to |lits|
        invariant |analysisTrack| == |track0| && old(learnedClause.literals) <= learnedClause.literals
        invariant forall i :: 0 <= i < |track0| && track0[i] != Untracked ==> analysisTrack[i] == track0[i]
        invariant outPaths >= paths && bj <= outBj && Learning(es, level, outBj)
      {
        ok, outPaths, outBj := ScanVariable(Variable(lits[k]), outPaths, outBj, es, level);
        if !ok {
          return;
        }
      }
      ok := true;
    }

    /** The learned literals so far oppose entries below `level`, at most `bj`, one of which attains `bj`. */
    ghost predicate Learning(es: seq<Entry>, level: nat, bj: nat)
      reads learnedClause
    {
      && learnedClause.Valid() && bj < level
      && (forall l :: l in learnedClause.literals ==> Below(l, es, level, bj))
      && Attained(learnedClause.literals, es, bj)
    }

    /** One variable of the clause scan. */
    method ScanVariable(variable: Var, paths: nat, bj: nat, ghost es: seq<Entry>, ghost level: nat) returns (ok: bool, outPaths: nat, outBj: nat)
      requires base.trail.Valid() && base.trail.entries == es && base.trail.level == level
      requires variable <= |analysisTrack| && Learning(es, level, bj)
      modifies this`analysisTrack, learnedClause
      ensures learnedClause.Valid() && |analysisTrack| == |old(analysisTrack)| && old(learnedClause.literals) <= learnedClause.literals
      ensures forall i :: 0 <= i < |analysisTrack| && old(analysisTrack)[i] != Untracked ==> analysisTrack[i] == old(analysisTrack)[i]
      ensures ok ==> outPaths >= paths && bj <= outBj && Learning(es, level, outBj)
    {
      outPaths, outBj := paths, bj;
      if analysisTrack[variable - 1] != Untracked {
        return true, outPaths, outBj;
      }
      var entry := base.trail.Find(variable);
      if entry.None? {
        return false, outPaths, outBj;
      }
      if entry.value.level >= base.trail.level {
        analysisTrack := analysisTrack[variable - 1 := Pending];
        outPaths := outPaths + 1;
      } else {
        learnedClause.Add(Opposing(entry.value));
        outBj := if entry.value.level > outBj then entry.value.level else outBj;
      }
      ok := true;
    }

    /**
     * AnalyzeConflict: first-UIP learning. Walking the trail down from the
     * top, it resolves away the current-level assignments of the conflict
     * until one path is left; the learned clause is the opposing literal of
     * that entry (the UIP, at the current level) plus the opposing literals
     * of the lower-level entries met on the way, and the backjump level is
     * the highest of their levels, or the level just below the current one
     * when that highest level is 0. `ok` is false where a debug assertion
     * of the source would fire.
     */
    method AnalyzeConflict(conflict: nat) returns (ok: bool, clause: Clause, backjumpLevel: nat)
      requires Valid() && base.trail.level > 0 && conflict < |base.formula.clauses|
      requires ReasonsIn(base.trail.entries, base.formula.clauses)
      modifies this`analysisTrack, learnedClause, allocator
      ensures Consistent()
      ensures ok ==> Valid()
      ensures ok ==> backjumpLevel < base.trail.level && Learned(clause, base.trail.entries, base.trail.level, backjumpLevel)
    {
      ok, clause, backjumpLevel := FirstUip(conflict);
    }

    /**
     * The work of AnalyzeConflict, which changes only the analysis state:
     * the track is reset, the conflict resolved down to the UIP and the
     * clause learned.
     */
    method FirstUip(conflict: nat) returns (ok: bool, clause: Clause, backjumpLevel: nat)
      requires base.trail.Valid() && learnedClause.Valid() && allocator.Valid() && base.trail.level > 0
      requires base.trail.level == TopLevel(base.trail.entries)
      requires conflict < |base.formula.clauses| && ReasonsIn(base.trail.entries, base.formula.clauses)
      requires forall i :: 0 <= i < |base.formula.clauses| ==> base.formula.clauses[i].numOfVariables <= |analysisTrack|
      requires forall k :: 0 <= k < |base.trail.entries| ==> base.trail.entries[k].variable <= |analysisTrack|
      requires learnedClause.literals == {}
      modifies this`analysisTrack, learnedClause, allocator
      ensures learnedClause.Valid() && allocator.Valid() && |analysisTrack| == |old(analysisTrack)|
      ensures ok ==> learnedClause.literals == {} && backjumpLevel < base.trail.level
      ensures ok ==> Learned(clause, base.trail.entries, base.trail.level, backjumpLevel)
    {
      analysisTrack := seq(|analysisTrack|, _ => Untracked);
      var resolved, idx, bj := ResolveToUip(conflict);
      if !resolved {
        return false, ClauseData([], 0), 0;
      }
      ok, clause, backjumpLevel := LearnClause(base.trail.entries[idx], base.trail.level, bj, base.trail.entries, idx);
    }

    /**
     * The end of AnalyzeConflict: the opposing literal of the UIP joins the
     * learned clause, a backjump level of 0 becomes the level just below the
     * UIP's, and the clause is made in the allocator. `ok` is false where
     * the source asserts that the UIP lies on the current, positive level.
     */
    method LearnClause(uip: Entry, level: nat, bj: nat, ghost es: seq<Entry>, ghost idx: int) returns (ok: bool, clause: Clause, backjumpLevel: nat)
      requires allocator.Valid() && 0 <= idx < |es| && uip == es[idx] && Learning(es, level, bj)
      modifies learnedClause, allocator
      ensures learnedClause.Valid() && allocator.Valid()
      ensures ok ==> learnedClause.literals == {} && backjumpLevel < level && Learned(clause, es, level, backjumpLevel)
    {
      ghost var lits := learnedClause.literals;
      learnedClause.Add(Opposing(uip));
      if uip.level == 0 || uip.level != level {
        return false, ClauseData([], 0), 0;
      }
      backjumpLevel := if bj == 0 then uip.level - 1 else bj;
      clause := learnedClause.MakeIn(allocator);
      LearnedShape(es, level, idx, lits, bj, backjumpLevel, clause);
      ok := true;
    }

    /**
     * The resolution loop of AnalyzeConflict, from the conflict clause down
     * the trail until one path is left: the entry at `idx` is the UIP.
     */
    method ResolveToUip(conflict: nat) returns (ok: bool, idx: int, bj: nat)
      requires base.trail.Valid() && learnedClause.Valid() && base.trail.level > 0
      requires base.trail.level == TopLevel(base.trail.entries)
      requires conflict < |base.formula.clauses| && ReasonsIn(base.trail.entries, base.formula.clauses)
      requires forall i :: 0 <= i < |base.formula.clauses| ==> base.formula.clauses[i].numOfVariables <= |analysisTrack|
      requires forall k :: 0 <= k < |base.trail.entries| ==> base.trail.entries[k].variable <= |analysisTrack|
      requires learnedClause.literals == {}
      modifies this`analysisTrack, learnedClause
      ensures learnedClause.Valid() && |analysisTrack| == |old(analysisTrack)|
      ensures ok ==> 0 <= idx < |base.trail.entries| && Learning(base.trail.entries, base.trail.level, bj)
    {
      var current := base.formula.clauses[conflict];
      idx := |base.trail.entries| - 1;
      var paths: nat := 1;
      bj := 0;
      var first := true;
      ghost var n, es, level := |analysisTrack|, base.trail.entries, base.trail.level;
      while true
        modifies this`analysisTrack, learnedClause
        invariant ResolveState(es, level, n, current, idx, bj, first) && paths >= 1
        decreases idx + (if first then 1 else 0)
      {
        var done;
        ok, done, current, idx, paths, bj := ResolveRound(current, idx, paths, bj, first, es, level, n);
        if !ok || done {
          return;
        }
        first := false;
      }
    }

    /**
     * What the resolution loop keeps: the learned literals oppose lower
     * entries, one of which attains bj; the clause being resolved has
     * variables in range; and after the first round the entry at idx has
     * been processed.
     */
    ghost predicate ResolveState(es: seq<Entry>, level: nat, n: nat, current: Clause, idx: int, bj: nat, first: bool)
      reads this, learnedClause
    {
      && |analysisTrack| == n && 0 <= idx < |es| && Learning(es, level, bj)
      && (forall k :: 0 <= k < |current.literals| ==> Variable(current.literals[k]) <= n)
      && (!first ==> es[idx].variable <= n && analysisTrack[es[idx].variable - 1] == Processed)
    }

    /**
     * One round of the resolution loop: scan the current clause, take the
     * next Pending entry below idx as processed, and continue with its
     * reason clause; `done` when one path is left.
     */
    method ResolveRound(current: Clause, idx: int, paths: nat, bj: nat, first: bool, ghost es: seq<Entry>, ghost level: nat, ghost n: nat)
      returns (ok: bool, done: bool, current': Clause, idx': int, paths': nat, bj': nat)
      requires base.trail.Valid() && base.trail.entries == es && base.trail.level == level && ReasonsIn(es, base.formula.clauses)
      requires forall i :: 0 <= i < |base.formula.clauses| ==> base.formula.clauses[i].numOfVariables <= n
      requires forall k :: 0 <= k < |es| ==> es[k].variable <= n
      requires ResolveState(es, level, n, current, idx, bj, first) && paths >= 1
      modifies this`analysisTrack, learnedClause
      ensures learnedClause.Valid() && |analysisTrack| == n
      ensures ok ==> ResolveState(es, level, n, current', idx', bj', false)
      ensures ok && !done ==> paths' >= 1 && idx' < idx + (if first then 1 else 0)
    {
      var scanned;
      scanned, paths', bj' := ScanConflictClause(current.literals, paths, bj);
      if !scanned {
        return false, false, current, idx, paths, bj;
      }
      assert !first ==> analysisTrack[es[idx].variable - 1] != Pending;
      paths' := paths' - 1;
      var found;
      found, idx' := FindPending(idx);
      if !found {
        return false, false, current, idx, paths, bj;
      }
      assert idx' < idx + (if first then 1 else 0);
      var e := base.trail.entries[idx'];
      analysisTrack := analysisTrack[e.variable - 1 := Processed];
      current' := current;
      if IsPropagatedFromClause(e.reason) {
        current' := base.formula.clauses[e.reason];
      } else if paths' != 1 {
        return false, false, current, idx, paths, bj;
      }
      ok, done := true, paths' <= 1;
    }

    /**
     * MarkClauseForFinalConflictAnalysis: every untracked variable of the
     * clause is looked up on the trail; a clause-propagated one is marked
     * Pending and counted (unless the clause is the failed assumption
     * itself), and an assumption, or any variable of a failed assumption,
     * puts the value of its entry into the final conflict. A variable with no
     * trail entry is where the debug build asserts.
     */
    method MarkClause(lits: seq<Literal>, assumptionClause: bool) returns (ok: bool, count: nat)
      requires base.trail.Valid()
      requires forall k :: 0 <= k < |lits| ==> Variable(lits[k]) <= |analysisTrack|
      modifies this`analysisTrack, this`finalConflict
      ensures |analysisTrack| == |old(analysisTrack)|
      ensures forall i :: 0 <= i < |analysisTrack| ==>
        analysisTrack[i] == old(analysisTrack)[i] || (old(analysisTrack)[i] == Untracked && analysisTrack[i] == Pending)
      ensures Count(analysisTrack, Pending) == Count(old(analysisTrack), Pending) + count
      ensures Count(analysisTrack, Untracked) + count == Count(old(analysisTrack), Untracked)
      ensures count > 0 ==> base.trail.entries != []
      ensures old(finalConflict) <= finalConflict
      ensures forall l :: l in finalConflict && l !in old(finalConflict) ==> Blamed(l, base.trail.entries, lits, assumptionClause)
    {
      ghost var track0, es := analysisTrack, base.trail.entries;
      count := 0;
      for k := 0 to |lits|
        invariant |analysisTrack| == |track0|
        invariant forall i :: 0 <= i < |track0| ==> analysisTrack[i] == track0[i] || (track0[i] == Untracked && analysisTrack[i] == Pending)
        invariant Count(analysisTrack, Pending) == Count(track0, Pending) + count
        invariant Count(analysisTrack, Untracked) + count == Count(track0, Untracked)
        invariant count > 0 ==> es != []
        invariant old(finalConflict) <= finalConflict
        invariant forall l :: l in finalConflict && l !in old(finalConflict) ==> Blamed(l, es, lits, assumptionClause)
      {
        var variable := Variable(lits[k]);
        if analysisTrack[variable - 1] != Untracked {
          continue;
        }
        var entry := base.trail.Find(variable);
        if entry.None? {
          return false, count;
        }
        var e := entry.value;
        if IsPropagatedFromClause(e.reason) && !assumptionClause {
          CountUpdate(analysisTrack, variable as nat - 1, Pending, Pending);
          CountUpdate(analysisTrack, variable as nat - 1, Pending, Untracked);
          analysisTrack := analysisTrack[variable - 1 := Pending];
          count := count + 1;
        } else if e.reason == ReasonAssumption || assumptionClause {
          assert Blamed(Asserted(e), es, lits, assumptionClause) by {
            assert Variable(lits[k]) == e.variable;
          }
          finalConflict := finalConflict + {Asserted(e)};
        }
      }
      ok := true;
    }

    /**
     * AnalyzeFinalConflict: from the seed clause, walks the trail down
     * through the reasons of clause-propagated entries, and collects into
     * the final conflict the values of the assumptions met on the way (and,
     * for a failed assumption, of the entries on its variables). `ok` is
     * false where a debug assertion of the source would fire.
     */
    method AnalyzeFinalConflict(seed: seq<Literal>, assumptionClause: bool) returns (ok: bool)
      requires base.trail.Valid() && ReasonsIn(base.trail.entries, base.formula.clauses)
      requires forall i :: 0 <= i < |base.formula.clauses| ==> base.formula.clauses[i].numOfVariables <= |analysisTrack|
      requires forall k :: 0 <= k < |base.trail.entries| ==> base.trail.entries[k].variable <= |analysisTrack|
      requires forall k :: 0 <= k < |seed| ==> Variable(seed[k]) <= |analysisTrack|
      modifies this`analysisTrack, this`finalConflict
      ensures |analysisTrack| == |old(analysisTrack)|
      ensures old(finalConflict) <= finalConflict
      ensures forall l :: l in finalConflict && l !in old(finalConflict) ==> Blamed(l, base.trail.entries, seed, assumptionClause)
      ensures ok ==> Count(analysisTrack, Pending) == 0
    {
      ghost var es, n := base.trail.entries, |analysisTrack|;
      analysisTrack := seq(|analysisTrack|, _ => Untracked);
      CountAbsent(analysisTrack, Pending);
      var pending;
      ok, pending := MarkClause(seed, assumptionClause);
      if !ok {
        return;
      }
      var idx := |base.trail.entries| - 1;
      while pending > 0
        invariant |analysisTrack| == n && pending == Count(analysisTrack, Pending)
        invariant pending > 0 ==> 0 <= idx < |es|
        invariant old(finalConflict) <= finalConflict
        invariant forall l :: l in finalConflict && l !in old(finalConflict) ==> Blamed(l, es, seed, assumptionClause)
        decreases Count(analysisTrack, Untracked), pending
      {
        var marked;
        ok, idx, marked := ProcessPending(idx, seed, assumptionClause);
        if !ok {
          return;
        }
        pending := pending - 1 + marked;
      }
      ok := true;
    }

    /**
     * One round of final-conflict analysis: the next Pending entry at or
     * below idx is processed; its reason clause is marked, or, for an
     * assumption, its value joins the final conflict.
     */
    method ProcessPending(idx: int, ghost seed: seq<Literal>, ghost assumptionClause: bool) returns (ok: bool, idx': int, marked: nat)
      requires base.trail.Valid() && ReasonsIn(base.trail.entries, base.formula.clauses) && 0 <= idx < |base.trail.entries|
      requires forall i :: 0 <= i < |base.formula.clauses| ==> base.formula.clauses[i].numOfVariables <= |analysisTrack|
      requires forall k :: 0 <= k < |base.trail.entries| ==> base.trail.entries[k].variable <= |analysisTrack|
      modifies this`analysisTrack, this`finalConflict
      ensures |analysisTrack| == |old(analysisTrack)| && old(finalConflict) <= finalConflict
      ensures forall l :: l in finalConflict && l !in old(finalConflict) ==> Blamed(l, base.trail.entries, seed, assumptionClause)
      ensures ok ==> 0 <= idx' < |base.trail.entries|
      ensures ok ==> Count(analysisTrack, Pending) + 1 == Count(old(analysisTrack), Pending) + marked
      ensures ok ==> Count(analysisTrack, Untracked) + marked == Count(old(analysisTrack), Untracked)
    {
      var found;
      found, idx' := FindPending(idx);
      if !found {
        return false, idx', 0;
      }
      var e := base.trail.entries[idx'];
      CountUpdate(analysisTrack, e.variable as nat - 1, Processed, Pending);
      CountUpdate(analysisTrack, e.variable as nat - 1, Processed, Untracked);
      analysisTrack := analysisTrack[e.variable - 1 := Processed];
      marked := 0;
      if IsPropagatedFromClause(e.reason) {
        ghost var before := finalConflict;
        ok, marked := MarkClause(base.formula.clauses[e.reason].literals, false);
        BlamedFromReason(base.trail.entries, before, finalConflict, base.formula.clauses[e.reason].literals, seed, assumptionClause);
        if !ok {
          return;
        }
      } else if e.reason == ReasonAssumption {
        finalConflict := finalConflict + {Asserted(e)};
      }
      ok := true;
    }

    /**
     * The variable the next decision is on: some unassigned variable, or 0
     * (the terminator) when every variable is assigned. The EVSIDS activity
     * order among the unassigned variables is not modelled.
     */
    method PopVariable() returns (variable: nat)
      ensures variable <= |base.assignment.slots|
      ensures variable > 0 ==> base.assignment.slots[variable - 1] == Unassigned
      ensures variable == 0 ==> forall u :: 0 <= u < |base.assignment.slots| ==> base.assignment.slots[u] != Unassigned
    {
      if u :| 0 <= u < |base.assignment.slots| && base.assignment.slots[u] == Unassigned {
        variable := u + 1;
      } else {
        variable := 0;
      }
    }

    /**
     * The decision branch of SolveImpl: the popped variable is decided on
     * its saved phase when phase saving has one, else on True, opening a new
     * level. `variable` is 0, and nothing changes, where the source asserts
     * that an unassigned variable exists.
     */
    method Decide() returns (variable: nat)
      requires Consistent() && !base.freshSolver
      modifies base.assignment, base.trail, base.Watched()
      ensures Consistent()
      ensures variable <= |old(base.assignment.slots)|
      ensures variable == 0 <==> forall u :: 0 <= u < |old(base.assignment.slots)| ==> old(base.assignment.slots)[u] != Unassigned
      ensures variable > 0 ==>
        var a := ChosenPhase(savedPhases.slots[variable - 1], parameters.phaseSaving);
        && old(base.assignment.slots)[variable - 1] == Unassigned
        && base.assignment.slots == old(base.assignment.slots)[variable - 1 := a]
        && base.trail.entries == old(base.trail.entries) + [Entry(variable, a, ReasonDecision, old(base.trail.level) + 1)]
      ensures variable == 0 ==> base.assignment.slots == old(base.assignment.slots) && base.trail.entries == old(base.trail.entries)
    {
      variable := PopVariable();
      if variable == 0 {
        return;
      }
      var value := if parameters.phaseSaving && savedPhases.Get(variable) != Unassigned then savedPhases.Get(variable) else True;
      Branch(variable, value);
    }

    /** trail.Decision then Assign: the decision opens a new level. */
    method Branch(variable: Var, value: VariableAssignment)
      requires base.Valid() && base.trail.level == TopLevel(base.trail.entries) && variable <= base.formula.numOfVariables
      modifies base.assignment, base.trail, base.Watched()
      ensures base.Valid() && base.trail.level == TopLevel(base.trail.entries)
      ensures base.assignment.slots == old(base.assignment.slots)[variable - 1 := value]
      ensures base.trail.entries == old(base.trail.entries) + [Entry(variable, value, ReasonDecision, old(base.trail.level) + 1)]
    {
      base.trail.Decision(variable, value);
      base.Assign(variable, value);
    }

    /**
     * AppendClause: the base solver attaches the clause, then the analysis
     * track grows with Untracked marks and the saved phases are resized to
     * the new variable count.
     */
    method AppendClause(c: Clause)
      requires Consistent()
      modifies this, base, base.formula, base.assignment, base.trail, savedPhases
      ensures Consistent()
      ensures base.formula.clauses == old(base.formula.clauses) + [c]
      ensures |base.watchers| == |old(base.watchers)| + 1 && base.watchers[..|old(base.watchers)|] == old(base.watchers)
      ensures forall w :: w in base.Watched() ==> w in old(base.Watched()) || fresh(w)
      ensures base.trail.entries == old(base.trail.entries) && base.pending == old(base.pending)
      ensures base.freshSolver == old(base.freshSolver) && base.interruptRequested == old(base.interruptRequested)
      ensures base.assignment.slots == Resized(old(base.assignment.slots), base.formula.numOfVariables)
      ensures base.formula.numOfVariables >= old(base.formula.numOfVariables)
      ensures analysisTrack == old(analysisTrack) + seq(base.formula.numOfVariables - |old(analysisTrack)|, _ => Untracked)
      ensures savedPhases.slots == Resized(old(savedPhases.slots), base.formula.numOfVariables)
      ensures parameters == old(parameters) && finalConflict == old(finalConflict) && learned == old(learned)
    {
      base.AppendClause(c);
      Attached();
    }

    /** The CDCL part of AttachClause, once the base solver has attached the clause. */
    method Attached()
      requires base.Valid() && |analysisTrack| <= base.formula.numOfVariables
      modifies this, savedPhases
      ensures analysisTrack == old(analysisTrack) + seq(base.formula.numOfVariables - |old(analysisTrack)|, _ => Untracked)
      ensures savedPhases.slots == Resized(old(savedPhases.slots), base.formula.numOfVariables)
      ensures parameters == old(parameters) && finalConflict == old(finalConflict) && learned == old(learned)
    {
      if base.formula.numOfVariables > |analysisTrack| {
        analysisTrack := analysisTrack + seq(base.formula.numOfVariables - |analysisTrack|, _ => Untracked);
      }
      savedPhases.SetNumOfVariables(base.formula.numOfVariables);
    }

    /**
     * RemoveClause: the base solver detaches and removes the clause, and the
     * saved phases are resized to the variable count, which removal never
     * lowers. The source's trimming of the analysis track is guarded by a
     * count below the track's length, so it never takes effect and is not
     * modelled.
     */
    method RemoveClause(index: nat)
      requires Consistent() && index < |base.formula.clauses|
      modifies base, base.formula, savedPhases
      ensures Consistent()
      ensures base.formula.clauses == old(base.formula.clauses)[..index] + old(base.formula.clauses)[index + 1..]
      ensures base.pending == old(base.pending) && base.freshSolver == old(base.freshSolver)
      ensures savedPhases.slots == old(savedPhases.slots)
    {
      base.RemoveClause(index);
      savedPhases.SetNumOfVariables(base.formula.numOfVariables);
    }

    /**
     * What SolveImpl keeps between rounds, with `nA` assumptions performed
     * and the pending assignments before `next` done: the assumptions sit at
     * the lowest nA levels, and while an assumption is still to come no
     * level above them has been opened.
     */
    ghost predicate Solving(nA: nat, next: nat)
      reads this, base, base.formula, base.assignment, base.trail, base.Watched(), learnedClause, savedPhases, allocator
    {
      && Valid() && !base.freshSolver
      && Progress(base.trail.entries, base.trail.level, base.formula.clauses, base.pending, nA, next)
    }

    /** UnitPropagation within SolveImpl. */
    method Propagate(ghost nA: nat, ghost next: nat) returns (result: UnitPropagationResult)
      requires Solving(nA, next)
      modifies base.assignment, base.trail, base.Watched()
      ensures Solving(nA, next)
      ensures result.Sat? ==> forall i :: 0 <= i < |base.formula.clauses| ==>
        Covers(base.formula.clauses[i], base.assignment.slots) && HasTrueLiteral(base.formula.clauses[i], base.assignment.slots)
      ensures result.Unsat? ==>
        result.clause < |base.formula.clauses| && base.watchers[result.clause].status == ClauseStatus.Unsatisfied
    {
      ghost var es := base.trail.entries;
      result := base.UnitPropagation();
      PropagationsKeepTop(es, base.trail.entries, base.trail.level, base.formula.clauses, base.assignment.slots);
    }

    /**
     * AnalyzeFinalConflict where SolveImpl calls it, and only when asked to:
     * every literal of the final conflict is then a responsible assumption
     * value.
     */
    method FinalStep(seed: seq<Literal>, assumptionClause: bool, analyze: bool) returns (aborted: bool)
      requires Consistent() && finalConflict == {} && ReasonsIn(base.trail.entries, base.formula.clauses)
      requires forall k :: 0 <= k < |seed| ==> Variable(seed[k]) <= base.formula.numOfVariables
      requires assumptionClause ==> forall j :: 0 <= j < |seed| ==>
        exists k :: 0 <= k < |base.pending| && base.pending[k].isAssumption && base.pending[k].variable == Variable(seed[j])
      modifies this`analysisTrack, this`finalConflict
      ensures Consistent()
      ensures analyze ==> forall l :: l in finalConflict ==> Responsible(l, base.trail.entries, base.pending)
      ensures !analyze ==> finalConflict == {} && !aborted
    {
      aborted := false;
      if analyze {
        var ok := AnalyzeFinalConflict(seed, assumptionClause);
        aborted := !ok;
      }
    }

    /**
     * The learning half of the conflict branch: AnalyzeConflict, then the
     * learned clause appended to the formula and handed to the
     * learned-clause callback (the log `learned`).
     */
    method Learn(conflict: nat, ghost nA: nat, ghost next: nat) returns (ok: bool, clause: Clause, backjumpLevel: nat)
      requires Solving(nA, next) && base.trail.level > 0 && conflict < |base.formula.clauses|
      modifies this, base, base.formula, base.assignment, base.trail, savedPhases, learnedClause, allocator
      ensures Consistent() && base.pending == old(base.pending) && !base.freshSolver
      ensures base.interruptRequested == old(base.interruptRequested) && finalConflict == old(finalConflict)
      ensures base.trail.entries == old(base.trail.entries) && base.trail.level == old(base.trail.level)
      ensures |learned| >= |old(learned)| && learned[..|old(learned)|] == old(learned)
      ensures base.formula.clauses == old(base.formula.clauses) + learned[|old(learned)|..]
      ensures |base.watchers| >= |old(base.watchers)| && base.watchers[..|old(base.watchers)|] == old(base.watchers)
      ensures forall w :: w in base.Watched() ==> w in old(base.Watched()) || fresh(w)
      ensures ok ==> Solving(nA, next) && learned == old(learned) + [clause]
      ensures ok ==> backjumpLevel < base.trail.level && Learned(clause, base.trail.entries, base.trail.level, backjumpLevel)
    {
      ok, clause, backjumpLevel := AnalyzeConflict(conflict);
      if !ok {
        return;
      }
      Record(clause, nA, next);
    }

    /** The learned clause is appended to the formula and logged. */
    method Record(clause: Clause, ghost nA: nat, ghost next: nat)
      requires Solving(nA, next)
      modifies this, base, base.formula, base.assignment, base.trail, savedPhases
      ensures Solving(nA, next) && base.pending == old(base.pending)
      ensures base.interruptRequested == old(base.interruptRequested) && finalConflict == old(finalConflict)
      ensures base.trail.entries == old(base.trail.entries) && base.trail.level == old(base.trail.level)
      ensures learned == old(learned) + [clause] && base.formula.clauses == old(base.formula.clauses) + [clause]
      ensures |base.watchers| > |old(base.watchers)| && base.watchers[..|old(base.watchers)|] == old(base.watchers)
      ensures forall w :: w in base.Watched() ==> w in old(base.Watched()) || fresh(w)
    {
      ghost var es, level, clauses, pending := base.trail.entries, base.trail.level, base.formula.clauses, base.pending;
      ProgressAppend(es, level, clauses, clause, pending, nA, next);
      AppendClause(clause);
      learned := learned + [clause];
    }

    /**
     * The conflict branch of SolveImpl: at level 0 the formula is
     * unsatisfiable; otherwise a clause is learned, and a backjump level
     * below the assumptions also means unsatisfiable; else the solver
     * backjumps.
     */
    method ConflictStep(conflict: nat, nA: nat, ghost next: nat, analyze: bool) returns (stop: bool, aborted: bool)
      requires Solving(nA, next) && conflict < |base.formula.clauses|
      requires base.watchers[conflict].status == ClauseStatus.Unsatisfied
      modifies this, base, base.formula, base.assignment, base.trail, base.Watched(), savedPhases, learnedClause, allocator
      ensures Consistent() && base.pending == old(base.pending) && !base.freshSolver
      ensures base.interruptRequested == old(base.interruptRequested)
      ensures |learned| >= |old(learned)| && learned[..|old(learned)|] == old(learned)
      ensures base.formula.clauses == old(base.formula.clauses) + learned[|old(learned)|..]
      ensures forall w :: w in base.Watched() ==> w in old(base.Watched()) || fresh(w)
      ensures !stop ==> !aborted && Solving(nA, next)
      ensures stop && !aborted ==> learnedClause.literals == {}
      ensures stop && !aborted ==> exists i :: 0 <= i < |base.watchers| && base.watchers[i].status == ClauseStatus.Unsatisfied
      ensures stop && analyze ==> forall l :: l in finalConflict ==> Responsible(l, base.trail.entries, base.pending)
      ensures !analyze ==> finalConflict == {}
    {
      if base.trail.level == 0 {
        aborted := FinalStep(base.formula.clauses[conflict].literals, false, analyze);
        return true, aborted;
      }
      var ok, clause, backjumpLevel := Learn(conflict, nA, next);
      if !ok {
        return true, true;
      }
      stop, aborted := JumpOrStop(conflict, nA, next, analyze, backjumpLevel);
    }

    /**
     * The end of the conflict branch: a backjump level below the
     * assumptions means unsatisfiable; otherwise the solver backjumps, which
     * never pops an assumption.
     */
    method JumpOrStop(conflict: nat, nA: nat, ghost next: nat, analyze: bool, backjumpLevel: nat) returns (stop: bool, aborted: bool)
      requires Solving(nA, next) && conflict < |base.formula.clauses| && backjumpLevel < base.trail.level
      requires base.watchers[conflict].status == ClauseStatus.Unsatisfied
      modifies this`analysisTrack, this`finalConflict, base.assignment, base.trail, base.Watched(), savedPhases
      ensures Consistent()
      ensures !stop ==> !aborted && Solving(nA, next)
      ensures stop ==> learnedClause.literals == {}
      ensures stop && !aborted ==> base.watchers[conflict].status == ClauseStatus.Unsatisfied
      ensures stop && analyze ==> forall l :: l in finalConflict ==> Responsible(l, base.trail.entries, base.pending)
      ensures !analyze ==> finalConflict == {}
    {
      if backjumpLevel < nA {
        aborted := FinalStep(base.formula.clauses[conflict].literals, false, analyze);
        return true, aborted;
      }
      AssumptionsBelow(base.trail.entries, nA, backjumpLevel);
      Backjump(backjumpLevel);
      return false, false;
    }

    /**
     * The satisfied branch of SolveImpl: the formula is satisfied, and so is
     * the problem unless a pending assumption still to be performed is
     * contradicted by the assignment, which is then the seed of the final
     * conflict.
     */
    method SatStep(next: nat, analyze: bool, ghost nA: nat) returns (status: SolverStatus)
      requires Solving(nA, next)
      modifies this`analysisTrack, this`finalConflict
      ensures Consistent()
      ensures status == SolverStatus.Satisfied || status == SolverStatus.Unsatisfied || status == Unknown
      ensures status == SolverStatus.Satisfied ==> forall k :: next <= k < |base.pending| ==> Honoured(base.pending[k], base.assignment.slots)
      ensures status == SolverStatus.Satisfied ==> Valid()
      ensures status == SolverStatus.Unsatisfied ==> exists k :: 0 <= k < |base.pending| && !Honoured(base.pending[k], base.assignment.slots)
      ensures status == SolverStatus.Unsatisfied && analyze ==> forall l :: l in finalConflict ==> Responsible(l, base.trail.entries, base.pending)
      ensures !analyze ==> finalConflict == {} && status != Unknown
    {
      var ok, conflict := base.VerifyPendingAssignments(next, 1);
      if ok {
        return SolverStatus.Satisfied;
      }
      var aborted := FinalStep([conflict], true, analyze);
      status := if aborted then Unknown else SolverStatus.Unsatisfied;
    }

    /**
     * The pending-assignment branch of SolveImpl: the next pending
     * assignment is performed; a contradicted assumption is the seed of the
     * final conflict and makes the problem unsatisfiable.
     */
    method PendingStep(next: nat, nA: nat, analyze: bool) returns (stop: bool, aborted: bool, nA': nat)
      requires Solving(nA, next) && next < |base.pending|
      modifies this`analysisTrack, this`finalConflict, base.assignment, base.trail, base.Watched()
      ensures Consistent()
      ensures !stop ==> !aborted && Solving(nA', next + 1)
      ensures !stop ==> nA' == if old(base.pending[next].isAssumption) then nA + 1 else nA
      ensures stop ==> exists k :: 0 <= k < |base.pending| && !Honoured(base.pending[k], base.assignment.slots)
      ensures stop && analyze ==> forall l :: l in finalConflict ==> Responsible(l, base.trail.entries, base.pending)
      ensures !analyze ==> finalConflict == {} && !aborted
    {
      var p := base.pending[next];
      ghost var es, level, clauses, pending := base.trail.entries, base.trail.level, base.formula.clauses, base.pending;
      var ok := base.PerformPendingAssignment(p.variable, p.value, p.isAssumption);
      if !ok {
        aborted := FinalStep([Make(p.variable, p.value)], true, analyze);
        return true, aborted, nA;
      }
      nA' := if p.isAssumption then nA + 1 else nA;
      ProgressPerform(es, level, clauses, pending, nA, next, base.trail.entries, base.trail.level);
      stop, aborted := false, false;
    }

    /** The decision branch of SolveImpl, taken once every pending assignment is performed. */
    method DecideStep(ghost nA: nat, ghost next: nat) returns (variable: nat)
      requires Solving(nA, next) && next == |base.pending|
      modifies base.assignment, base.trail, base.Watched()
      ensures Solving(nA, next)
      ensures variable == 0 <==> forall u :: 0 <= u < |old(base.assignment.slots)| ==> old(base.assignment.slots)[u] != Unassigned
    {
      ghost var es, clauses := base.trail.entries, base.formula.clauses;
      variable := Decide();
      ProgressDecide(es, clauses, base.pending, nA, next, base.trail.entries);
    }

    /**
     * The pure literals found by ScanPureLiterals are queued behind the
     * pending assignments already there, the assumptions.
     */
    method AddPureLiterals()
      requires Valid() && !base.freshSolver && AssumptionsFirst(base.pending)
      modifies base
      ensures Valid() && !base.freshSolver && AssumptionsFirst(base.pending)
      ensures base.interruptRequested == old(base.interruptRequested) && base.watchers == old(base.watchers)
      ensures |base.pending| >= |old(base.pending)| && base.pending[..|old(base.pending)|] == old(base.pending)
      ensures forall k :: |old(base.pending)| <= k < |base.pending| ==>
        PureAssignment(base.pending[k], base.assignment.slots, base.formula.clauses)
    {
      var found := base.ScanPureLiterals();
      base.pending := base.pending + found;
    }

    /**
     * The promise of SolveImpl about its result: Satisfied only when every
     * clause has a true literal; Unsatisfied only with a contradicted
     * pending assumption or a clause whose watcher reports Unsatisfied, and,
     * with `analyze`, a final conflict holding only values of responsible
     * assumptions. `aborted` stands for a failed debug assertion of the
     * source.
     */
    ghost predicate Outcome(status: SolverStatus, aborted: bool, analyze: bool)
      reads this, base, base.formula, base.assignment, base.trail, base.Watched(), learnedClause, savedPhases, allocator
    {
      && Consistent() && !base.freshSolver
      && (status == SolverStatus.Satisfied || status == SolverStatus.Unsatisfied || status == Unknown)
      && (aborted ==> status == Unknown)
      && (status == SolverStatus.Satisfied ==> forall i :: 0 <= i < |base.formula.clauses| ==>
            Covers(base.formula.clauses[i], base.assignment.slots) && HasTrueLiteral(base.formula.clauses[i], base.assignment.slots))
      && (status == SolverStatus.Unsatisfied ==>
            || (exists k :: 0 <= k < |base.pending| && !Honoured(base.pending[k], base.assignment.slots))
            || (exists i :: 0 <= i < |base.watchers| && base.watchers[i].status == ClauseStatus.Unsatisfied))
      && (status == SolverStatus.Unsatisfied && analyze ==>
            forall l :: l in finalConflict ==> Responsible(l, base.trail.entries, base.pending))
      && (!aborted ==> learnedClause.literals == {})
      && (!analyze || (!aborted && status != SolverStatus.Unsatisfied) ==> finalConflict == {})
    }

    /**
     * SolveImpl: the pure literals are queued first when that heuristic is
     * on, then the search runs.
     */
    method SolveImpl(analyze: bool, budget: nat) returns (status: SolverStatus, aborted: bool)
      requires Valid() && !base.freshSolver && base.trail.entries == [] && AssumptionsFirst(base.pending)
      modifies this, base, base.formula, base.assignment, base.trail, base.Watched(), savedPhases, learnedClause, allocator
      ensures Outcome(status, aborted, analyze) && base.interruptRequested == old(base.interruptRequested)
      ensures old(base.interruptRequested) ==> status == Unknown && !aborted
      ensures |base.pending| >= |old(base.pending)| && base.pending[..|old(base.pending)|] == old(base.pending)
      ensures forall k :: |old(base.pending)| <= k < |base.pending| ==> !base.pending[k].isAssumption
      ensures Logged(old(base.formula.clauses), old(learned), base.formula.clauses, learned)
    {
      if parameters.pureLiteralElimination {
        AddPureLiterals();
      }
      status, aborted := Search(analyze, budget);
    }

    /**
     * The loop of SolveImpl: one round per call of the interrupt callback,
     * which answers true from its `budget`-th call on.
     */
    method Search(analyze: bool, budget: nat) returns (status: SolverStatus, aborted: bool)
      requires Solving(0, 0)
      modifies this, base, base.formula, base.assignment, base.trail, base.Watched(), savedPhases, learnedClause, allocator
      ensures Outcome(status, aborted, analyze)
      ensures base.pending == old(base.pending) && base.interruptRequested == old(base.interruptRequested)
      ensures old(base.interruptRequested) ==> status == Unknown && !aborted
      ensures Logged(old(base.formula.clauses), old(learned), base.formula.clauses, learned)
    {
      var next, nA, calls := 0, 0, 0;
      while true
        invariant Solving(nA, next) && base.pending == old(base.pending)
        invariant base.interruptRequested == old(base.interruptRequested)
        invariant Logged(old(base.formula.clauses), old(learned), base.formula.clauses, learned)
        invariant forall w :: w in base.Watched() ==> w in old(base.Watched()) || fresh(w)
        decreases budget - calls
      {
        calls := calls + 1;
        if base.interruptRequested || calls >= budget {
          return Unknown, false;
        }
        ghost var clauses, log := base.formula.clauses, learned;
        var done;
        done, status, aborted, next, nA := Round(analyze, next, nA);
        LoggedTrans(old(base.formula.clauses), old(learned), clauses, log, base.formula.clauses, learned);
        if done {
          return;
        }
      }
    }

    /**
     * One round of the loop of SolveImpl: propagate; a satisfied formula is
     * checked against the pending assumptions still to be performed, a
     * conflict is analysed and backjumped from, otherwise the next pending
     * assignment is performed or, when none is left, a decision is made.
     */
    method Round(analyze: bool, next: nat, nA: nat) returns (done: bool, status: SolverStatus, aborted: bool, next': nat, nA': nat)
      requires Solving(nA, next)
      modifies this, base, base.formula, base.assignment, base.trail, base.Watched(), savedPhases, learnedClause, allocator
      ensures done ==> Outcome(status, aborted, analyze)
      ensures !done ==> Solving(nA', next')
      ensures base.pending == old(base.pending) && base.interruptRequested == old(base.interruptRequested)
      ensures Logged(old(base.formula.clauses), old(learned), base.formula.clauses, learned)
      ensures forall w :: w in base.Watched() ==> w in old(base.Watched()) || fresh(w)
    {
      next', nA' := next, nA;
      var result := Propagate(nA, next);
      if result.Sat? {
        status := SatStep(next, analyze, nA);
        return true, status, status == Unknown, next, nA;
      } else if result.Unsat? {
        var stop;
        stop, aborted := ConflictStep(result.clause, nA, next, analyze);
        status := if aborted then Unknown else SolverStatus.Unsatisfied;
        return stop, status, aborted, next, nA;
      } else if next == |base.pending| {
        var variable := DecideStep(nA, next);
        return variable == 0, Unknown, true, next, nA;
      } else {
        var stop;
        stop, aborted, nA' := PendingStep(next, nA, analyze);
        status := if aborted then Unknown else SolverStatus.Unsatisfied;
        return stop, status, aborted, next + 1, nA';
      }
    }

    /**
     * Solve(assumptions) of the base solver, on the CDCL engine: PreSolve,
     * the assumptions saved as pending assignments, SolveImpl without final
     * conflict analysis, and the result stored as the current status.
     */
    method Solve(assumptions: seq<Literal>, budget: nat) returns (status: SolverStatus, aborted: bool)
      requires Valid()
      requires forall k :: 0 <= k < |assumptions| ==> Variable(assumptions[k]) <= base.formula.numOfVariables
      modifies this, base, base.formula, base.assignment, base.trail, base.Watched(), savedPhases, learnedClause, allocator
      ensures Outcome(status, aborted, false) && base.currentStatus == status
      ensures !aborted ==> Valid()
      ensures |base.pending| >= |assumptions|
      ensures forall k :: 0 <= k < |assumptions| ==> Enforces(base.pending[k], assumptions[k])
      ensures Logged(old(base.formula.clauses), old(learned), base.formula.clauses, learned)
    {
      status, aborted := Run(assumptions, budget, false);
      Conclude(status, aborted, false);
    }

    /**
     * Solve with a final-conflict output: as Solve, but with final conflict
     * analysis; on Unsatisfied the final conflict is handed out and
     * cleared, otherwise nothing is handed out.
     */
    method SolveWithFinalConflict(assumptions: seq<Literal>, budget: nat) returns (status: SolverStatus, aborted: bool, conflict: set<Literal>)
      requires Valid()
      requires forall k :: 0 <= k < |assumptions| ==> Variable(assumptions[k]) <= base.formula.numOfVariables
      modifies this, base, base.formula, base.assignment, base.trail, base.Watched(), savedPhases, learnedClause, allocator
      ensures HandedOut(status, aborted, conflict) && base.currentStatus == status
      ensures |base.pending| >= |assumptions|
      ensures forall k :: 0 <= k < |assumptions| ==> Enforces(base.pending[k], assumptions[k])
      ensures Logged(old(base.formula.clauses), old(learned), base.formula.clauses, learned)
    {
      status, aborted := Run(assumptions, budget, true);
      Conclude(status, aborted, true);
      conflict := HandOut(status, aborted);
    }

    /**
     * The result of a solve with a final-conflict output: each literal
     * handed out is the value on the trail of an assumption, or of a
     * variable an assumption was made about, that the conflict depends on.
     */
    ghost predicate HandedOut(status: SolverStatus, aborted: bool, conflict: set<Literal>)
      reads this, base, base.formula, base.assignment, base.trail, base.Watched(), learnedClause, savedPhases, allocator
    {
      && Consistent()
      && (status == SolverStatus.Satisfied || status == SolverStatus.Unsatisfied || status == Unknown)
      && (aborted ==> status == Unknown)
      && (!aborted ==> Valid())
      && (status == SolverStatus.Satisfied ==> forall i :: 0 <= i < |base.formula.clauses| ==>
            Covers(base.formula.clauses[i], base.assignment.slots) && HasTrueLiteral(base.formula.clauses[i], base.assignment.slots))
      && (status == SolverStatus.Unsatisfied ==>
            || (exists k :: 0 <= k < |base.pending| && !Honoured(base.pending[k], base.assignment.slots))
            || (exists i :: 0 <= i < |base.watchers| && base.watchers[i].status == ClauseStatus.Unsatisfied))
      && (status == SolverStatus.Unsatisfied ==> forall l :: l in conflict ==> Responsible(l, base.trail.entries, base.pending))
      && (status != SolverStatus.Unsatisfied ==> conflict == {})
    }

    /** PreSolve, the assumptions saved as pending assignments, then SolveImpl. */
    method Run(assumptions: seq<Literal>, budget: nat, analyze: bool) returns (status: SolverStatus, aborted: bool)
      requires Valid()
      requires forall k :: 0 <= k < |assumptions| ==> Variable(assumptions[k]) <= base.formula.numOfVariables
      modifies this, base, base.formula, base.assignment, base.trail, base.Watched(), savedPhases, learnedClause, allocator
      ensures Outcome(status, aborted, analyze)
      ensures |base.pending| >= |assumptions|
      ensures forall k :: 0 <= k < |assumptions| ==> Enforces(base.pending[k], assumptions[k])
      ensures Logged(old(base.formula.clauses), old(learned), base.formula.clauses, learned)
    {
      Prepare(assumptions);
      status, aborted := SolveImpl(analyze, budget);
    }

    /** The result is stored as the current status. */
    method Conclude(status: SolverStatus, aborted: bool, analyze: bool)
      requires Outcome(status, aborted, analyze)
      modifies base`currentStatus
      ensures Outcome(status, aborted, analyze) && base.currentStatus == status
    {
      base.currentStatus := status;
    }

    /** On Unsatisfied the final conflict is handed out and cleared. */
    method HandOut(status: SolverStatus, aborted: bool) returns (conflict: set<Literal>)
      requires Outcome(status, aborted, true)
      modifies this`finalConflict
      ensures HandedOut(status, aborted, conflict)
    {
      conflict := {};
      if status == SolverStatus.Unsatisfied {
        conflict := finalConflict;
        finalConflict := {};
      }
    }

    /** PreSolve, then the assumptions saved as pending assignments: the only ones. */
    method Prepare(assumptions: seq<Literal>)
      requires Valid()
      requires forall k :: 0 <= k < |assumptions| ==> Variable(assumptions[k]) <= base.formula.numOfVariables
      modifies base, base.assignment, base.trail, base.Watched()
      ensures Valid() && !base.freshSolver && !base.interruptRequested && base.trail.entries == []
      ensures base.watchers == old(base.watchers)
      ensures |base.pending| == |assumptions| && AssumptionsFirst(base.pending)
      ensures forall k :: 0 <= k < |assumptions| ==> Enforces(base.pending[k], assumptions[k])
    {
      base.PreSolve();
      assert base.pending == [];
      base.SaveAssumptions(assumptions);
      assert forall k :: 0 <= k < |assumptions| ==> Enforces(base.pending[k], assumptions[k]) by {
        assert forall k :: 0 <= k < |assumptions| ==> base.pending[k] == base.pending[0 + k];
      }
    }
  }
}
