/**
 * The text formatters (source/Format.cpp, headers/pjos/Format.h): literals,
 * clauses and formulas in DIMACS form, assignments, solver statuses,
 * comments, and the SAT-competition result lines `s ...` and `v ... 0`.
 * Each stream insertion is modelled as the string it appends; std::endl
 * appends a newline.
 */
module Formats {
  import opened Core
  import opened Wrappers
  import opened Literals
  import opened Clauses
  import opened Text

  /** 2^64: Literal::UInt and std::size_t are 64-bit unsigned integers. */
  const U64: nat := 0x1_0000_0000_0000_0000

  /** A literal prints as its signed integer. */
  function LiteralText(l: Literal): (s: string)
    ensures SignedValue(s) == Some(l as int)
    ensures Words(s) == [s]
  {
    IntTextRoundTrip(l);
    IntTextNoSpace(l);
    WordsPrefix(IntText(l), "");
    assert IntText(l) + "" == IntText(l);
    IntText(l)
  }

  /** Each literal followed by one blank. */
  function LiteralsText(ls: seq<Literal>): string
  {
    if ls == [] then "" else LiteralText(ls[0]) + " " + LiteralsText(ls[1..])
  }

  /** A clause prints as its literals, each followed by a blank, then the terminator 0. */
  function ClauseText(c: Clause): string
  {
    LiteralsText(c.literals) + "0"
  }

  /** Clause lines separated by newlines, with none after the last. */
  function ClausesText(cs: seq<Clause>): string
  {
    if cs == [] then ""
    else if |cs| == 1 then ClauseText(cs[0])
    else ClauseText(cs[0]) + "\n" + ClausesText(cs[1..])
  }

  /**
   * A formula prints as the preamble `p cnf <variables> <clauses>`, a
   * newline, then its clause lines (applied to a formula's numOfVariables
   * and clauses).
   */
  function FormulaText(numOfVariables: nat, clauses: seq<Clause>): string
  {
    PreambleText(numOfVariables, |clauses|) + "\n" + ClausesText(clauses)
  }

  /** The preamble line: `p cnf `, the variable count, a blank, the clause count. */
  function PreambleText(numOfVariables: nat, clauses: nat): string
  {
    "p cnf " + NatText(numOfVariables) + " " + NatText(clauses)
  }

  function StatusText(s: SolverStatus): string
  {
    match s
    case Satisfied => "SATISFIABLE"
    case Unsatisfied => "UNSATISFIABLE"
    case Unknown => "UNKNOWN"
    case Solving => "SOLVING"
  }

  /** Distinct statuses print differently, so a status line can be read back. */
  lemma StatusTextOneToOne(a: SolverStatus, b: SolverStatus)
    ensures StatusText(a) == StatusText(b) ==> a == b
  {
    if a != b && |StatusText(a)| == |StatusText(b)| {
      assert StatusText(a)[0] != StatusText(b)[0];
    }
  }

  /** A string prints as a comment line: `c ` and the string. */
  function CommentText(s: string): (t: string)
    ensures |t| == |s| + 2 && t[0] == 'c' && t[1] == ' ' && t[2..] == s
  {
    "c " + s
  }

  /**
   * The token the assignment formatter prints for variable v with value a,
   * as the source computes it: (a == False ? -1 : 1) * v where v is a
   * 64-bit unsigned integer, so -1 is converted to 2^64 - 1 and the product
   * wraps around.
   */
  function WrappedToken(v: Var, a: VariableAssignment): string
  {
    NatText(if a == False then (U64 - 1) * v % U64 else v % U64)
  }

  /** The token printed for variable v with value a when the sign is kept: the literal. */
  function SignedToken(v: Var, a: VariableAssignment): string
  {
    LiteralText(Make(v, a))
  }

  /**
   * The assignment formatter from slot i on: unassigned variables are
   * skipped, an assigned one prints its token, followed by a blank unless
   * it is the last variable.
   */
  function AssignmentTextWith(slots: seq<VariableAssignment>, i: nat, token: (Var, VariableAssignment) -> string): string
    requires i <= |slots|
    decreases |slots| - i
  {
    if i == |slots| then ""
    else
      (if slots[i] == Unassigned then ""
       else token(i + 1, slots[i]) + (if i + 1 < |slots| then " " else ""))
      + AssignmentTextWith(slots, i + 1, token)
  }

  /** Format(assignment) as written: the wrapped product for every assigned variable. */
  function AssignmentTextAsWritten(slots: seq<VariableAssignment>): string
  {
    AssignmentTextWith(slots, 0, WrappedToken)
  }

  /** Format(assignment) as evidently intended: the literal of every assigned variable. */
  function AssignmentText(slots: seq<VariableAssignment>): string
  {
    AssignmentTextWith(slots, 0, SignedToken)
  }

  /** The literals that hold under the assignment, by increasing variable from slot i on. */
  function AssignedLiterals(slots: seq<VariableAssignment>, i: nat): (r: seq<Literal>)
    requires i <= |slots|
    ensures forall k :: 0 <= k < |r| ==> i < Variable(r[k]) <= |slots| && Eval(r[k], slots[Variable(r[k]) - 1])
    decreases |slots| - i
  {
    if i == |slots| then []
    else (if slots[i] == Unassigned then [] else [Make(i + 1, slots[i])]) + AssignedLiterals(slots, i + 1)
  }

  /** Every assigned variable from slot i on contributes its literal. */
  lemma {:induction false} AssignedLiteralsComplete(slots: seq<VariableAssignment>, i: nat, k: nat)
    requires i <= k < |slots| && slots[k] != Unassigned
    ensures Make(k + 1, slots[k]) in AssignedLiterals(slots, i)
    decreases k - i
  {
    if i < k {
      AssignedLiteralsComplete(slots, i + 1, k);
    }
  }

  /** The printed literals of a sequence. */
  function Texts(ls: seq<Literal>): (r: seq<string>)
    ensures |r| == |ls| && forall k :: 0 <= k < |ls| ==> r[k] == LiteralText(ls[k])
  {
    seq(|ls|, k requires 0 <= k < |ls| => LiteralText(ls[k]))
  }

  lemma {:induction false} AssignmentWords(slots: seq<VariableAssignment>, i: nat)
    requires i <= |slots|
    ensures Words(AssignmentTextWith(slots, i, SignedToken)) == Texts(AssignedLiterals(slots, i))
    decreases |slots| - i
  {
    if i < |slots| {
      var rest := AssignmentTextWith(slots, i + 1, SignedToken);
      AssignmentWords(slots, i + 1);
      if slots[i] != Unassigned {
        TokenWords(SignedToken(i + 1, slots[i]), if i + 1 < |slots| then " " else "", rest);
        TextsCons(Make(i + 1, slots[i]), AssignedLiterals(slots, i + 1));
      } else {
        assert "" + rest == rest;
        assert [] + AssignedLiterals(slots, i + 1) == AssignedLiterals(slots, i + 1);
      }
    }
  }

  /** A token followed by a blank, or by nothing at the end of the text, is the first word. */
  lemma TokenWords(tok: string, sep: string, rest: string)
    requires |tok| > 0 && forall j :: 0 <= j < |tok| ==> !IsSpace(tok[j])
    requires sep == " " || (sep == "" && rest == "")
    ensures Words(tok + sep + rest) == [tok] + Words(rest)
  {
    WordsPrefix(tok, sep + rest);
    assert tok + sep + rest == tok + (sep + rest);
    if sep == " " {
      assert (sep + rest)[1..] == rest;
    }
  }

  lemma TextsCons(l: Literal, ls: seq<Literal>)
    ensures Texts([l] + ls) == [LiteralText(l)] + Texts(ls)
  {
  }

  /**
   * Read back as whitespace-separated integers, the assignment text gives
   * exactly the literals that hold, by increasing variable.
   */
  lemma AssignmentTextReadsBack(slots: seq<VariableAssignment>)
    ensures var ws := Words(AssignmentText(slots)); var ls := AssignedLiterals(slots, 0);
      |ws| == |ls| && forall k :: 0 <= k < |ws| ==> SignedValue(ws[k]) == Some(ls[k] as int)
  {
    AssignmentWords(slots, 0);
  }

  /** The as-written formatter never prints a minus sign, whatever the assignment. */
  lemma {:induction false} AssignmentSignLost(slots: seq<VariableAssignment>, i: nat)
    requires i <= |slots|
    ensures forall k :: 0 <= k < |AssignmentTextWith(slots, i, WrappedToken)| ==> AssignmentTextWith(slots, i, WrappedToken)[k] != '-'
    decreases |slots| - i
  {
    if i < |slots| {
      AssignmentSignLost(slots, i + 1);
    }
  }

  /**
   * The smallest input that shows it: variable 1 false prints as
   * 18446744073709551615 instead of -1.
   */
  lemma AssignmentWrapExample()
    ensures AssignmentTextAsWritten([False]) == NatText(U64 - 1)
    ensures AssignmentText([False]) == "-1"
    ensures SignedValue(AssignmentTextAsWritten([False])) == Some(U64 - 1)
  {
    NatTextRoundTrip(U64 - 1);
  }

  /**
   * The literals of the `v` line: variable v's value as a literal, an
   * unassigned variable as its positive literal.
   */
  function ModelLiterals(slots: seq<VariableAssignment>): (r: seq<Literal>)
    ensures |r| == |slots|
    ensures forall k :: 0 <= k < |r| ==> Variable(r[k]) == k + 1 && (r[k] < 0 <==> slots[k] == False)
  {
    seq(|slots|, k requires 0 <= k < |slots| => Make(k + 1, slots[k]))
  }

  /**
   * Format(solver, include_model): the line `s <status>`, followed, only
   * when the status is Satisfied and the model is included (the default),
   * by a newline and `v `, every variable's literal followed by a blank,
   * and the terminator 0.
   */
  function SolverText(status: SolverStatus, slots: seq<VariableAssignment>, includeModel: bool := true): string
  {
    "s " + StatusText(status)
    + (if status == SolverStatus.Satisfied && includeModel then "\nv " + LiteralsText(ModelLiterals(slots)) + "0" else "")
  }
}
