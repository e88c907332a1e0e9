/**
 * The output-parsing rules of the Python test harness (tests/sat_solver.py,
 * SatSolver.solve): from the solver's exit code and standard output to a
 * model, "unsatisfiable", or an exception. The subprocess round trip is not
 * part of this model; the decoded output text is a parameter.
 */
module Harness {
  import opened Wrappers
  import opened Text
  import Core
  import Literals
  import Formats

  /**
   * The exceptions of the harness: SatSolverError for a non-zero exit code,
   * malformed output and (in run_solver_test) a failed model verification;
   * ValueError for an unknown status name or a token that is not an integer.
   */
  datatype HarnessError =
    | ExitedWith(code: int)
    | InvalidOutput
    | StatusValueError(text: string)
    | LiteralValueError
    | ModelVerificationFailed

  /** SatResult: the two status names the enum accepts. */
  datatype SatResult = Satisfied | Unsatisfied

  /** SatResult(text): the member whose value is text, or ValueError. */
  function SatResultOf(text: string): (r: Option<SatResult>)
    ensures r == Some(Satisfied) <==> text == Formats.StatusText(Core.Satisfied)
    ensures r == Some(Unsatisfied) <==> text == Formats.StatusText(Core.Unsatisfied)
  {
    if text == "SATISFIABLE" then Some(Satisfied)
    else if text == "UNSATISFIABLE" then Some(Unsatisfied)
    else None
  }

  /** The characters str.splitlines breaks at (\r\n counts as one break). */
  predicate IsLineBreak(c: char)
  {
    '\n' <= c <= '\r' || '\U{1C}' <= c <= '\U{1E}' || c == '\U{85}' || c == '\U{2028}' || c == '\U{2029}'
  }

  /** str.isspace for one character. */
  predicate IsPySpace(c: char)
  {
    c == ' ' || '\t' <= c <= '\r' || '\U{1C}' <= c <= '\U{1F}' || c == '\U{85}' || c == '\U{A0}'
    || c == '\U{1680}' || '\U{2000}' <= c <= '\U{200A}' || c == '\U{2028}' || c == '\U{2029}'
    || c == '\U{202F}' || c == '\U{205F}' || c == '\U{3000}'
  }

  predicate NoLineBreak(s: string)
  {
    forall k :: 0 <= k < |s| ==> !IsLineBreak(s[k])
  }

  /** The first line break at or after i, or |s| when there is none. */
  function BreakAt(s: string, i: nat): (e: nat)
    requires i <= |s|
    ensures i <= e <= |s| && (e < |s| ==> IsLineBreak(s[e]))
    ensures forall k :: i <= k < e ==> !IsLineBreak(s[k])
    decreases |s| - i
  {
    if i == |s| || IsLineBreak(s[i]) then i else BreakAt(s, i + 1)
  }

  /**
   * str.splitlines(keepends=False): the lines without their breaks; a break
   * at the very end does not start another line, and "" has no lines.
   */
  function SplitLines(s: string): (ls: seq<string>)
    ensures forall k :: 0 <= k < |ls| ==> NoLineBreak(ls[k])
    ensures s == [] <==> ls == []
    decreases |s|
  {
    if s == [] then []
    else
      var e := BreakAt(s, 0);
      if e == |s| then [s]
      else
        var next := if s[e] == '\r' && e + 1 < |s| && s[e + 1] == '\n' then e + 2 else e + 1;
        [s[..e]] + SplitLines(s[next..])
  }

  /** Lines, each followed by a newline: how a program that ends every line with std::endl writes them. */
  function Terminated(ls: seq<string>): string
  {
    if ls == [] then "" else ls[0] + "\n" + Terminated(ls[1..])
  }

  /** A line without breaks, then a newline, is the first line. */
  lemma SplitLinesCons(line: string, rest: string)
    requires NoLineBreak(line)
    ensures SplitLines(line + "\n" + rest) == [line] + SplitLines(rest)
  {
    var s := line + "\n" + rest;
    BreakAtOfPrefix(s, line, 0);
    assert s[..|line|] == line;
    assert s[|line| + 1..] == rest;
  }

  lemma {:induction false} BreakAtOfPrefix(s: string, line: string, i: nat)
    requires NoLineBreak(line) && i <= |line| < |s| && s[|line|] == '\n'
    requires forall k :: 0 <= k < |line| ==> s[k] == line[k]
    ensures BreakAt(s, i) == |line|
    decreases |line| - i
  {
    if i < |line| {
      BreakAtOfPrefix(s, line, i + 1);
    }
  }

  /** Splitting newline-terminated lines gives them back, whatever follows. */
  lemma {:induction false} SplitTerminated(ls: seq<string>, rest: string)
    requires forall k :: 0 <= k < |ls| ==> NoLineBreak(ls[k])
    ensures SplitLines(Terminated(ls) + rest) == ls + SplitLines(rest)
  {
    if ls != [] {
      SplitTerminated(ls[1..], rest);
      SplitTerminatedStep(ls, rest);
    } else {
      assert Terminated(ls) + rest == rest;
      assert ls + SplitLines(rest) == SplitLines(rest);
    }
  }

  lemma SplitTerminatedStep(ls: seq<string>, rest: string)
    requires ls != [] && NoLineBreak(ls[0])
    requires SplitLines(Terminated(ls[1..]) + rest) == ls[1..] + SplitLines(rest)
    ensures SplitLines(Terminated(ls) + rest) == ls + SplitLines(rest)
  {
    TerminatedCons(ls, rest);
    SplitLinesCons(ls[0], Terminated(ls[1..]) + rest);
    ConsAppend(ls, SplitLines(rest));
  }

  lemma TerminatedCons(ls: seq<string>, rest: string)
    requires ls != []
    ensures Terminated(ls) + rest == ls[0] + "\n" + (Terminated(ls[1..]) + rest)
  {
  }

  lemma ConsAppend<T>(a: seq<T>, b: seq<T>)
    requires a != []
    ensures [a[0]] + (a[1..] + b) == a + b
  {
    AppendAssociative([a[0]], a[1..], b);
    assert [a[0]] + a[1..] == a;
  }

  lemma AppendAssociative<T>(a: seq<T>, b: seq<T>, c: seq<T>)
    ensures a + (b + c) == (a + b) + c
  {
  }

  predicate StartsWith(s: string, prefix: string)
  {
    |prefix| <= |s| && s[..|prefix|] == prefix
  }

  /** [line for line in lines if line.startswith(prefix)] */
  function Starting(lines: seq<string>, prefix: string): (r: seq<string>)
    ensures |r| <= |lines|
    ensures forall k :: 0 <= k < |r| ==> StartsWith(r[k], prefix) && r[k] in lines
  {
    if lines == [] then []
    else (if StartsWith(lines[0], prefix) then [lines[0]] else []) + Starting(lines[1..], prefix)
  }

  /** Filtering distributes over concatenation. */
  lemma {:induction false} StartingAppend(a: seq<string>, b: seq<string>, prefix: string)
    ensures Starting(a + b, prefix) == Starting(a, prefix) + Starting(b, prefix)
  {
    if a != [] {
      var first := if StartsWith(a[0], prefix) then [a[0]] else [];
      assert (a + b)[0] == a[0] && (a + b)[1..] == a[1..] + b;
      StartingAppend(a[1..], b, prefix);
      calc {
        Starting(a + b, prefix);
        first + (Starting(a[1..], prefix) + Starting(b, prefix));
        { AppendAssociative(first, Starting(a[1..], prefix), Starting(b, prefix)); }
        (first + Starting(a[1..], prefix)) + Starting(b, prefix);
      }
    } else {
      assert a + b == b;
      assert Starting(a, prefix) + Starting(b, prefix) == Starting(b, prefix);
    }
  }

  /** A filtered line is exactly a line of the input that starts with the prefix. */
  lemma {:induction false} StartingComplete(lines: seq<string>, prefix: string, line: string)
    requires line in lines && StartsWith(line, prefix)
    ensures line in Starting(lines, prefix)
  {
    if lines[0] != line {
      StartingComplete(lines[1..], prefix, line);
    }
  }

  /** The first index at or after i where text holds the leading whitespace's end. */
  function StripStart(s: string, i: nat): (j: nat)
    requires i <= |s|
    ensures i <= j <= |s| && (j < |s| ==> !IsPySpace(s[j]))
    ensures forall k :: i <= k < j ==> IsPySpace(s[k])
    decreases |s| - i
  {
    if i < |s| && IsPySpace(s[i]) then StripStart(s, i + 1) else i
  }

  /** The end of s[lo..j] once its trailing whitespace is removed. */
  function StripEnd(s: string, lo: nat, j: nat): (e: nat)
    requires lo <= j <= |s|
    ensures lo <= e <= j && (e > lo ==> !IsPySpace(s[e - 1]))
    ensures forall k :: e <= k < j ==> IsPySpace(s[k])
    decreases j
  {
    if j > lo && IsPySpace(s[j - 1]) then StripEnd(s, lo, j - 1) else j
  }

  /** str.strip(): s without its leading and trailing whitespace. */
  function Strip(s: string): (r: string)
    ensures r == [] || (!IsPySpace(r[0]) && !IsPySpace(r[|r| - 1]))
    ensures |r| <= |s|
  {
    var i := StripStart(s, 0);
    s[i..StripEnd(s, i, |s|)]
  }

  /** A string with no whitespace at either end is its own strip; so Strip is idempotent. */
  lemma StripUnchanged(s: string)
    requires s == [] || (!IsPySpace(s[0]) && !IsPySpace(s[|s| - 1]))
    ensures Strip(s) == s
  {
    assert s[0..|s|] == s;
  }

  /** The first occurrence of sep at or after i, or |s|. */
  function Find(s: string, sep: char, i: nat): (e: nat)
    requires i <= |s|
    ensures i <= e <= |s| && (e < |s| ==> s[e] == sep)
    ensures forall k :: i <= k < e ==> s[k] != sep
    decreases |s| - i
  {
    if i == |s| || s[i] == sep then i else Find(s, sep, i + 1)
  }

  /** str.split(sep) with an explicit one-character separator: every occurrence splits, so repeats give empty pieces. */
  function SplitOn(s: string, sep: char): (r: seq<string>)
    ensures |r| > 0
    ensures forall k :: 0 <= k < |r| ==> sep !in r[k]
    decreases |s|
  {
    var e := Find(s, sep, 0);
    if e == |s| then [s] else [s[..e]] + SplitOn(s[e + 1..], sep)
  }

  /** sep.join(pieces) */
  function Join(pieces: seq<string>, sep: char): string
  {
    if pieces == [] then ""
    else if |pieces| == 1 then pieces[0]
    else pieces[0] + [sep] + Join(pieces[1..], sep)
  }

  /** Joining the pieces of a split gives the string back. */
  lemma {:induction false} JoinSplit(s: string, sep: char)
    ensures Join(SplitOn(s, sep), sep) == s
    decreases |s|
  {
    var e := Find(s, sep, 0);
    if e < |s| {
      JoinSplit(s[e + 1..], sep);
      assert s == s[..e] + [sep] + s[e + 1..];
    }
  }

  /** Splitting a join of pieces that hold no separator gives the pieces back. */
  lemma {:induction false} SplitJoin(pieces: seq<string>, sep: char)
    requires |pieces| > 0 && forall k :: 0 <= k < |pieces| ==> sep !in pieces[k]
    ensures SplitOn(Join(pieces, sep), sep) == pieces
  {
    var p := pieces[0];
    if |pieces| == 1 {
      FindAbsent(p, sep, 0);
    } else {
      var s := Join(pieces, sep);
      var rest := Join(pieces[1..], sep);
      assert s == p + ([sep] + rest);
      FindFirst(p, [sep] + rest, sep);
      assert s[..|p|] == p && s[|p| + 1..] == rest;
      SplitJoin(pieces[1..], sep);
      assert pieces == [p] + pieces[1..];
    }
  }

  lemma {:induction false} FindAbsent(s: string, sep: char, i: nat)
    requires i <= |s| && sep !in s
    ensures Find(s, sep, i) == |s|
    decreases |s| - i
  {
    if i < |s| {
      assert s[i] in s;
      FindAbsent(s, sep, i + 1);
    }
  }

  lemma FindFirst(p: string, rest: string, sep: char)
    requires sep !in p && rest != [] && rest[0] == sep
    ensures Find(p + rest, sep, 0) == |p|
  {
    FindBefore(p, rest, sep, 0);
  }

  lemma {:induction false} FindBefore(p: string, rest: string, sep: char, i: nat)
    requires i <= |p| && sep !in p && rest != [] && rest[0] == sep
    ensures Find(p + rest, sep, i) == |p|
    decreases |p| - i
  {
    if i < |p| {
      assert p[i] in p;
      assert (p + rest)[i] == p[i];
      FindBefore(p, rest, sep, i + 1);
    }
  }

  /** int(token): surrounding whitespace ignored, then an optional sign and ASCII digits. */
  function PyInt(token: string): (r: Option<int>)
    ensures r.Some? ==> Strip(token) != []
  {
    SignedValue(Strip(token))
  }

  /** [int(t) for t in tokens]: the values in order, or None when one token is not an integer. */
  function Ints(tokens: seq<string>): (r: Option<seq<int>>)
    ensures r.Some? <==> forall k :: 0 <= k < |tokens| ==> PyInt(tokens[k]).Some?
    ensures r.Some? ==> |r.value| == |tokens| && forall k :: 0 <= k < |tokens| ==> PyInt(tokens[k]) == Some(r.value[k])
  {
    if tokens == [] then Some([])
    else
      match (PyInt(tokens[0]), Ints(tokens[1..]))
      case (Some(x), Some(xs)) => Some([x] + xs)
      case _ => None
  }

  /** xs[:-n] for n > 0: all but the last n items, or nothing when there are fewer. */
  function DropLast(xs: seq<int>, n: nat): (r: seq<int>)
    ensures |r| == if |xs| >= n then |xs| - n else 0
    ensures forall k :: 0 <= k < |r| ==> r[k] == xs[k]
  {
    xs[..if |xs| >= n then |xs| - n else 0]
  }

  /**
   * The parsing part of SatSolver.solve, cutting `drop` values off the end
   * of the model line: Some(model) for SATISFIABLE, None for UNSATISFIABLE.
   */
  function ParseOutputWith(returnCode: int, output: string, drop: nat): (r: Result<Option<seq<int>>, HarnessError>)
    ensures returnCode != 0 <==> r == Failure(ExitedWith(returnCode))
    ensures r.Success? ==> |Starting(SplitLines(output), "s ")| == 1
    ensures r.Success? && r.value.Some? ==> |Starting(SplitLines(output), "v ")| == 1
  {
    if returnCode != 0 then Failure(ExitedWith(returnCode)) else ParseLines(SplitLines(output), drop)
  }

  /** The output's lines: exactly one status line, whose status decides whether a model line is read. */
  function ParseLines(lines: seq<string>, drop: nat): (r: Result<Option<seq<int>>, HarnessError>)
    ensures r.Success? ==> |Starting(lines, "s ")| == 1
    ensures r.Success? && r.value.Some? ==> |Starting(lines, "v ")| == 1
    ensures r != Failure(ExitedWith(0))
  {
    var statusLines := Starting(lines, "s ");
    if |statusLines| != 1 then Failure(InvalidOutput)
    else
      match SatResultOf(statusLines[0][2..])
      case None => Failure(StatusValueError(statusLines[0][2..]))
      case Some(Unsatisfied) => Success(None)
      case Some(Satisfied) => ModelOf(Starting(lines, "v "), drop)
  }

  /** The lines starting with `v `: exactly one, whose remainder is stripped, split on blanks and read as integers. */
  function ModelOf(modelLines: seq<string>, drop: nat): (r: Result<Option<seq<int>>, HarnessError>)
    ensures r.Success? ==> |modelLines| == 1 && r.value.Some?
    ensures r.Failure? ==> r.error == InvalidOutput || r.error == LiteralValueError
  {
    if |modelLines| != 1 then Failure(InvalidOutput)
    else
      var remainder := if |modelLines[0]| >= 2 then modelLines[0][2..] else "";
      match Ints(SplitOn(Strip(remainder), ' '))
      case None => Failure(LiteralValueError)
      case Some(values) => Success(Some(DropLast(values, drop)))
  }

  /** SatSolver.solve as written: `[:-2]` drops the last two values of the model line. */
  function ParseOutputAsWritten(returnCode: int, output: string): Result<Option<seq<int>>, HarnessError>
  {
    ParseOutputWith(returnCode, output, 2)
  }

  /** SatSolver.solve as evidently intended: only the terminating 0 is dropped. */
  function ParseOutput(returnCode: int, output: string): Result<Option<seq<int>>, HarnessError>
  {
    ParseOutputWith(returnCode, output, 1)
  }

  /** The characters pjos writes on a model line. */
  predicate IsModelChar(c: char)
  {
    IsDigit(c) || c == '-' || c == ' '
  }

  lemma IntTextChars(x: int)
    ensures forall i :: 0 <= i < |IntText(x)| ==> IntText(x)[i] == '-' || IsDigit(IntText(x)[i])
  {
    if x < 0 {
      forall i | 1 <= i < |IntText(x)|
        ensures IsDigit(IntText(x)[i])
      {
        assert IntText(x)[i] == NatText(-x)[i - 1];
      }
    }
  }

  lemma {:induction false} LiteralsTextChars(ls: seq<Literals.Literal>)
    ensures forall i :: 0 <= i < |Formats.LiteralsText(ls)| ==> IsModelChar(Formats.LiteralsText(ls)[i])
  {
    if ls != [] {
      var t := Formats.LiteralText(ls[0]);
      var rest := Formats.LiteralsText(ls[1..]);
      LiteralsTextChars(ls[1..]);
      IntTextChars(ls[0]);
      forall i | 0 <= i < |Formats.LiteralsText(ls)|
        ensures IsModelChar(Formats.LiteralsText(ls)[i])
      {
        if i < |t| {
          assert Formats.LiteralsText(ls)[i] == t[i];
        } else if |t| < i {
          assert Formats.LiteralsText(ls)[i] == rest[i - |t| - 1];
        }
      }
    }
  }

  /** The model line's literals and terminator are the blank-joined texts of the literals and of 0. */
  lemma {:induction false} LiteralsTextJoin(ls: seq<Literals.Literal>)
    ensures Formats.LiteralsText(ls) + "0" == Join(Formats.Texts(ls) + ["0"], ' ')
  {
    if ls != [] {
      LiteralsTextJoin(ls[1..]);
      LiteralsTextJoinFirst(ls);
    }
  }

  lemma LiteralsTextJoinFirst(ls: seq<Literals.Literal>)
    requires ls != []
    requires Formats.LiteralsText(ls[1..]) + "0" == Join(Formats.Texts(ls[1..]) + ["0"], ' ')
    ensures Formats.LiteralsText(ls) + "0" == Join(Formats.Texts(ls) + ["0"], ' ')
  {
    var l, rest := ls[0], ls[1..];
    assert ls == [l] + rest;
    LiteralsTextJoinStep(l, rest);
  }

  lemma LiteralsTextJoinStep(l: Literals.Literal, rest: seq<Literals.Literal>)
    requires Formats.LiteralsText(rest) + "0" == Join(Formats.Texts(rest) + ["0"], ' ')
    ensures Formats.LiteralsText([l] + rest) + "0" == Join(Formats.Texts([l] + rest) + ["0"], ' ')
  {
    assert Formats.LiteralsText([l] + rest) == Formats.LiteralText(l) + " " + Formats.LiteralsText(rest) by {
      assert ([l] + rest)[1..] == rest;
    }
    Formats.TextsCons(l, rest);
    JoinStep(Formats.LiteralText(l), Formats.LiteralsText(rest), Formats.Texts(rest));
  }

  lemma JoinStep(t: string, a: string, ps: seq<string>)
    requires a + "0" == Join(ps + ["0"], ' ')
    ensures t + " " + a + "0" == Join([t] + ps + ["0"], ' ')
  {
    var pieces := ps + ["0"];
    assert [t] + ps + ["0"] == [t] + pieces;
    assert ([t] + pieces)[1..] == pieces;
    AppendAssociative(t + " ", a, "0");
  }

  /** Split on blanks, the model line's text gives each literal's text and then "0". */
  lemma ModelLineTokens(ls: seq<Literals.Literal>)
    ensures SplitOn(Formats.LiteralsText(ls) + "0", ' ') == Formats.Texts(ls) + ["0"]
  {
    var pieces := Formats.Texts(ls) + ["0"];
    forall k | 0 <= k < |pieces|
      ensures ' ' !in pieces[k]
    {
      if k < |ls| {
        IntTextNoSpace(ls[k]);
      }
    }
    LiteralsTextJoin(ls);
    SplitJoin(pieces, ' ');
  }

  /** The values of the model line: the literals, then the terminator 0. */
  function WithTerminator(ls: seq<Literals.Literal>): (xs: seq<int>)
    ensures |xs| == |ls| + 1 && xs[|ls|] == 0 && forall k :: 0 <= k < |ls| ==> xs[k] == ls[k]
  {
    var values: seq<int> := ls;
    values + [0]
  }

  /** int() reads each literal's text back as the literal, and "0" as 0. */
  lemma ModelLineValues(ls: seq<Literals.Literal>)
    ensures Ints(Formats.Texts(ls) + ["0"]) == Some(WithTerminator(ls))
  {
    var tokens := Formats.Texts(ls) + ["0"];
    var values := WithTerminator(ls);
    forall k | 0 <= k < |tokens|
      ensures PyInt(tokens[k]) == Some(values[k])
    {
      if k < |ls| {
        LiteralValue(ls[k]);
      } else {
        ZeroValue();
      }
    }
    IntsOf(tokens, values);
  }

  lemma LiteralValue(l: Literals.Literal)
    ensures PyInt(Formats.LiteralText(l)) == Some(l as int)
  {
    IntTextChars(l);
    StripUnchanged(Formats.LiteralText(l));
  }

  lemma ZeroValue()
    ensures PyInt("0") == Some(0)
  {
    StripUnchanged("0");
    assert DigitsValue("0") == 0;
  }

  lemma IntsOf(tokens: seq<string>, values: seq<int>)
    requires |tokens| == |values| && forall k :: 0 <= k < |tokens| ==> PyInt(tokens[k]) == Some(values[k])
    ensures Ints(tokens) == Some(values)
  {
    assert Ints(tokens).value == values;
  }

  /** The remainder of pjos's `v` line, stripped, split and read as integers: the literals and the terminator 0. */
  lemma ModelLineReadsBack(ls: seq<Literals.Literal>)
    ensures Ints(SplitOn(Strip(Formats.LiteralsText(ls) + "0"), ' ')) == Some(WithTerminator(ls))
  {
    var text := Formats.LiteralsText(ls) + "0";
    if ls != [] {
      IntTextChars(ls[0]);
      assert text[0] == Formats.LiteralText(ls[0])[0];
    }
    StripUnchanged(text);
    ModelLineTokens(ls);
    ModelLineValues(ls);
  }

  /** pjos's standard output: comment lines, then the result lines of Format(solver, includeModel) and a newline. */
  function SolverOutput(comments: seq<string>, status: Core.SolverStatus, slots: seq<Core.VariableAssignment>, includeModel: bool): string
  {
    Terminated(comments) + Formats.SolverText(status, slots, includeModel) + "\n"
  }

  /** Lines that cannot be taken for result lines: each starts with `c` and holds no line break. */
  predicate CommentLines(comments: seq<string>)
  {
    forall k :: 0 <= k < |comments| ==> NoLineBreak(comments[k]) && |comments[k]| > 0 && comments[k][0] == 'c'
  }

  /** The result lines pjos writes: the status line, then the model line when there is one. */
  function ResultLines(status: Core.SolverStatus, slots: seq<Core.VariableAssignment>, includeModel: bool): seq<string>
  {
    ["s " + Formats.StatusText(status)]
    + (if status == Core.Satisfied && includeModel then ["v " + Formats.LiteralsText(Formats.ModelLiterals(slots)) + "0"] else [])
  }

  /** Format(solver) followed by std::endl writes the result lines, each ending with a newline. */
  lemma ResultLinesText(status: Core.SolverStatus, slots: seq<Core.VariableAssignment>, includeModel: bool)
    ensures Formats.SolverText(status, slots, includeModel) + "\n" == Terminated(ResultLines(status, slots, includeModel))
  {
    var ls := ResultLines(status, slots, includeModel);
    if |ls| == 2 {
      assert ls[1..][1..] == [];
      assert Terminated(ls[1..]) == ls[1] + "\n";
    } else {
      assert ls[1..] == [];
    }
  }

  lemma ResultLinesNoBreak(status: Core.SolverStatus, slots: seq<Core.VariableAssignment>, includeModel: bool)
    ensures forall k :: 0 <= k < |ResultLines(status, slots, includeModel)| ==> NoLineBreak(ResultLines(status, slots, includeModel)[k])
  {
    StatusLineNoBreak(status);
    ModelLineNoBreak(Formats.ModelLiterals(slots));
  }

  lemma StatusLineNoBreak(status: Core.SolverStatus)
    ensures NoLineBreak("s " + Formats.StatusText(status))
  {
    var line := "s " + Formats.StatusText(status);
    forall i | 0 <= i < |line|
      ensures !IsLineBreak(line[i])
    {
      assert line[i] == ' ' || 'A' <= line[i] <= 'Z' || line[i] == 's';
    }
  }

  lemma ModelLineNoBreak(ls: seq<Literals.Literal>)
    ensures NoLineBreak("v " + Formats.LiteralsText(ls) + "0")
  {
    var text := Formats.LiteralsText(ls);
    LiteralsTextChars(ls);
    NoLineBreakAppend("v ", text);
    NoLineBreakAppend("v " + text, "0");
  }

  lemma NoLineBreakAppend(a: string, b: string)
    requires forall i :: 0 <= i < |a| ==> !IsLineBreak(a[i])
    requires forall i :: 0 <= i < |b| ==> !IsLineBreak(b[i])
    ensures NoLineBreak(a + b)
  {
    forall i | 0 <= i < |a + b|
      ensures !IsLineBreak((a + b)[i])
    {
      if i >= |a| {
        assert (a + b)[i] == b[i - |a|];
      }
    }
  }

  lemma OutputLines(comments: seq<string>, status: Core.SolverStatus, slots: seq<Core.VariableAssignment>, includeModel: bool)
    requires CommentLines(comments)
    ensures SplitLines(SolverOutput(comments, status, slots, includeModel)) == comments + ResultLines(status, slots, includeModel)
  {
    var ls := ResultLines(status, slots, includeModel);
    ResultLinesText(status, slots, includeModel);
    ResultLinesNoBreak(status, slots, includeModel);
    assert SolverOutput(comments, status, slots, includeModel) == Terminated(comments) + Terminated(ls);
    SplitTerminated(comments, Terminated(ls));
    SplitTerminated(ls, "");
    assert Terminated(ls) + "" == Terminated(ls);
    assert ls + [] == ls;
  }

  /** No comment line starts with `s ` or `v `. */
  lemma {:induction false} CommentsFiltered(comments: seq<string>, prefix: string)
    requires CommentLines(comments) && prefix in {"s ", "v "}
    ensures Starting(comments, prefix) == []
  {
    if comments != [] {
      CommentsFiltered(comments[1..], prefix);
      assert !StartsWith(comments[0], prefix);
    }
  }

  /** The filters of the parser pick exactly pjos's status line and model line. */
  lemma ResultLinesFiltered(comments: seq<string>, status: Core.SolverStatus, slots: seq<Core.VariableAssignment>, includeModel: bool)
    requires CommentLines(comments)
    ensures var lines := comments + ResultLines(status, slots, includeModel);
      && Starting(lines, "s ") == ["s " + Formats.StatusText(status)]
      && Starting(lines, "v ") == ResultLines(status, slots, includeModel)[1..]
  {
    var ls := ResultLines(status, slots, includeModel);
    StartingAppend(comments, ls, "s ");
    StartingAppend(comments, ls, "v ");
    CommentsFiltered(comments, "s ");
    CommentsFiltered(comments, "v ");
    assert ls == [ls[0]] + ls[1..];
    StartingAppend([ls[0]], ls[1..], "s ");
    StartingAppend([ls[0]], ls[1..], "v ");
    assert ls[0][..2] == "s ";
    if |ls| == 2 {
      assert ls[1][..2] == "v ";
      assert ls[1..][1..] == [];
    }
  }

  /**
   * Parsing pjos's output, with drop values cut off the model line: the
   * model line's literals followed by the terminator 0, minus the last
   * drop values, for SATISFIABLE; None for UNSATISFIABLE; ValueError for
   * UNKNOWN and SOLVING; and an invalid-output error for a SATISFIABLE
   * result printed without its model.
   */
  lemma ParseSolverOutput(comments: seq<string>, status: Core.SolverStatus, slots: seq<Core.VariableAssignment>, includeModel: bool, drop: nat)
    requires CommentLines(comments)
    ensures var r := ParseOutputWith(0, SolverOutput(comments, status, slots, includeModel), drop);
      && (status == Core.Satisfied && includeModel ==> r == Success(Some(DropLast(WithTerminator(Formats.ModelLiterals(slots)), drop))))
      && (status == Core.Satisfied && !includeModel ==> r == Failure(InvalidOutput))
      && (status == Core.Unsatisfied ==> r == Success(None))
      && (status == Core.Unknown || status == Core.Solving ==> r == Failure(StatusValueError(Formats.StatusText(status))))
  {
    OutputLines(comments, status, slots, includeModel);
    ParseResultLines(comments, status, slots, includeModel, drop);
  }

  lemma ParseResultLines(comments: seq<string>, status: Core.SolverStatus, slots: seq<Core.VariableAssignment>, includeModel: bool, drop: nat)
    requires CommentLines(comments)
    ensures var r := ParseLines(comments + ResultLines(status, slots, includeModel), drop);
      && (status == Core.Satisfied && includeModel ==> r == Success(Some(DropLast(WithTerminator(Formats.ModelLiterals(slots)), drop))))
      && (status == Core.Satisfied && !includeModel ==> r == Failure(InvalidOutput))
      && (status == Core.Unsatisfied ==> r == Success(None))
      && (status == Core.Unknown || status == Core.Solving ==> r == Failure(StatusValueError(Formats.StatusText(status))))
  {
    ResultLinesFiltered(comments, status, slots, includeModel);
    var statusLine := "s " + Formats.StatusText(status);
    assert statusLine[2..] == Formats.StatusText(status);
    if status == Core.Satisfied && includeModel {
      ModelOfModelLine(Formats.ModelLiterals(slots), drop);
    }
  }

  /** pjos's model line is read as its literals and the terminator, minus the dropped values. */
  lemma ModelOfModelLine(ls: seq<Literals.Literal>, drop: nat)
    ensures ModelOf(["v " + Formats.LiteralsText(ls) + "0"], drop) == Success(Some(DropLast(WithTerminator(ls), drop)))
  {
    var line := "v " + Formats.LiteralsText(ls) + "0";
    assert line[2..] == Formats.LiteralsText(ls) + "0";
    ModelLineReadsBack(ls);
  }

  /** The corrected parser returns exactly the literals of pjos's model line. */
  lemma ParseOutputRoundTrip(comments: seq<string>, slots: seq<Core.VariableAssignment>)
    requires CommentLines(comments)
    ensures ParseOutput(0, SolverOutput(comments, Core.Satisfied, slots, true)) == Success(Some(Formats.ModelLiterals(slots)))
  {
    ParseSolverOutput(comments, Core.Satisfied, slots, true, 1);
    assert DropLast(WithTerminator(Formats.ModelLiterals(slots)), 1) == Formats.ModelLiterals(slots);
  }

  /** The parser as written loses the last variable's literal of every model pjos prints. */
  lemma ParseOutputAsWrittenLosesLast(comments: seq<string>, slots: seq<Core.VariableAssignment>)
    requires CommentLines(comments) && |slots| > 0
    ensures ParseOutputAsWritten(0, SolverOutput(comments, Core.Satisfied, slots, true))
      == Success(Some(Formats.ModelLiterals(slots)[..|slots| - 1]))
  {
    ParseSolverOutput(comments, Core.Satisfied, slots, true, 2);
    assert DropLast(WithTerminator(Formats.ModelLiterals(slots)), 2) == Formats.ModelLiterals(slots)[..|slots| - 1];
  }
}
