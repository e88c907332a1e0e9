/**
 * The DIMACS CNF loader (source/Dimacs.cpp): a preamble scan over lines,
 * then a token loop that feeds a FormulaBuilder. The input stream is
 * modelled as a text, a read position and the eof and fail flags of a
 * std::istream, with getline, operator>> into a 64-bit signed integer and
 * strtoull written out as the C++ library defines them.
 */
module Dimacs {
  import opened Core
  import opened Wrappers
  import opened Literals
  import opened Clauses
  import opened Formulas
  import opened Text
  import opened Formats

  const Int64Max: int := 0x7FFF_FFFF_FFFF_FFFF
  const Int64Min: int := -0x8000_0000_0000_0000
  /** ULLONG_MAX, what strtoull gives on overflow. */
  const ULongLongMax: nat := U64 - 1

  /** The prefix that marks the preamble line. */
  const Prefix: string := "p cnf "

  const InvalidFormat: Error := SatError("Invalid DIMACS file format")

  /** The read position and the eof and fail flags of the stream. */
  datatype StreamState = StreamState(pos: nat, eof: bool, fail: bool)

  /** A fresh stream: at the start, good. */
  const Fresh: StreamState := StreamState(0, false, false)

  /** The counts a preamble announces. */
  datatype Header = Header(clauses: nat, variables: nat)

  /** Which warnings the loader prints: clause count, variable count. */
  datatype Warnings = Warnings(clauseCount: bool, variableCount: bool)

  /** The first newline at or after pos, or |text|. */
  function LineEnd(text: string, pos: nat): (e: nat)
    requires pos <= |text|
    ensures pos <= e <= |text| && (e < |text| ==> text[e] == '\n')
    decreases |text| - pos
  {
    if pos == |text| || text[pos] == '\n' then pos else LineEnd(text, pos + 1)
  }

  /** The first position at or after pos that is not whitespace, or |text|. */
  function SkipSpace(text: string, pos: nat): (p: nat)
    requires pos <= |text|
    ensures pos <= p <= |text| && (p < |text| ==> !IsSpace(text[p]))
    decreases |text| - pos
  {
    if pos == |text| || !IsSpace(text[pos]) then pos else SkipSpace(text, pos + 1)
  }

  /**
   * The run of digits from i on, read onto the value acc: where the run
   * ends, and the value read.
   */
  function Digits(text: string, i: nat, acc: nat): (r: (nat, nat))
    requires i <= |text|
    ensures i <= r.0 <= |text| && (r.0 < |text| ==> !IsDigit(text[r.0]))
    decreases |text| - i
  {
    if i < |text| && IsDigit(text[i]) then Digits(text, i + 1, acc * 10 + DigitValue(text[i])) else (i, acc)
  }

  /**
   * std::getline on a good stream: the characters up to the next newline,
   * which is consumed but not stored. Reaching the end of the text sets eof,
   * and extracting no character at all sets fail as well.
   */
  function LineRead(text: string, pos: nat): (r: (string, StreamState))
    requires pos <= |text|
    ensures r.1.pos <= |text| && (r.1.pos == pos ==> r.1.eof)
  {
    var e := LineEnd(text, pos);
    if e < |text| then (text[pos..e], StreamState(e + 1, false, false))
    else (text[pos..e], StreamState(e, true, e == pos))
  }

  /**
   * operator>> into a 64-bit signed integer on a good stream: leading
   * whitespace is skipped, then an optional sign and a run of digits are
   * read. Running into the end of the text sets eof; no digits, or a value
   * outside the 64-bit range, sets fail.
   */
  function IntRead(text: string, pos: nat): (r: (int, StreamState))
    requires pos <= |text|
    ensures r.1.pos <= |text|
    ensures !r.1.fail ==> r.1.pos > pos && Int64Min <= r.0 <= Int64Max
    decreases |text| - pos
  {
    if pos == |text| then (0, StreamState(pos, true, true))
    else if IsSpace(text[pos]) then IntRead(text, pos + 1)
    else
      var p := pos;
      var q := if text[p] == '-' || text[p] == '+' then p + 1 else p;
      var (e, magnitude) := Digits(text, q, 0);
      var v: int := if text[p] == '-' then -(magnitude as int) else magnitude;
      if e == q then (0, StreamState(e, e == |text|, true))
      else if v > Int64Max then (Int64Max, StreamState(e, e == |text|, true))
      else if v < Int64Min then (Int64Min, StreamState(e, e == |text|, true))
      else (v, StreamState(e, e == |text|, false))
  }

  /**
   * strtoull(s + start, &end, 10): leading whitespace, an optional sign and
   * a run of digits; with no digits the value is 0 and the end is the start.
   * A minus sign negates modulo 2^64; overflow gives ULLONG_MAX.
   */
  function StrToULL(s: string, start: nat): (r: (nat, nat))
    requires start <= |s|
    ensures r.0 < U64 && start <= r.1 <= |s|
  {
    var p := SkipSpace(s, start);
    var q := if p < |s| && (s[p] == '-' || s[p] == '+') then p + 1 else p;
    var (e, m) := Digits(s, q, 0);
    if e == q then (0, start)
    else
      if m > ULongLongMax then (ULongLongMax, e)
      else if s[p] == '-' then ((U64 - m) % U64, e)
      else (m, e)
  }

  /**
   * ScanPreamble from stream state st: lines are read while the stream is
   * good; the first line starting with `p cnf ` gives the variable count and
   * then the clause count, each read by strtoull; an empty line or one
   * starting with `c` is skipped; any other line, or the end of the input,
   * is an invalid format.
   */
  function Preamble(text: string, st: StreamState): (r: (Result<Header, Error>, StreamState))
    requires st.pos <= |text|
    ensures r.1.pos <= |text|
    ensures r.0.Failure? ==> r.0.error == InvalidFormat
    ensures r.0.Success? ==> !r.1.fail
    decreases |text| - st.pos, if st.eof || st.fail then 0 else 1
  {
    if st.eof || st.fail then (Failure(InvalidFormat), st)
    else
      var (line, st') := LineRead(text, st.pos);
      if StartsWithPrefix(line) then (Success(HeaderOf(line)), st')
      else if line != [] && line[0] != 'c' then (Failure(InvalidFormat), st')
      else Preamble(text, st')
  }

  /** line.compare(0, 6, "p cnf ") == 0: the line is at least as long as the prefix and starts with it. */
  predicate StartsWithPrefix(line: string)
  {
    |line| >= |Prefix| && line[..|Prefix|] == Prefix
  }

  /** The counts of a preamble line: the variables by strtoull after the prefix, then the clauses from where it stopped. */
  function HeaderOf(line: string): Header
    requires StartsWithPrefix(line)
  {
    var (variables, end) := StrToULL(line, |Prefix|);
    var (clauses, _) := StrToULL(line, end);
    Header(clauses, variables)
  }

  /**
   * The integers the scanning loop of ScanInput accepts from stream state
   * st on: it runs while eof is not set, and stops at the first read that
   * leaves the stream not good, dropping that read's value, including a
   * last token that ends exactly at the end of the text.
   */
  function Body(text: string, st: StreamState): seq<int>
    requires st.pos <= |text|
    decreases |text| - st.pos
  {
    if st.eof || st.fail then []
    else
      var (v, st') := IntRead(text, st.pos);
      if st'.eof || st'.fail then [] else [v] + Body(text, st')
  }

  /** The state of a FormulaBuilder: the clauses ended so far, the literals of the open clause, and its newClause flag. */
  datatype Fed = Fed(closed: seq<set<Literal>>, current: set<Literal>, newClause: bool)

  /** A FormulaBuilder fed the tokens in order: 0 ends a clause (even an empty one), anything else is appended. */
  function Feed(tokens: seq<int>): (f: Fed)
    ensures f.newClause ==> f.current == {}
  {
    if tokens == [] then Fed([], {}, true) else FeedStep(Feed(tokens[..|tokens| - 1]), tokens[|tokens| - 1])
  }

  /** One token: 0 ends the open clause, anything else is appended to it. */
  function FeedStep(f: Fed, t: int): (g: Fed)
    ensures g.newClause ==> g.current == {}
  {
    if t == 0 then Fed(f.closed + [f.current], {}, true) else Fed(f.closed, f.current + {t}, false)
  }

  /** A FormulaBuilder whose formula held `before` is in the state f. */
  ghost predicate Holds(builder: FormulaBuilder, before: seq<Clause>, f: Fed)
    reads builder, builder.formula, builder.builder
  {
    && builder.Valid() && builder.newClause == f.newClause && builder.builder.literals == f.current
    && Loaded(before, builder.formula.clauses, f.closed)
  }

  /** The body of the scanning loop for an accepted token. */
  method FeedToken(builder: FormulaBuilder, ghost before: seq<Clause>, ghost f: Fed, t: int)
    requires Holds(builder, before, f)
    modifies builder, builder.builder, builder.formula
    ensures Holds(builder, before, FeedStep(f, t))
  {
    if t == 0 {
      ghost var mid := builder.formula.clauses;
      builder.EndClause();
      LoadedAppend(before, mid, builder.formula.clauses, f.closed, f.current);
    } else {
      builder.AppendLiteral(t);
    }
  }

  /** The clauses after Finish: the open clause counts only if a literal came after the last clause end. */
  function Finished(f: Fed): seq<set<Literal>>
  {
    if f.newClause then f.closed else f.closed + [f.current]
  }

  /** Loading a whole text from a fresh stream: the preamble's counts and the builder's final state. */
  function Load(text: string): Result<(Header, Fed), Error>
  {
    var (h, st) := Preamble(text, Fresh);
    if h.Failure? then Failure(h.error) else Success((h.value, Feed(Body(text, st))))
  }

  /** The literals of a clause, as a set. */
  function LiteralSet(c: Clause): (s: set<Literal>)
    ensures forall l :: l in s <==> HasLiteral(c, l)
  {
    Members(c.literals)
  }

  /** The literals of a sequence, as a set. */
  function Members(ls: seq<Literal>): set<Literal>
  {
    set l | l in ls
  }

  function Sets(cs: seq<Clause>): (r: seq<set<Literal>>)
    ensures |r| == |cs| && forall i :: 0 <= i < |cs| ==> r[i] == LiteralSet(cs[i])
  {
    seq(|cs|, i requires 0 <= i < |cs| => LiteralSet(cs[i]))
  }

  /** `after` is `before` followed by clauses holding exactly the given literal sets. */
  ghost predicate Loaded(before: seq<Clause>, after: seq<Clause>, sets: seq<set<Literal>>)
  {
    && |after| == |before| + |sets| && after[..|before|] == before
    && forall k :: 0 <= k < |sets| ==> LiteralSet(after[|before| + k]) == sets[k]
  }

  /** One more clause with the literal set s. */
  lemma LoadedAppend(before: seq<Clause>, mid: seq<Clause>, after: seq<Clause>, sets: seq<set<Literal>>, s: set<Literal>)
    requires Loaded(before, mid, sets)
    requires |after| == |mid| + 1 && after[..|mid|] == mid
    requires forall l :: HasLiteral(after[|mid|], l) <==> l in s
    ensures Loaded(before, after, sets + [s])
  {
    assert LiteralSet(after[|mid|]) == s;
    assert after[..|before|] == mid[..|before|];
    forall k | 0 <= k < |sets|
      ensures LiteralSet(after[|before| + k]) == sets[k]
    {
      assert after[|before| + k] == mid[|before| + k];
    }
  }

  /** Finish closes the open clause, if any, after the clauses already loaded. */
  lemma LoadedFinish(before: seq<Clause>, mid: seq<Clause>, after: seq<Clause>, f: Fed)
    requires Loaded(before, mid, f.closed)
    requires f.newClause ==> after == mid
    requires !f.newClause ==> (|after| == |mid| + 1 && after[..|mid|] == mid
      && forall l :: HasLiteral(after[|mid|], l) <==> l in f.current)
    ensures Loaded(before, after, Finished(f))
  {
    if !f.newClause {
      LoadedAppend(before, mid, after, f.closed, f.current);
    }
  }

  /**
   * The clause-count warning as the source computes it: before the
   * builder's destructor runs Finish, so a last clause without a
   * terminating 0 is not yet counted.
   */
  function ClauseCountWarnedAsWritten(h: Header, before: nat, f: Fed): bool
  {
    h.clauses != before + |f.closed|
  }

  /** The clause-count warning once the builder has finished: the preamble disagrees with the clauses loaded. */
  function ClauseCountWarned(h: Header, before: nat, f: Fed): bool
  {
    h.clauses != before + |Finished(f)|
  }

  // ---------------------------------------------------------------------
  // Reading back what the formatter writes.

  predicate InInt64Range(cs: seq<Clause>)
  {
    forall i, k :: 0 <= i < |cs| && 0 <= k < |cs[i].literals| ==> Int64Min <= cs[i].literals[k] <= Int64Max
  }

  /** Every clause's literals followed by the terminator 0. */
  function Flat(cs: seq<Clause>): (ts: seq<int>)
    ensures cs != [] ==> ts != [] && ts[|ts| - 1] == 0
  {
    if cs == [] then [] else cs[0].literals + [0] + Flat(cs[1..])
  }

  /** What follows a token in a formatted formula: a blank after a literal, a newline after a terminator. */
  function Separator(t: int): char
  {
    if t == 0 then '\n' else ' '
  }

  /** Tokens written out, each followed by its separator except the last. */
  function Rendered(ts: seq<int>): string
  {
    if ts == [] then ""
    else if |ts| == 1 then IntText(ts[0])
    else IntText(ts[0]) + [Separator(ts[0])] + Rendered(ts[1..])
  }

  lemma {:induction false} FlatSnoc(cs: seq<Clause>, c: Clause)
    ensures Flat(cs + [c]) == Flat(cs) + c.literals + [0]
  {
    if cs != [] {
      assert (cs + [c])[1..] == cs[1..] + [c];
      FlatSnoc(cs[1..], c);
    } else {
      assert (cs + [c])[1..] == [];
    }
  }

  lemma {:induction false} RenderedLiterals(ls: seq<Literal>, more: seq<int>)
    ensures Rendered(ls + [0] + more) == LiteralsText(ls) + "0" + (if more == [] then "" else "\n" + Rendered(more))
  {
    var tail := if more == [] then "" else "\n" + Rendered(more);
    if ls == [] {
      RenderedTerminator(more, tail);
    } else {
      RenderedLiterals(ls[1..], more);
      RenderedLiteralsFirst(ls, more, tail);
    }
  }

  lemma RenderedLiteralsFirst(ls: seq<Literal>, more: seq<int>, tail: string)
    requires ls != [] && tail == if more == [] then "" else "\n" + Rendered(more)
    requires Rendered(ls[1..] + [0] + more) == LiteralsText(ls[1..]) + "0" + tail
    ensures Rendered(ls + [0] + more) == LiteralsText(ls) + "0" + tail
  {
    var l, rest := ls[0], ls[1..];
    assert ls == [l] + rest;
    RenderedLiteralsStep(l, rest, more, tail);
  }

  lemma RenderedLiteralsStep(l: Literal, ls: seq<Literal>, more: seq<int>, tail: string)
    requires tail == if more == [] then "" else "\n" + Rendered(more)
    requires Rendered(ls + [0] + more) == LiteralsText(ls) + "0" + tail
    ensures Rendered([l] + ls + [0] + more) == LiteralsText([l] + ls) + "0" + tail
  {
    var rest := ls + [0] + more;
    assert [l] + ls + [0] + more == [l] + rest;
    RenderedCons(l, rest);
    assert LiteralsText([l] + ls) == LiteralText(l) + " " + LiteralsText(ls) by {
      assert ([l] + ls)[1..] == ls;
    }
    Associative(IntText(l) + " ", LiteralsText(ls) + "0", tail);
    Associative(IntText(l) + " ", LiteralsText(ls), "0");
  }

  lemma RenderedCons(t: int, rest: seq<int>)
    requires rest != []
    ensures Rendered([t] + rest) == IntText(t) + [Separator(t)] + Rendered(rest)
  {
    assert ([t] + rest)[1..] == rest;
  }

  lemma RenderedTerminator(more: seq<int>, tail: string)
    requires tail == if more == [] then "" else "\n" + Rendered(more)
    ensures Rendered([] + [0] + more) == LiteralsText([]) + "0" + tail
  {
    var ts := [] + [0] + more;
    assert ts == [0] + more;
    ZeroText();
    if more == [] {
      assert Rendered(ts) == IntText(0);
    } else {
      assert ts[1..] == more;
      assert Rendered(ts) == IntText(0) + [Separator(0)] + Rendered(more);
    }
  }

  /** The terminator 0 is written as the single digit 0. */
  lemma ZeroText()
    ensures IntText(0) == "0"
  {
    assert DigitChar(0) == '0';
  }

  lemma Associative(x: string, y: string, z: string)
    ensures x + (y + z) == (x + y) + z
  {
  }

  /** A formatted clause list is the rendering of its flattened tokens. */
  lemma {:induction false} ClausesRendered(cs: seq<Clause>)
    ensures ClausesText(cs) == Rendered(Flat(cs))
  {
    if cs != [] {
      var c, rest := cs[0], cs[1..];
      assert cs == [c] + rest;
      ClausesRendered(rest);
      ClausesRenderedStep(c, rest);
    }
  }

  lemma ClausesRenderedStep(c: Clause, rest: seq<Clause>)
    requires ClausesText(rest) == Rendered(Flat(rest))
    ensures ClausesText([c] + rest) == Rendered(Flat([c] + rest))
  {
    assert ([c] + rest)[0] == c && ([c] + rest)[1..] == rest;
    RenderedLiterals(c.literals, Flat(rest));
    if rest == [] {
      assert Flat(rest) == [];
    }
  }

  lemma {:induction false} SkipSpaceTo(text: string, p: nat, p': nat)
    requires p <= p' <= |text| && forall k :: p <= k < p' ==> IsSpace(text[k])
    requires p' < |text| && !IsSpace(text[p'])
    ensures SkipSpace(text, p) == p'
    decreases p' - p
  {
    if p < p' {
      SkipSpaceTo(text, p + 1, p');
    }
  }

  /** Whitespace before a read is skipped. */
  lemma {:induction false} IntReadAfterSpace(text: string, p: nat, p': nat)
    requires p <= p' <= |text| && forall k :: p <= k < p' ==> IsSpace(text[k])
    ensures IntRead(text, p) == IntRead(text, p')
    decreases p' - p
  {
    if p < p' {
      IntReadAfterSpace(text, p + 1, p');
    }
  }

  /** A run of digits from i to e, followed by a non-digit or the end, is read as a whole. */
  lemma {:induction false} DigitsAt(text: string, i: nat, e: nat, acc: nat)
    requires i <= e <= |text| && AllDigits(text[i..e]) && (e < |text| ==> !IsDigit(text[e]))
    ensures Digits(text, i, acc) == (e, DigitsFrom(acc, text[i..e]))
    decreases e - i
  {
    if i < e {
      assert text[i..e][0] == text[i];
      assert text[i + 1..e] == text[i..e][1..];
      DigitsAt(text, i + 1, e, acc * 10 + DigitValue(text[i]));
    }
  }

  /** s is written in text from position p on. */
  predicate Occurs(text: string, p: nat, s: string)
  {
    p + |s| <= |text| && forall j :: 0 <= j < |s| ==> text[p + j] == s[j]
  }

  /** The digits of n at q, followed by a non-digit or the end, are read as n. */
  lemma DigitsOfNat(text: string, q: nat, n: nat)
    requires Occurs(text, q, NatText(n))
    requires q + |NatText(n)| < |text| ==> !IsDigit(text[q + |NatText(n)|])
    ensures Digits(text, q, 0) == (q + |NatText(n)|, n)
  {
    var s := NatText(n);
    assert text[q..q + |s|] == s;
    DigitsAt(text, q, q + |s|, 0);
    DigitsFromZero(s);
    NatTextRoundTrip(n);
  }

  /** A token IntText(x) after whitespace, followed by a non-digit or the end, is read as x. */
  lemma ReadToken(text: string, p: nat, p': nat, x: int)
    requires p <= p' && Occurs(text, p', IntText(x))
    requires forall k :: p <= k < p' ==> IsSpace(text[k])
    requires p' + |IntText(x)| < |text| ==> !IsDigit(text[p' + |IntText(x)|])
    requires Int64Min <= x <= Int64Max
    ensures var e := p' + |IntText(x)|; IntRead(text, p) == (x, StreamState(e, e == |text|, false))
  {
    IntReadAfterSpace(text, p, p');
    ReadNumber(text, p', x);
  }

  /** IntText(x) at p', followed by a non-digit or the end, is read as x. */
  lemma ReadNumber(text: string, p': nat, x: int)
    requires Occurs(text, p', IntText(x))
    requires p' + |IntText(x)| < |text| ==> !IsDigit(text[p' + |IntText(x)|])
    requires Int64Min <= x <= Int64Max
    ensures var e := p' + |IntText(x)|; IntRead(text, p') == (x, StreamState(e, e == |text|, false))
  {
    var q, m := SignAt(text, p', x);
    DigitsOfNat(text, q, m);
  }

  /** IntText(x) at p': a minus sign exactly when x is negative, then the digits of its magnitude. */
  lemma SignAt(text: string, p': nat, x: int) returns (q: nat, m: nat)
    requires Occurs(text, p', IntText(x))
    ensures p' < |text| && (text[p'] == '-' <==> x < 0) && (x >= 0 ==> IsDigit(text[p']))
    ensures q == (if x < 0 then p' + 1 else p') && m == (if x < 0 then -x else x)
    ensures Occurs(text, q, NatText(m)) && q + |NatText(m)| == p' + |IntText(x)|
  {
    var s := IntText(x);
    m := if x < 0 then -x else x;
    q := if x < 0 then p' + 1 else p';
    assert text[p'] == s[0];
    assert x >= 0 ==> IsDigit(s[0]);
    if x < 0 {
      forall j | 0 <= j < |NatText(m)|
        ensures text[q + j] == NatText(m)[j]
      {
        assert s[j + 1] == NatText(m)[j];
      }
    }
  }

  /** The first token of a rendering of ts[i..] that sits at position p' of a text, and what follows it. */
  lemma RenderedAt(text: string, p': nat, ts: seq<int>, i: nat)
    requires i < |ts| && p' <= |text| && text[p'..] == Rendered(ts[i..])
    ensures var e := p' + |IntText(ts[i])|;
      && Occurs(text, p', IntText(ts[i]))
      && (i + 1 == |ts| ==> e == |text|)
      && (i + 1 < |ts| ==> e < |text| && text[e] == Separator(ts[i]) && text[e + 1..] == Rendered(ts[i + 1..]))
  {
    assert ts[i..][0] == ts[i];
    if i + 1 == |ts| {
      SplitEnd(text, p', IntText(ts[i]));
    } else {
      assert ts[i..][1..] == ts[i + 1..];
      SplitAt(text, p', IntText(ts[i]), Separator(ts[i]), Rendered(ts[i + 1..]));
    }
  }

  lemma SplitAt(text: string, p': nat, a: string, c: char, b: string)
    requires p' <= |text| && text[p'..] == a + [c] + b
    ensures p' + |a| < |text| && Occurs(text, p', a) && text[p' + |a|] == c && text[p' + |a| + 1..] == b
  {
    forall j | 0 <= j < |a|
      ensures text[p' + j] == a[j]
    {
      assert text[p' + j] == text[p'..][j];
    }
    assert text[p' + |a|] == text[p'..][|a|];
    assert text[p' + |a| + 1..] == text[p'..][|a| + 1..];
  }

  lemma SplitEnd(text: string, p': nat, a: string)
    requires p' <= |text| && text[p'..] == a
    ensures p' + |a| == |text| && Occurs(text, p', a)
  {
    forall j | 0 <= j < |a|
      ensures text[p' + j] == a[j]
    {
      assert text[p' + j] == text[p'..][j];
    }
  }

  /** One good read is one accepted token. */
  lemma BodyStep(text: string, p: nat, x: int, e: nat)
    requires p <= |text| && IntRead(text, p) == (x, StreamState(e, false, false))
    ensures Body(text, StreamState(p, false, false)) == [x] + Body(text, StreamState(e, false, false))
  {
  }

  /** A read that leaves the stream not good ends the loop. */
  lemma BodyStop(text: string, p: nat)
    requires p <= |text| && (IntRead(text, p).1.eof || IntRead(text, p).1.fail)
    ensures Body(text, StreamState(p, false, false)) == []
  {
  }

  /** Where token k of a rendering of ts placed at p0 begins. */
  function Start(ts: seq<int>, p0: nat, k: nat): nat
    requires k <= |ts|
  {
    if k == 0 then p0 else Start(ts, p0, k - 1) + |IntText(ts[k - 1])| + 1
  }

  /** Where the loop reads token k from: p0 for the first, the separator before it for the others. */
  function ReadFrom(ts: seq<int>, p0: nat, k: nat): nat
    requires k <= |ts|
  {
    if k == 0 then p0 else Start(ts, p0, k) - 1
  }

  /**
   * Token k of ts, in the 64-bit range, is written at q and followed by
   * whitespace, or by the end of the text when it is the last.
   */
  predicate TokenAt(text: string, q: nat, ts: seq<int>, k: nat)
    requires k < |ts|
  {
    var e := q + |IntText(ts[k])|;
    && Int64Min <= ts[k] <= Int64Max && Occurs(text, q, IntText(ts[k]))
    && (if k + 1 == |ts| then e == |text| else e < |text| && IsSpace(text[e]))
  }

  /** A rendering of ts[i..] placed where token i belongs has every token from i on in its place. */
  lemma {:induction false} RenderedLayout(text: string, ts: seq<int>, p0: nat, i: nat)
    requires forall k :: i <= k < |ts| ==> Int64Min <= ts[k] <= Int64Max
    requires i < |ts| && Start(ts, p0, i) <= |text| && text[Start(ts, p0, i)..] == Rendered(ts[i..])
    ensures forall k :: i <= k < |ts| ==> TokenAt(text, Start(ts, p0, k), ts, k)
    decreases |ts| - i
  {
    RenderedStep(text, ts, p0, i);
    if i + 1 < |ts| {
      RenderedLayout(text, ts, p0, i + 1);
    }
  }

  /** Token i of a rendering placed at p0 is in its place, and the rendering of the rest starts where token i + 1 belongs. */
  lemma RenderedStep(text: string, ts: seq<int>, p0: nat, i: nat)
    requires i < |ts| && Int64Min <= ts[i] <= Int64Max
    requires Start(ts, p0, i) <= |text| && text[Start(ts, p0, i)..] == Rendered(ts[i..])
    ensures TokenAt(text, Start(ts, p0, i), ts, i)
    ensures i + 1 < |ts| ==> Start(ts, p0, i + 1) <= |text| && text[Start(ts, p0, i + 1)..] == Rendered(ts[i + 1..])
  {
    var q := Start(ts, p0, i);
    RenderedAt(text, q, ts, i);
    var e := q + |IntText(ts[i])|;
    if i + 1 < |ts| {
      assert IsSpace(text[e]);
      assert Start(ts, p0, i + 1) == e + 1;
    }
  }

  /** The loop over a rendering of ts placed at p accepts every token but the last. */
  lemma BodyOfRendered(text: string, p: nat, ts: seq<int>)
    requires forall k :: 0 <= k < |ts| ==> Int64Min <= ts[k] <= Int64Max
    requires ts != [] && p <= |text| && text[p..] == Rendered(ts)
    ensures Body(text, StreamState(p, false, false)) == ts[..|ts| - 1]
  {
    assert ts[0..] == ts;
    RenderedLayout(text, ts, p, 0);
    LayoutBody(text, ts, p);
  }

  lemma LayoutBody(text: string, ts: seq<int>, p: nat)
    requires p <= |text|
    requires ts != [] && forall k :: 0 <= k < |ts| ==> TokenAt(text, Start(ts, p, k), ts, k)
    ensures Body(text, StreamState(p, false, false)) == ts[..|ts| - 1]
  {
    var rs := seq(|ts|, k requires 0 <= k < |ts| => ReadFrom(ts, p, k));
    LayoutReads(text, ts, p, rs);
    BodyOfReads(text, ts, rs, 0);
    assert ts[0..|ts| - 1] == ts[..|ts| - 1];
  }

  /** Each token in its place is read from where the loop reads it, and the read stops where the next read starts. */
  lemma LayoutReads(text: string, ts: seq<int>, p0: nat, rs: seq<nat>)
    requires forall k :: 0 <= k < |ts| ==> TokenAt(text, Start(ts, p0, k), ts, k)
    requires |rs| == |ts| && forall k :: 0 <= k < |rs| ==> rs[k] == ReadFrom(ts, p0, k)
    ensures forall k :: 0 <= k < |ts| ==> (rs[k] <= |text| &&
      IntRead(text, rs[k]) == (ts[k], StreamState(if k + 1 < |ts| then rs[k + 1] else |text|, k + 1 == |ts|, false)))
  {
    forall k | 0 <= k < |ts|
      ensures rs[k] <= |text|
      ensures IntRead(text, rs[k]) == (ts[k], StreamState(if k + 1 < |ts| then rs[k + 1] else |text|, k + 1 == |ts|, false))
    {
      TokenRead(text, ts, p0, k);
    }
  }

  lemma TokenRead(text: string, ts: seq<int>, p0: nat, k: nat)
    requires k < |ts| && TokenAt(text, Start(ts, p0, k), ts, k)
    requires k > 0 ==> TokenAt(text, Start(ts, p0, k - 1), ts, k - 1)
    ensures ReadFrom(ts, p0, k) <= |text|
    ensures IntRead(text, ReadFrom(ts, p0, k)) == (ts[k], StreamState(if k + 1 < |ts| then ReadFrom(ts, p0, k + 1) else |text|, k + 1 == |ts|, false))
  {
    var q := Start(ts, p0, k);
    var r := ReadFrom(ts, p0, k);
    var x := ts[k];
    var e := q + |IntText(x)|;
    ReadFromBefore(text, ts, p0, k);
    assert Occurs(text, q, IntText(x)) && Int64Min <= x <= Int64Max;
    assert (e == |text|) == (k + 1 == |ts|);
    assert e < |text| ==> !IsDigit(text[e]);
    ReadToken(text, r, q, x);
  }

  /** The loop reads token k from just before it, over whitespace only, and the next read starts where it ends. */
  lemma ReadFromBefore(text: string, ts: seq<int>, p0: nat, k: nat)
    requires k < |ts| && TokenAt(text, Start(ts, p0, k), ts, k)
    requires k > 0 ==> TokenAt(text, Start(ts, p0, k - 1), ts, k - 1)
    ensures ReadFrom(ts, p0, k) <= Start(ts, p0, k)
    ensures forall j :: ReadFrom(ts, p0, k) <= j < Start(ts, p0, k) ==> IsSpace(text[j])
    ensures k + 1 < |ts| ==> ReadFrom(ts, p0, k + 1) == Start(ts, p0, k) + |IntText(ts[k])|
  {
    if k > 0 {
      SeparatorBefore(text, ts, p0, k);
    }
    if k + 1 < |ts| {
      NextReadFrom(ts, p0, k);
    }
  }

  /** The loop reads token k > 0 from the whitespace that ends token k - 1. */
  lemma SeparatorBefore(text: string, ts: seq<int>, p0: nat, k: nat)
    requires 0 < k < |ts| && TokenAt(text, Start(ts, p0, k - 1), ts, k - 1)
    ensures ReadFrom(ts, p0, k) + 1 == Start(ts, p0, k) && IsSpace(text[ReadFrom(ts, p0, k)])
  {
  }

  /** The next read starts right after token k. */
  lemma NextReadFrom(ts: seq<int>, p0: nat, k: nat)
    requires k + 1 < |ts|
    ensures ReadFrom(ts, p0, k + 1) == Start(ts, p0, k) + |IntText(ts[k])|
  {
  }

  /**
   * When every token k from i on is read from rs[k] and the read stops at
   * rs[k + 1], leaving the stream good, except that the last one runs into
   * the end of the text, the loop accepts every token from i on but the last.
   */
  lemma {:induction false} BodyOfReads(text: string, ts: seq<int>, rs: seq<nat>, i: nat)
    requires i < |ts| == |rs|
    requires forall k :: i <= k < |ts| ==> (rs[k] <= |text| &&
      IntRead(text, rs[k]) == (ts[k], StreamState(if k + 1 < |ts| then rs[k + 1] else |text|, k + 1 == |ts|, false)))
    ensures Body(text, StreamState(rs[i], false, false)) == ts[i..|ts| - 1]
    decreases |ts| - i
  {
    if i + 1 < |ts| {
      BodyOfReads(text, ts, rs, i + 1);
      assert [ts[i]] + ts[i + 1..|ts| - 1] == ts[i..|ts| - 1];
    }
  }

  lemma {:induction false} FeedLiterals(prefix: seq<int>, ls: seq<Literal>)
    requires Feed(prefix).newClause
    ensures Feed(prefix + ls) == Fed(Feed(prefix).closed, Members(ls), ls == [])
    decreases |ls|
  {
    if ls == [] {
      assert prefix + ls == prefix;
    } else {
      var init := ls[..|ls| - 1];
      FeedLiterals(prefix, init);
      FeedLiteralsStep(prefix, init, ls[|ls| - 1], Feed(prefix).closed);
      assert ls == init + [ls[|ls| - 1]];
    }
  }

  lemma FeedLiteralsStep(prefix: seq<int>, init: seq<Literal>, l: Literal, closed: seq<set<Literal>>)
    requires Feed(prefix + init) == Fed(closed, Members(init), init == [])
    ensures Feed(prefix + (init + [l])) == Fed(closed, Members(init + [l]), false)
  {
    FeedSnoc(prefix + init, l);
    MembersSnoc(init, l);
    assert prefix + (init + [l]) == (prefix + init) + [l];
  }

  lemma FeedSnoc(ts: seq<int>, t: int)
    ensures Feed(ts + [t]) == FeedStep(Feed(ts), t)
  {
    assert (ts + [t])[..|ts|] == ts;
  }

  /** Moving an accepted token from the tokens still to come to the tokens fed so far. */
  lemma TokenAccepted(ts: seq<int>, t: int, rest: seq<int>)
    ensures (ts + [t]) + rest == ts + ([t] + rest)
    ensures Feed(ts + [t]) == FeedStep(Feed(ts), t)
  {
    assert (ts + [t]) + rest == ts + ([t] + rest);
    FeedSnoc(ts, t);
  }

  lemma MembersSnoc(ls: seq<Literal>, l: Literal)
    ensures Members(ls + [l]) == Members(ls) + {l}
  {
  }

  /** Feeding whole clauses, each ended by 0, closes exactly their literal sets. */
  lemma {:induction false} FeedFlat(cs: seq<Clause>)
    ensures Feed(Flat(cs)) == Fed(Sets(cs), {}, true)
    decreases |cs|
  {
    if cs != [] {
      var init := cs[..|cs| - 1];
      var c := cs[|cs| - 1];
      assert cs == init + [c];
      FlatSnoc(init, c);
      FeedFlat(init);
      FeedLiterals(Flat(init), c.literals);
      assert Flat(cs)[..|Flat(cs)| - 1] == Flat(init) + c.literals;
      assert Sets(cs) == Sets(init) + [LiteralSet(c)];
    }
  }

  /** strtoull over whitespace and the digits of n, followed by a non-digit or the end, gives n. */
  lemma StrToULLOfNat(s: string, start: nat, p': nat, n: nat)
    requires n < U64 && start <= p' && p' + |NatText(n)| <= |s| && s[p'..p' + |NatText(n)|] == NatText(n)
    requires forall k :: start <= k < p' ==> IsSpace(s[k])
    requires p' + |NatText(n)| < |s| ==> !IsDigit(s[p' + |NatText(n)|])
    ensures StrToULL(s, start) == (n, p' + |NatText(n)|)
  {
    assert s[p'] == NatText(n)[0];
    SkipSpaceTo(s, start, p');
    DigitsOfNat(s, p', n);
  }

  /** The pieces of `p a b` (the text p, then a, a blank and b) sit where they were put. */
  lemma JoinedLayout(p: string, a: string, b: string)
    ensures var line := p + a + " " + b;
      && |line| == |p| + |a| + 1 + |b| && line[..|p|] == p
      && line[|p|..|p| + |a|] == a && line[|p| + |a|] == ' ' && line[|p| + |a| + 1..] == b
  {
    var line := p + a + " " + b;
    assert line[..|p|] == p;
    assert line[|p|..|p| + |a|] == a;
    assert line[|p| + |a| + 1..] == b;
  }

  /** No newline in the preamble line. */
  lemma PreambleNoNewline(numOfVariables: nat, clauses: nat)
    ensures var line := PreambleText(numOfVariables, clauses);
      forall k :: 0 <= k < |line| ==> line[k] != '\n'
  {
    var a, b := NatText(numOfVariables), NatText(clauses);
    var line := PreambleText(numOfVariables, clauses);
    JoinedLayout(Prefix, a, b);
    forall k | 0 <= k < |line|
      ensures line[k] != '\n'
    {
      if |Prefix| <= k < |Prefix| + |a| {
        assert line[k] == a[k - |Prefix|];
      } else if |Prefix| + |a| < k {
        assert line[k] == b[k - |Prefix| - |a| - 1];
      }
    }
  }

  /** The preamble line starts with the prefix, and strtoull reads its two counts back. */
  lemma PreambleHeader(numOfVariables: nat, clauses: nat)
    requires numOfVariables < U64 && clauses < U64
    ensures var line := PreambleText(numOfVariables, clauses);
      StartsWithPrefix(line) && HeaderOf(line) == Header(clauses, numOfVariables)
  {
    var a, b := NatText(numOfVariables), NatText(clauses);
    var line := PreambleText(numOfVariables, clauses);
    JoinedLayout(Prefix, a, b);
    var e := |Prefix| + |a|;
    StrToULLOfNat(line, |Prefix|, |Prefix|, numOfVariables);
    StrToULLOfNat(line, e, e + 1, clauses);
  }

  /** A text that opens with a newline-free preamble line reads that line's header and stops after its newline. */
  lemma PreambleOfLine(text: string, line: string)
    requires |line| < |text| && text[..|line|] == line && text[|line|] == '\n'
    requires forall k :: 0 <= k < |line| ==> line[k] != '\n'
    requires StartsWithPrefix(line)
    ensures Preamble(text, Fresh) == (Success(HeaderOf(line)), StreamState(|line| + 1, false, false))
  {
    FirstLineRead(text, line);
  }

  /** Reading the first line of a text that opens with a newline-free line and a newline. */
  lemma FirstLineRead(text: string, line: string)
    requires |line| < |text| && text[..|line|] == line && text[|line|] == '\n'
    requires forall k :: 0 <= k < |line| ==> line[k] != '\n'
    ensures LineRead(text, 0) == (line, StreamState(|line| + 1, false, false))
  {
    forall k | 0 <= k < |line|
      ensures text[k] != '\n'
    {
      assert text[k] == line[k];
    }
    LineEndAt(text, 0, |line|);
  }

  /** A line followed by a newline and the rest: the line is the text's head, then the newline. */
  lemma LineThenRest(line: string, rest: string)
    ensures var text := line + "\n" + rest;
      |line| < |text| && text[..|line|] == line && text[|line|] == '\n'
  {
    var text := line + "\n" + rest;
    assert text[..|line|] == line;
  }


  lemma {:induction false} LineEndAt(text: string, pos: nat, e: nat)
    requires pos <= e < |text| && text[e] == '\n' && forall k :: pos <= k < e ==> text[k] != '\n'
    ensures LineEnd(text, pos) == e
    decreases e - pos
  {
    if pos < e {
      LineEndAt(text, pos + 1, e);
    }
  }

  /** The tokens the loop accepts from a formatted, non-empty clause list: all but the final terminator. */
  lemma BodyOfFormatted(text: string, p: nat, cs: seq<Clause>)
    requires cs != [] && InInt64Range(cs) && p <= |text| && text[p..] == ClausesText(cs)
    ensures Body(text, StreamState(p, false, false)) == Flat(cs[..|cs| - 1]) + cs[|cs| - 1].literals
  {
    var ts := Flat(cs);
    ClausesRendered(cs);
    FlatInRange(cs);
    BodyOfRendered(text, p, ts);
    FlatAllButLast(cs);
  }

  /** The tokens of a clause list but the final terminator. */
  lemma FlatAllButLast(cs: seq<Clause>)
    requires cs != []
    ensures Flat(cs)[..|Flat(cs)| - 1] == Flat(cs[..|cs| - 1]) + cs[|cs| - 1].literals
  {
    var init := cs[..|cs| - 1];
    var c := cs[|cs| - 1];
    assert cs == init + [c];
    FlatSnoc(init, c);
  }

  /** What the builder holds after those tokens: every clause but the last closed, the last one open unless empty. */
  lemma FeedOfFormatted(cs: seq<Clause>)
    requires cs != []
    ensures var f := Feed(Flat(cs[..|cs| - 1]) + cs[|cs| - 1].literals);
      && f.closed == Sets(cs[..|cs| - 1])
      && (Length(cs[|cs| - 1]) > 0 ==> Finished(f) == Sets(cs))
  {
    var init := cs[..|cs| - 1];
    var c := cs[|cs| - 1];
    FeedFlat(init);
    FeedLiterals(Flat(init), c.literals);
    assert cs == init + [c];
    assert Sets(cs) == Sets(init) + [LiteralSet(c)];
  }

  /**
   * Formatting a formula whose last clause is not empty and loading the text
   * gives back the counts of the preamble and clauses with the same literal
   * sets, in order; the last clause is closed by Finish, because its
   * terminator ends the text and is dropped.
   */
  lemma FormatLoadRoundTrip(numOfVariables: nat, cs: seq<Clause>)
    requires numOfVariables < U64 && |cs| < U64 && InInt64Range(cs)
    requires cs != [] ==> Length(cs[|cs| - 1]) > 0
    ensures var r := Load(FormulaText(numOfVariables, cs));
      && r.Success? && r.value.0 == Header(|cs|, numOfVariables)
      && Finished(r.value.1) == Sets(cs)
      && (cs != [] ==> |r.value.1.closed| == |cs| - 1)
  {
    if cs == [] {
      LoadOfEmpty(numOfVariables);
    } else {
      LoadOfNonEmpty(numOfVariables, cs);
    }
  }
  lemma LoadOfEmpty(numOfVariables: nat)
    requires numOfVariables < U64
    ensures var r := Load(FormulaText(numOfVariables, []));
      && r.Success? && r.value.0 == Header(0, numOfVariables) && Finished(r.value.1) == []
  {
    LoadOfFormatted(numOfVariables, []);
    var text := FormulaText(numOfVariables, []);
    assert Body(text, StreamState(|PreambleText(numOfVariables, 0)| + 1, false, false)) == [];
  }
  lemma LoadOfNonEmpty(numOfVariables: nat, cs: seq<Clause>)
    requires numOfVariables < U64 && |cs| < U64 && InInt64Range(cs)
    requires cs != [] && Length(cs[|cs| - 1]) > 0
    ensures var r := Load(FormulaText(numOfVariables, cs));
      && r.Success? && r.value.0 == Header(|cs|, numOfVariables)
      && Finished(r.value.1) == Sets(cs) && |r.value.1.closed| == |cs| - 1
  {
    var head := PreambleText(numOfVariables, |cs|) + "\n";
    var text := FormulaText(numOfVariables, cs);
    LoadOfFormatted(numOfVariables, cs);
    BodyAfter(head, cs);
    LoadComposed(text, Header(|cs|, numOfVariables), Body(text, StreamState(|head|, false, false)), cs);
  }
  /** Once the loader's result is known to be the feed of the flattened clauses, it holds the clauses. */
  lemma LoadComposed(text: string, h: Header, tokens: seq<int>, cs: seq<Clause>)
    requires cs != [] && Length(cs[|cs| - 1]) > 0
    requires Load(text) == Success((h, Feed(tokens)))
    requires tokens == Flat(cs[..|cs| - 1]) + cs[|cs| - 1].literals
    ensures var r := Load(text);
      && r.Success? && r.value.0 == h && Finished(r.value.1) == Sets(cs) && |r.value.1.closed| == |cs| - 1
  {
    FeedOfFormatted(cs);
  }
  lemma LoadOfFormatted(numOfVariables: nat, cs: seq<Clause>)
    requires numOfVariables < U64 && |cs| < U64
    ensures var text := FormulaText(numOfVariables, cs);
      Load(text) == Success((Header(|cs|, numOfVariables), Feed(Body(text, StreamState(|PreambleText(numOfVariables, |cs|)| + 1, false, false)))))
  {
    PreambleLayout(numOfVariables, |cs|, ClausesText(cs), FormulaText(numOfVariables, cs));
    LoadOfLine(FormulaText(numOfVariables, cs), PreambleText(numOfVariables, |cs|), Header(|cs|, numOfVariables));
  }
  /** A text that opens with a preamble line and a newline has that line, free of newlines, as its first line. */
  lemma PreambleLayout(numOfVariables: nat, clauses: nat, rest: string, text: string)
    requires numOfVariables < U64 && clauses < U64
    requires text == PreambleText(numOfVariables, clauses) + "\n" + rest
    ensures var line := PreambleText(numOfVariables, clauses);
      && |line| < |text| && text[..|line|] == line && text[|line|] == '\n'
      && (forall k :: 0 <= k < |line| ==> line[k] != '\n')
      && StartsWithPrefix(line) && HeaderOf(line) == Header(clauses, numOfVariables)
  {
    var line := PreambleText(numOfVariables, clauses);
    PreambleNoNewline(numOfVariables, clauses);
    PreambleHeader(numOfVariables, clauses);
    LineThenRest(line, rest);
  }

  /** A text whose first line is a preamble line with counts h loads as h and the feed of what follows the line. */
  lemma LoadOfLine(text: string, line: string, h: Header)
    requires |line| < |text| && text[..|line|] == line && text[|line|] == '\n'
    requires forall k :: 0 <= k < |line| ==> line[k] != '\n'
    requires StartsWithPrefix(line) && HeaderOf(line) == h
    ensures Load(text) == Success((h, Feed(Body(text, StreamState(|line| + 1, false, false)))))
  {
    PreambleOfLine(text, line);
    LoadAfterPreamble(text, h, StreamState(|line| + 1, false, false));
  }
  /** A text whose preamble reads as h loads as h and the feed of the body that follows. */
  lemma LoadAfterPreamble(text: string, h: Header, st: StreamState)
    requires st.pos <= |text| && Preamble(text, Fresh) == (Success(h), st)
    ensures Load(text) == Success((h, Feed(Body(text, st))))
  {
  }

  lemma BodyAfter(head: string, cs: seq<Clause>)
    requires cs != [] && InInt64Range(cs)
    ensures Body(head + ClausesText(cs), StreamState(|head|, false, false)) == Flat(cs[..|cs| - 1]) + cs[|cs| - 1].literals
  {
    var text := head + ClausesText(cs);
    assert text[|head|..] == ClausesText(cs);
    BodyOfFormatted(text, |head|, cs);
  }

  lemma {:induction false} FlatInRange(cs: seq<Clause>)
    requires InInt64Range(cs)
    ensures forall k :: 0 <= k < |Flat(cs)| ==> Int64Min <= Flat(cs)[k] <= Int64Max
  {
    if cs != [] {
      assert InInt64Range(cs[1..]) by {
        forall i, k | 0 <= i < |cs[1..]| && 0 <= k < |cs[1..][i].literals|
          ensures Int64Min <= cs[1..][i].literals[k] <= Int64Max
        {
          assert cs[1..][i] == cs[i + 1];
        }
      }
      FlatInRange(cs[1..]);
    }
  }

  /**
   * Loaded back, a formatted formula with clauses always draws the
   * clause-count warning as the source computes it: its last clause is only
   * counted after the check.
   */
  lemma FormattedFormulaWarnsAsWritten(numOfVariables: nat, cs: seq<Clause>)
    requires numOfVariables < U64 && |cs| < U64 && InInt64Range(cs)
    requires cs != [] && Length(cs[|cs| - 1]) > 0
    ensures var r := Load(FormulaText(numOfVariables, cs));
      r.Success? && ClauseCountWarnedAsWritten(r.value.0, 0, r.value.1)
  {
    FormatLoadRoundTrip(numOfVariables, cs);
  }

  /** Counted after Finish, a formatted formula loads without a clause-count warning. */
  lemma FormattedFormulaNoWarning(numOfVariables: nat, cs: seq<Clause>)
    requires numOfVariables < U64 && |cs| < U64 && InInt64Range(cs)
    requires cs != [] ==> Length(cs[|cs| - 1]) > 0
    ensures var r := Load(FormulaText(numOfVariables, cs));
      r.Success? && !ClauseCountWarned(r.value.0, 0, r.value.1)
  {
    FormatLoadRoundTrip(numOfVariables, cs);
  }

  /** A comment line, as the formatter writes it, is skipped by the preamble scan. */
  lemma CommentSkipped(text: string, st: StreamState, s: string)
    requires st.pos + |s| + 3 <= |text| && !st.eof && !st.fail
    requires text[st.pos..st.pos + |s| + 3] == CommentText(s) + "\n"
    requires forall k :: 0 <= k < |s| ==> s[k] != '\n'
    ensures Preamble(text, st) == Preamble(text, StreamState(st.pos + |s| + 3, false, false))
  {
    var line := CommentText(s);
    var e := st.pos + |line|;
    var w := text[st.pos..st.pos + |s| + 3];
    assert text[st.pos..e] == w[..|line|] == line;
    assert !StartsWithPrefix(line) by {
      if |line| >= |Prefix| {
        assert line[..|Prefix|][0] == line[0];
      }
    }
    assert text[e] == w[|line|] == '\n';
    forall k | st.pos <= k < e
      ensures text[k] != '\n'
    {
      assert text[k] == line[k - st.pos];
      if k - st.pos >= 2 {
        assert line[k - st.pos] == s[k - st.pos - 2];
      }
    }
    LineEndAt(text, st.pos, e);
  }

  // ---------------------------------------------------------------------
  // The stream and the loader.

  class InputStream {
    const text: string
    var pos: nat
    var eof: bool
    var fail: bool

    ghost predicate Valid()
      reads this
    {
      pos <= |text|
    }

    function State(): StreamState
      reads this
    {
      StreamState(pos, eof, fail)
    }

    predicate Good()
      reads this
    {
      !eof && !fail
    }

    constructor (text: string)
      ensures Valid() && this.text == text && State() == Fresh
    {
      this.text := text;
      pos := 0;
      eof := false;
      fail := false;
    }

    /** std::getline. */
    method GetLine() returns (line: string)
      requires Valid() && Good()
      modifies this
      ensures Valid() && (line, State()) == LineRead(text, old(pos))
    {
      var e := pos;
      while e < |text| && text[e] != '\n'
        invariant pos <= e <= |text| && forall k :: pos <= k < e ==> text[k] != '\n'
        decreases |text| - e
      {
        e := e + 1;
      }
      if e < |text| {
        LineEndAt(text, pos, e);
      }
      line := text[pos..e];
      if e < |text| {
        pos := e + 1;
      } else {
        eof, fail := true, e == pos;
        pos := e;
      }
    }

    /** The run of digits from q on, and its value. */
    method ScanDigits(q: nat) returns (e: nat, magnitude: nat)
      requires q <= |text|
      ensures (e, magnitude) == Digits(text, q, 0)
    {
      e := q;
      magnitude := 0;
      while e < |text| && IsDigit(text[e])
        invariant q <= e <= |text| && Digits(text, e, magnitude) == Digits(text, q, 0)
        decreases |text| - e
      {
        magnitude := magnitude * 10 + DigitValue(text[e]);
        e := e + 1;
      }
    }

    /** operator>> into a 64-bit signed integer. */
    method ReadInt() returns (value: int)
      requires Valid() && Good()
      modifies this
      ensures Valid() && (value, State()) == IntRead(text, old(pos))
    {
      var p := pos;
      while p < |text| && IsSpace(text[p])
        invariant pos <= p <= |text| && IntRead(text, p) == IntRead(text, pos)
        decreases |text| - p
      {
        p := p + 1;
      }
      if p == |text| {
        pos, eof, fail := p, true, true;
        return 0;
      }
      var q := if text[p] == '-' || text[p] == '+' then p + 1 else p;
      var e, magnitude := ScanDigits(q);
      var v := if text[p] == '-' then -(magnitude as int) else magnitude;
      pos, eof := e, e == |text|;
      if e == q {
        fail := true;
        value := 0;
      } else if v > Int64Max {
        fail := true;
        value := Int64Max;
      } else if v < Int64Min {
        fail := true;
        value := Int64Min;
      } else {
        value := v;
      }
    }
  }

  class DimacsLoader {
    const input: InputStream

    constructor (input: InputStream)
      ensures this.input == input
    {
      this.input := input;
    }

    /** LoadInto(formula): ScanInput. */
    method LoadInto(formula: Formula) returns (r: Result<Warnings, Error>)
      requires input.Valid() && formula.Valid()
      modifies input, formula
      ensures input.Valid() && formula.Valid()
      ensures var (h, st) := Preamble(input.text, old(input.State()));
        && (h.Failure? ==> r == Failure(h.error) && formula.clauses == old(formula.clauses))
        && (h.Success? ==>
              var f := Feed(Body(input.text, st));
              && Loaded(old(formula.clauses), formula.clauses, Finished(f))
              && r == Success(Warnings(ClauseCountWarned(h.value, |old(formula.clauses)|, f), h.value.variables != formula.numOfVariables)))
    {
      r := ScanInput(formula);
    }

    /**
     * ScanInput: the preamble, then the token loop feeding a
     * FormulaBuilder, whose Finish closes a last clause that has no
     * terminating 0. The preamble's counts are compared with the formula
     * once the builder has finished (the source compares them before; see
     * ClauseCountWarnedAsWritten).
     */
    method ScanInput(formula: Formula) returns (r: Result<Warnings, Error>)
      requires input.Valid() && formula.Valid()
      modifies input, formula
      ensures input.Valid() && formula.Valid()
      ensures var (h, st) := Preamble(input.text, old(input.State()));
        && (h.Failure? ==> r == Failure(h.error) && formula.clauses == old(formula.clauses))
        && (h.Success? ==>
              var f := Feed(Body(input.text, st));
              && Loaded(old(formula.clauses), formula.clauses, Finished(f))
              && r == Success(Warnings(ClauseCountWarned(h.value, |old(formula.clauses)|, f), h.value.variables != formula.numOfVariables)))
    {
      var builder := new FormulaBuilder(formula);
      ghost var before := formula.clauses;
      var header := ScanPreamble();
      if header.Failure? {
        return Failure(header.error);
      }
      ghost var f := Feed(Body(input.text, input.State()));
      ScanClauses(builder);
      ghost var mid := formula.clauses;
      builder.Finish();
      LoadedFinish(before, mid, formula.clauses, f);
      r := Success(Warnings(header.value.clauses != |formula.clauses|, header.value.variables != formula.numOfVariables));
    }

    /** The line loop of ScanPreamble. */
    method ScanPreamble() returns (header: Result<Header, Error>)
      requires input.Valid()
      modifies input
      ensures input.Valid() && (header, input.State()) == Preamble(input.text, old(input.State()))
    {
      while input.Good()
        invariant input.Valid() && Preamble(input.text, input.State()) == Preamble(input.text, old(input.State()))
        decreases |input.text| - input.pos, if input.Good() then 1 else 0
      {
        var line := input.GetLine();
        if StartsWithPrefix(line) {
          var (variables, end) := StrToULL(line, |Prefix|);
          var (clauses, _) := StrToULL(line, end);
          return Success(Header(clauses, variables));
        } else if line != [] && line[0] != 'c' {
          return Failure(InvalidFormat);
        }
      }
      header := Failure(InvalidFormat);
    }

    /** The token loop of ScanInput. */
    method ScanClauses(builder: FormulaBuilder)
      requires input.Valid() && !input.fail && builder.Valid() && builder.newClause
      requires builder.formula != input as object
      modifies input, builder, builder.builder, builder.formula
      ensures input.Valid() && Holds(builder, old(builder.formula.clauses), Feed(Body(input.text, old(input.State()))))
    {
      ghost var all := Body(input.text, input.State());
      ghost var ts: seq<int> := [];
      ghost var before := builder.formula.clauses;
      while !input.eof
        invariant input.Valid() && !input.fail
        invariant ts + Body(input.text, input.State()) == all
        invariant Holds(builder, before, Feed(ts))
        decreases |input.text| - input.pos
      {
        ghost var st := input.State();
        var lit := input.ReadInt();
        if !input.Good() {
          BodyStop(input.text, st.pos);
          break;
        }
        BodyStep(input.text, st.pos, lit, input.pos);
        TokenAccepted(ts, lit, Body(input.text, input.State()));
        FeedToken(builder, before, Feed(ts), lit);
        ts := ts + [lit];
      }
      assert ts + [] == ts;
    }
  }
}
