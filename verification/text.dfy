/**
 * Decimal text of integers, shared by the formatters, the DIMACS loader and
 * the harness's output parser: how an integer is written, and how a run of
 * digits is read back.
 */
module Text {
  import opened Wrappers

  predicate IsDigit(c: char)
  {
    '0' <= c <= '9'
  }

  /** isspace in the C locale: blank, tab, newline, vertical tab, form feed, carriage return. */
  predicate IsSpace(c: char)
  {
    c == ' ' || c == '\t' || c == '\n' || c == '\U{0B}' || c == '\U{0C}' || c == '\r'
  }

  predicate AllDigits(s: string)
  {
    forall i :: 0 <= i < |s| ==> IsDigit(s[i])
  }

  function DigitChar(d: nat): (c: char)
    requires d < 10
    ensures IsDigit(c)
  {
    (d + '0' as int) as char
  }

  function DigitValue(c: char): (d: nat)
    requires IsDigit(c)
    ensures d < 10
  {
    c as int - '0' as int
  }

  /** The decimal digits of n, most significant first, without leading zeros. */
  function NatText(n: nat): (s: string)
    ensures |s| > 0 && AllDigits(s)
    ensures |s| > 1 ==> s[0] != '0'
  {
    if n < 10 then [DigitChar(n)] else NatText(n / 10) + [DigitChar(n % 10)]
  }

  /** The value of a run of decimal digits, most significant first. */
  function DigitsValue(s: string): nat
    requires AllDigits(s)
  {
    if s == [] then 0 else DigitsValue(s[..|s| - 1]) * 10 + DigitValue(s[|s| - 1])
  }

  /** The digits of s read left to right onto the value acc already read: acc * 10^|s| + DigitsValue(s). */
  function DigitsFrom(acc: nat, s: string): nat
    requires AllDigits(s)
    decreases |s|
  {
    if s == [] then acc else DigitsFrom(acc * 10 + DigitValue(s[0]), s[1..])
  }

  lemma {:induction false} DigitsFromSnoc(acc: nat, s: string, c: char)
    requires AllDigits(s) && IsDigit(c)
    ensures AllDigits(s + [c]) && DigitsFrom(acc, s + [c]) == DigitsFrom(acc, s) * 10 + DigitValue(c)
    decreases |s|
  {
    if s != [] {
      assert (s + [c])[1..] == s[1..] + [c];
      DigitsFromSnoc(acc * 10 + DigitValue(s[0]), s[1..], c);
    }
  }

  /** Reading left to right from 0 gives the value of the digits. */
  lemma {:induction false} DigitsFromZero(s: string)
    requires AllDigits(s)
    ensures DigitsFrom(0, s) == DigitsValue(s)
    decreases |s|
  {
    if s != [] {
      var init := s[..|s| - 1];
      assert s == init + [s[|s| - 1]];
      DigitsFromZero(init);
      DigitsFromSnoc(0, init, s[|s| - 1]);
    }
  }

  /** How an integer is written: a minus sign for a negative value, then its magnitude. */
  function IntText(x: int): (s: string)
    ensures |s| > 0 && (s[0] == '-' <==> x < 0)
  {
    if x < 0 then "-" + NatText(-x) else NatText(x)
  }

  /** The text of an integer holds no whitespace. */
  lemma IntTextNoSpace(x: int)
    ensures forall i :: 0 <= i < |IntText(x)| ==> !IsSpace(IntText(x)[i])
  {
    var s := IntText(x);
    forall i | 0 <= i < |s|
      ensures !IsSpace(s[i])
    {
      if x < 0 && i > 0 {
        assert s[i] == NatText(-x)[i - 1];
      }
    }
  }

  /** Reading the digits of NatText(n) gives n back. */
  lemma {:induction false} NatTextRoundTrip(n: nat)
    ensures DigitsValue(NatText(n)) == n
  {
    if n >= 10 {
      var s := NatText(n);
      assert s[..|s| - 1] == NatText(n / 10);
      NatTextRoundTrip(n / 10);
    }
  }

  /** An optional sign followed by at least one digit, read as an integer. */
  function SignedValue(s: string): (r: Option<int>)
    ensures r.Some? <==> (|s| > 0 && AllDigits(s)) || (|s| > 1 && (s[0] == '-' || s[0] == '+') && AllDigits(s[1..]))
  {
    if |s| > 0 && AllDigits(s) then Some(DigitsValue(s))
    else if |s| > 1 && s[0] == '-' && AllDigits(s[1..]) then Some(-(DigitsValue(s[1..]) as int))
    else if |s| > 1 && s[0] == '+' && AllDigits(s[1..]) then Some(DigitsValue(s[1..]))
    else None
  }

  /** Reading IntText(x) as a signed integer gives x back, so IntText is one-to-one. */
  lemma IntTextRoundTrip(x: int)
    ensures SignedValue(IntText(x)) == Some(x)
  {
    if x < 0 {
      NatTextRoundTrip(-x);
      assert IntText(x)[1..] == NatText(-x);
    } else {
      NatTextRoundTrip(x);
    }
  }

  /** The first position at or after i that holds whitespace, or |s| when there is none. */
  function WordEnd(s: string, i: nat): (e: nat)
    requires i <= |s|
    ensures i <= e <= |s| && (e < |s| ==> IsSpace(s[e]))
    ensures forall k :: i <= k < e ==> !IsSpace(s[k])
    decreases |s| - i
  {
    if i == |s| || IsSpace(s[i]) then i else WordEnd(s, i + 1)
  }

  /** The maximal runs of non-whitespace characters of s, in order. */
  function Words(s: string): (ws: seq<string>)
    ensures forall k :: 0 <= k < |ws| ==> |ws[k]| > 0 && forall j :: 0 <= j < |ws[k]| ==> !IsSpace(ws[k][j])
    decreases |s|
  {
    if s == [] then []
    else if IsSpace(s[0]) then Words(s[1..])
    else
      var e := WordEnd(s, 0);
      [s[..e]] + Words(s[e..])
  }

  /** A word followed by whitespace or by nothing is the first word. */
  lemma WordsPrefix(w: string, rest: string)
    requires |w| > 0 && forall j :: 0 <= j < |w| ==> !IsSpace(w[j])
    requires rest == [] || IsSpace(rest[0])
    ensures Words(w + rest) == [w] + Words(rest)
  {
    var s := w + rest;
    WordEndOfPrefix(w, rest, 0);
    assert s[..|w|] == w && s[|w|..] == rest;
  }

  lemma WordEndOfPrefix(w: string, rest: string, i: nat)
    requires i <= |w| && forall j :: 0 <= j < |w| ==> !IsSpace(w[j])
    requires rest == [] || IsSpace(rest[0])
    ensures WordEnd(w + rest, i) == |w|
    decreases |w| - i
  {
    if i < |w| {
      assert (w + rest)[i] == w[i];
      WordEndOfPrefix(w, rest, i + 1);
    } else if rest != [] {
      assert (w + rest)[i] == rest[0];
    }
  }
}
