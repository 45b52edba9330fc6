/**
 * Decimal text: the strconv conversions through which AS numbers and interface
 * ids pass on their way into and out of string map keys.
 */
module Decimal {
  import opened Prelude

  const UINT64_LIMIT: nat := 0x1_0000_0000_0000_0000
  const INT64_LIMIT: nat := 0x8000_0000_0000_0000

  function DigitChar(d: nat): char
    requires d < 10
  {
    ['0', '1', '2', '3', '4', '5', '6', '7', '8', '9'][d]
  }

  predicate IsDigit(c: char) {
    '0' <= c <= '9'
  }

  predicate AllDigits(s: string) {
    forall i :: 0 <= i < |s| ==> IsDigit(s[i])
  }

  function DigitValue(c: char): (d: nat)
    requires IsDigit(c)
    ensures d < 10 && DigitChar(d) == c
  {
    if c == '0' then 0 else if c == '1' then 1 else if c == '2' then 2 else if c == '3' then 3
    else if c == '4' then 4 else if c == '5' then 5 else if c == '6' then 6 else if c == '7' then 7
    else if c == '8' then 8 else 9
  }

  /** strconv.FormatUint(n, 10). */
  function FormatUint(n: nat): string {
    if n < 10 then [DigitChar(n)] else FormatUint(n / 10) + [DigitChar(n % 10)]
  }

  /** strconv.Itoa(n). */
  function Itoa(n: int): string {
    if n < 0 then "-" + FormatUint(-n) else FormatUint(n)
  }

  /** The number a digit string denotes. */
  function Value(s: string): nat
    requires AllDigits(s)
  {
    if s == "" then 0 else Value(s[..|s| - 1]) * 10 + DigitValue(s[|s| - 1])
  }

  /** The number a string of digits denotes, if it is one. */
  function Digits(s: string): Option<nat> {
    if s == "" || !IsDigit(s[|s| - 1]) then None
    else if |s| == 1 then Some(DigitValue(s[0]))
    else match Digits(s[..|s| - 1]) case None => None case Some(v) => Some(v * 10 + DigitValue(s[|s| - 1]))
  }

  lemma {:induction false} DigitsIsValue(s: string)
    ensures Digits(s).Some? <==> s != "" && AllDigits(s)
    ensures Digits(s).Some? ==> Digits(s).value == Value(s)
  {
    if |s| == 1 {
      assert s[..0] == "";
    } else if s != "" {
      DigitsIsValue(s[..|s| - 1]);
      assert forall i :: 0 <= i < |s| ==> i == |s| - 1 || s[i] == s[..|s| - 1][i];
    }
  }

  /** strconv.Atoi on a 64-bit platform: optional sign, digits, range check. */
  function Atoi(s: string): Option<int> {
    if s == "" then None
    else
      match Digits(if s[0] == '-' || s[0] == '+' then s[1..] else s)
      case None => None
      case Some(v) =>
        var n: int := if s[0] == '-' then 0 - v else v;
        if 0 - INT64_LIMIT <= n < INT64_LIMIT then Some(n) else None
  }

  /** Printing and reading an int gives it back. */
  lemma {:induction false} AtoiOfItoa(n: int)
    requires 0 - INT64_LIMIT <= n < INT64_LIMIT
    ensures Atoi(Itoa(n)) == Some(n)
  {
    ItoaShape(n);
    DigitsIsValue(if n < 0 then Itoa(n)[1..] else Itoa(n));
    if n >= 0 { assert IsDigit(Itoa(n)[0]); }
  }

  /**
   * The first result of strconv.ParseUint(s, 10, 64) when the error is ignored:
   * 0 on a syntax error, the largest uint64 on a range error.
   */
  function ParseUint(s: string): nat {
    if s == "" || !AllDigits(s) then 0
    else if Value(s) < UINT64_LIMIT then Value(s) else UINT64_LIMIT - 1
  }

  /** Digits without a superfluous leading zero that fit in 64 bits. */
  predicate Canonical(s: string) {
    s != "" && AllDigits(s) && (|s| == 1 || s[0] != '0') && Value(s) < UINT64_LIMIT
  }

  lemma {:induction false} FormatShape(n: nat)
    ensures FormatUint(n) != "" && AllDigits(FormatUint(n))
    ensures n == 0 || FormatUint(n)[0] != '0'
    ensures Value(FormatUint(n)) == n
  {
    if n < 10 {
      assert FormatUint(n)[..0] == "";
    } else {
      FormatShape(n / 10);
      var s := FormatUint(n);
      assert s[..|s| - 1] == FormatUint(n / 10);
    }
  }

  /** FormatUint undoes Value exactly on digit strings without leading zeros. */
  lemma {:induction false} FormatOfValue(s: string)
    requires s != "" && AllDigits(s) && (|s| == 1 || s[0] != '0')
    ensures FormatUint(Value(s)) == s
    ensures s[0] != '0' ==> Value(s) > 0
  {
    var init := s[..|s| - 1];
    if |s| == 1 {
      assert Value(init) == 0;
      assert s == [s[0]];
    } else {
      FormatOfValue(init);
      var d := DigitValue(s[|s| - 1]);
      assert Value(s) / 10 == Value(init) && Value(s) % 10 == d;
      assert s == init + [s[|s| - 1]];
    }
  }

  /** Reading an interface id as a number and printing it back keeps it exactly when it is canonical. */
  lemma IfidRoundTrip(s: string)
    ensures FormatUint(ParseUint(s)) == s <==> Canonical(s)
  {
    FormatShape(ParseUint(s));
    if Canonical(s) {
      FormatOfValue(s);
    }
  }

  lemma {:induction false} ItoaShape(n: int)
    ensures Itoa(n) != "" && (n < 0 <==> Itoa(n)[0] == '-')
    ensures n < 0 ==> Itoa(n)[1..] == FormatUint(-n) && AllDigits(Itoa(n)[1..]) && Value(Itoa(n)[1..]) == -n
    ensures n >= 0 ==> AllDigits(Itoa(n)) && Value(Itoa(n)) == n
    ensures forall i :: 0 <= i < |Itoa(n)| ==> IsDigit(Itoa(n)[i]) || Itoa(n)[i] == '-'
  {
    if n < 0 { FormatShape(-n); } else { FormatShape(n); }
  }

  lemma {:induction false} ItoaInjective(a: int, b: int)
    requires Itoa(a) == Itoa(b)
    ensures a == b
  {
    ItoaShape(a);
    ItoaShape(b);
  }

  /** A key made of a number, a separator and a suffix determines both parts. */
  lemma {:induction false} KeyInjective(a: int, s: string, b: int, t: string, sep: char)
    requires !IsDigit(sep) && sep != '-'
    requires Itoa(a) + [sep] + s == Itoa(b) + [sep] + t
    ensures a == b && s == t
  {
    ItoaShape(a);
    ItoaShape(b);
    hide Itoa, Value;
    var x, m, n := Itoa(a) + [sep] + s, |Itoa(a)|, |Itoa(b)|;
    assert x[m] == sep && x[n] == sep;
    assert forall i :: 0 <= i < m ==> x[i] == Itoa(a)[i];
    assert forall i :: 0 <= i < n ==> x[i] == Itoa(b)[i];
    assert x[..m] == Itoa(a) && x[..n] == Itoa(b);
    ItoaInjective(a, b);
    assert x[m + 1..] == s && x[n + 1..] == t;
  }
}
