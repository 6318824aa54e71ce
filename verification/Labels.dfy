/** Node labels: annotation, kind prefix, lane name and issue number. */
module Labels {
  import opened LaneNames

  predicate IsDigit(c: char) {
    '0' <= c <= '9'
  }

  function Digits(n: nat): string {
    (if n < 10 then "" else Digits(n / 10)) + ['0' + (n % 10) as char]
  }

  function Value(s: string): nat
    requires forall i :: 0 <= i < |s| ==> IsDigit(s[i])
  {
    if s == "" then 0 else
      assert IsDigit(s[|s| - 1]);
      Value(s[..|s| - 1]) * 10 + (s[|s| - 1] as int - '0' as int)
  }

  lemma {:induction false} ValueOfDigits(n: nat)
    ensures Digits(n) != "" && forall i :: 0 <= i < |Digits(n)| ==> IsDigit(Digits(n)[i])
    ensures Value(Digits(n)) == n
  {
    var front := if n < 10 then "" else Digits(n / 10);
    if n >= 10 {
      ValueOfDigits(n / 10);
    }
    assert Digits(n)[..|Digits(n)| - 1] == front;
  }

  function Label(annotation: string, lane: string, issue: nat): string {
    annotation + lane + Digits(issue)
  }

  /** The text does not run into a number that follows it. */
  predicate PlainEnd(s: string) {
    s == "" || !IsDigit(s[|s| - 1])
  }

  lemma NoShorterPrefix(a: string, m: nat, b: string, n: nat)
    requires PlainEnd(b) && a + Digits(m) == b + Digits(n)
    ensures |b| <= |a|
  {
    if b != "" {
      ValueOfDigits(m);
      var s := a + Digits(m);
      assert s[|b| - 1] == b[|b| - 1];
      assert forall i :: |a| <= i < |s| ==> s[i] == Digits(m)[i - |a|];
    }
  }

  /** A text that ends in a non-digit and a number determines the number. */
  lemma NumberIsDetermined(a: string, m: nat, b: string, n: nat)
    requires PlainEnd(a) && PlainEnd(b) && a + Digits(m) == b + Digits(n)
    ensures m == n
  {
    NoShorterPrefix(a, m, b, n);
    NoShorterPrefix(b, n, a, m);
    var s, t := a + Digits(m), b + Digits(n);
    assert s[|a|..] == Digits(m) && t[|b|..] == Digits(n);
    ValueOfDigits(m);
    ValueOfDigits(n);
  }

  /** Different issues never share a label, whatever their annotations and lanes. */
  lemma LabelsAreUnique(a: string, lane: string, m: nat, b: string, other: string, n: nat)
    requires IsName(lane) && (lane != "" || PlainEnd(a)) && IsName(other) && (other != "" || PlainEnd(b))
    requires Label(a, lane, m) == Label(b, other, n)
    ensures m == n
  {
    var x, y := a + lane, b + other;
    assert lane != "" ==> x[|x| - 1] == lane[|lane| - 1];
    assert other != "" ==> y[|y| - 1] == other[|other| - 1];
    assert lane == "" ==> x == a;
    assert other == "" ==> y == b;
    NumberIsDetermined(x, m, y, n);
  }

  /** A decimal number without leading zeros. */
  predicate IsNumber(s: string) {
    && s != "" && (forall i :: 0 <= i < |s| ==> IsDigit(s[i]))
    && (s[0] == '0' ==> |s| == 1)
  }

  lemma DigitsSnoc(high: nat, c: char)
    requires IsDigit(c) && high > 0
    ensures Digits(high * 10 + (c as int - '0' as int)) == Digits(high) + [c]
  {
    var low := c as int - '0' as int;
    assert (high * 10 + low) / 10 == high && (high * 10 + low) % 10 == low;
  }

  /** Numbers without leading zeros are exactly the printed ones. */
  lemma {:induction false} DigitsOfValue(s: string)
    requires IsNumber(s)
    ensures Digits(Value(s)) == s && (s != "0" ==> Value(s) > 0)
  {
    hide Digits;
    var front := s[..|s| - 1];
    if front == "" {
      assert s == [s[0]];
      DigitOfOne(s[0]);
    } else {
      assert IsNumber(front) && front != "0" by { assert front[0] == s[0]; }
      DigitsOfValue(front);
      DigitsSnoc(Value(front), s[|s| - 1]);
      assert s == front + [s[|s| - 1]];
    }
  }

  lemma DigitOfOne(c: char)
    requires IsDigit(c)
    ensures Digits(c as int - '0' as int) == [c]
  {
  }

  lemma {:induction false} DigitsAreNumber(n: nat)
    ensures IsNumber(Digits(n)) && (n > 0 ==> Digits(n)[0] != '0')
  {
    if n >= 10 {
      DigitsAreNumber(n / 10);
    }
  }
}
