/** Decimal text of integers, as streams and `std::to_string` write it. */
module Decimal {

  predicate IsDigit(c: char) {
    '0' <= c <= '9'
  }

  predicate AllDigits(s: string) {
    forall i | 0 <= i < |s| :: IsDigit(s[i])
  }

  function Digit(d: nat): (c: char)
    requires d < 10
    ensures IsDigit(c) && DigitValue(c) == d
  {
    '0' + d as char
  }

  function DigitValue(c: char): nat
    requires IsDigit(c)
  {
    c as int - '0' as int
  }

  function Print(n: nat): (s: string)
    ensures AllDigits(s) && |s| > 0
  {
    if n < 10 then [Digit(n)] else Print(n / 10) + [Digit(n % 10)]
  }

  function Magnitude(i: int): nat {
    if i < 0 then -i else i
  }

  function PrintInt(i: int): string {
    (if i < 0 then "-" else "") + Print(Magnitude(i))
  }

  function Value(s: string): nat
    requires AllDigits(s)
  {
    if s == "" then 0 else 10 * Value(s[..|s| - 1]) + DigitValue(s[|s| - 1])
  }

  lemma {:induction false} ValueOfPrint(n: nat)
    ensures Value(Print(n)) == n
  {
    var s := Print(n);
    if n >= 10 {
      ValueOfPrint(n / 10);
      assert s[..|s| - 1] == Print(n / 10);
    } else {
      assert s[..|s| - 1] == "";
    }
  }

  /** Text that a number in front of it cannot run into. */
  predicate StartsOffDigit(s: string) {
    s == "" || !IsDigit(s[0])
  }

  lemma DigitRunsAgree(a: string, x: string, b: string, y: string)
    requires AllDigits(a) && AllDigits(b) && StartsOffDigit(x) && StartsOffDigit(y)
    requires a + x == b + y
    ensures |a| <= |b|
  {
    assert |b| < |a + x| ==> (a + x)[|b|] == (b + y)[|b|];
  }

  /** A printed number is uniquely decodable when no digit follows it. */
  lemma PrintDecodes(a: nat, x: string, b: nat, y: string)
    requires StartsOffDigit(x) && StartsOffDigit(y)
    requires Print(a) + x == Print(b) + y
    ensures a == b && x == y
  {
    DigitRunsAgree(Print(a), x, Print(b), y);
    DigitRunsAgree(Print(b), y, Print(a), x);
    assert Print(a) == (Print(a) + x)[..|Print(a)|] == (Print(b) + y)[..|Print(b)|] == Print(b);
    assert x == (Print(a) + x)[|Print(a)|..] == (Print(b) + y)[|Print(b)|..] == y;
    ValueOfPrint(a);
    ValueOfPrint(b);
  }

  lemma PrintIntDecodes(a: int, x: string, b: int, y: string)
    requires StartsOffDigit(x) && StartsOffDigit(y)
    requires PrintInt(a) + x == PrintInt(b) + y
    ensures a == b && x == y
  {
    var s, t := PrintInt(a) + x, PrintInt(b) + y;
    SignShows(a, x);
    SignShows(b, y);
    PrintDecodes(Magnitude(a), x, Magnitude(b), y);
  }

  lemma SignShows(i: int, rest: string)
    ensures |PrintInt(i) + rest| > 0
    ensures (PrintInt(i) + rest)[0] == '-' <==> i < 0
    ensures (if i < 0 then (PrintInt(i) + rest)[1..] else PrintInt(i) + rest) == Print(Magnitude(i)) + rest
  {
    var n := Magnitude(i);
    assert IsDigit(Print(n)[0]);
    assert "" + Print(n) == Print(n);
    assert (PrintInt(i) + rest)[0] == PrintInt(i)[0];
    assert ("-" + Print(n) + rest)[1..] == Print(n) + rest;
  }
}
