/** Digit strings: how a number is printed in decimal or hexadecimal, and what a digit string denotes. */
module Numerals {
  import opened Wrappers

  function Times(n: int, hex: bool): int {
    if hex then 16 * n else 10 * n
  }

  function DigitChar(d: nat): char
    requires d < 16
  {
    "0123456789abcdef"[d]
  }

  /** The value of a digit; letters count in hexadecimal only, in either case. */
  function DigitValue(c: char, hex: bool): (d: Option<nat>)
    ensures d.Some? ==> d.value < 16 && (!hex ==> d.value < 10)
  {
    if '0' <= c <= '9' then Some(c as nat - '0' as nat)
    else if hex && 'a' <= c <= 'f' then Some(c as nat - 'a' as nat + 10)
    else if hex && 'A' <= c <= 'F' then Some(c as nat - 'A' as nat + 10)
    else None
  }

  /** Most significant digit first, without leading zeros. */
  function Digits(n: nat, hex: bool): (s: string)
    ensures s != []
    decreases n
  {
    if hex then (if n < 16 then [DigitChar(n)] else Digits(n / 16, hex) + [DigitChar(n % 16)])
    else (if n < 10 then [DigitChar(n)] else Digits(n / 10, hex) + [DigitChar(n % 10)])
  }

  /** The number denoted by digits that follow those already worth `acc`. */
  function Numeral(s: string, hex: bool, acc: nat := 0): Option<nat>
    decreases s
  {
    if s == [] then Some(acc)
    else
      var d := DigitValue(s[0], hex);
      if d.None? then None else Numeral(s[1..], hex, Times(acc, hex) + d.value)
  }

  lemma {:induction false} NumeralAppend(s: string, c: char, hex: bool, acc: nat)
    ensures var n := Numeral(s, hex, acc); var d := DigitValue(c, hex);
            Numeral(s + [c], hex, acc) ==
            if n.Some? && d.Some? then Some(Times(n.value, hex) + d.value) else None
    decreases s
  {
    if s == [] {
      assert [] + [c] == [c];
      assert [c][1..] == [];
    } else {
      assert (s + [c])[1..] == s[1..] + [c];
      var d := DigitValue(s[0], hex);
      if d.Some? { NumeralAppend(s[1..], c, hex, Times(acc, hex) + d.value); }
    }
  }

  lemma DigitReadsBack(d: nat, hex: bool)
    requires d < if hex then 16 else 10
    ensures DigitValue(DigitChar(d), hex) == Some(d)
  {
  }

  /** Reading undoes printing. */
  lemma {:induction false} NumeralOfDigits(n: nat, hex: bool)
    ensures Numeral(Digits(n, hex), hex) == Some(n)
    decreases n
  {
    var base := if hex then 16 else 10;
    var c := DigitChar(n % base);
    DigitReadsBack(n % base, hex);
    if n < base {
      assert Digits(n, hex) == [c] && [c][1..] == [];
    } else {
      NumeralOfDigits(n / base, hex);
      NumeralAppend(Digits(n / base, hex), c, hex, 0);
      assert Times(n / base, hex) + n % base == n;
    }
  }

  /** Different numbers print differently. */
  lemma DigitsInjective(m: nat, n: nat, hex: bool)
    requires Digits(m, hex) == Digits(n, hex)
    ensures m == n
  {
    NumeralOfDigits(m, hex);
    NumeralOfDigits(n, hex);
  }

  predicate AllDigits(s: string) {
    forall i :: 0 <= i < |s| ==> '0' <= s[i] <= '9'
  }

  lemma {:induction false} DecimalIsDigits(n: nat)
    ensures AllDigits(Digits(n, false))
    decreases n
  {
    if n >= 10 { DecimalIsDigits(n / 10); }
  }

  /** A decimal number followed by anything that is not a digit can be told apart from it. */
  lemma {:induction false} DigitsThenDelimiter(s: string, t: string, x: string, y: string)
    requires AllDigits(s) && AllDigits(t)
    requires x == [] || !('0' <= x[0] <= '9')
    requires y == [] || !('0' <= y[0] <= '9')
    requires s + x == t + y
    ensures s == t && x == y
    decreases s
  {
    assert s == [] ==> s + x == x;
    assert t == [] ==> t + y == y;
    assert s != [] ==> (s + x)[0] == s[0];
    assert t != [] ==> (t + y)[0] == t[0];
    if s != [] && t != [] {
      assert (s + x)[1..] == s[1..] + x && (t + y)[1..] == t[1..] + y;
      DigitsThenDelimiter(s[1..], t[1..], x, y);
      assert s == [s[0]] + s[1..] && t == [t[0]] + t[1..];
    }
  }
}
