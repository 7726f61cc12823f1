/** Reading option texts into typed values: the modular integer reader, the boolean words and the
    comma-separated lists (lib/cxxopts.hpp:470-732). */
module OptionValues {
  import opened Wrappers
  import opened Numerals

  datatype Width = W8 | W16 | W32 | W64
  {
    function Modulus(): (m: int)
      ensures m >= 256 && m % 2 == 0
    {
      match this
      case W8 => 0x100
      case W16 => 0x1_0000
      case W32 => 0x1_0000_0000
      case W64 => 0x1_0000_0000_0000_0000
    }
  }

  datatype Kind = Flag | Text | Integer(signed: bool, width: Width)
  datatype Value = Bool(b: bool) | Str(s: string) | Int(i: int)

  predicate IsAlnum(c: char) {
    '0' <= c <= '9' || 'a' <= c <= 'z' || 'A' <= c <= 'Z'
  }

  /** Each width is twice the one before, and the first is eight bits. */
  lemma Widths()
    ensures W8.Modulus() == 2 * 2 * 2 * 2 * 2 * 2 * 2 * 2
    ensures W16.Modulus() == W8.Modulus() * W8.Modulus()
    ensures W32.Modulus() == W16.Modulus() * W16.Modulus()
    ensures W64.Modulus() == W32.Modulus() * W32.Modulus()
  {
  }

  // ----- Integers ---------------------------------------------------------------

  /** The values of an integer type. */
  predicate Representable(v: int, signed: bool, width: Width) {
    var m := width.Modulus();
    if signed then -(m / 2) <= v < m / 2 else 0 <= v < m
  }

  /** The digit loop: unsigned arithmetic modulo 2^width, which stops when a step makes the result
      smaller. */
  function Accumulate(s: string, hex: bool, m: int, acc: nat): (r: Option<nat>)
    requires m > 0 && acc < m
    ensures r.Some? ==> r.value < m
    decreases s
  {
    if s == [] then Some(acc)
    else
      var d := DigitValue(s[0], hex);
      if d.None? then None
      else
        var next := (Times(acc, hex) + d.value) % m;
        if acc > next then None else Accumulate(s[1..], hex, m, next)
  }

  /** checked_negate for a signed type: `-static_cast<R>(t-1)-1`. */
  function CheckedNegate(t: int, m: int): int
    requires m > 0
  {
    var u := (t - 1) % m;
    -(if u < m / 2 then u else u - m) - 1
  }

  function RangeChecked(negative: bool, n: nat, signed: bool, m: int): Option<int>
    requires m > 0
  {
    if signed then
      if n > (if negative then m / 2 else m / 2 - 1) then None
      else if negative then Some(CheckedNegate(n, m)) else Some(n)
    else
      if negative then None else Some(n)
  }

  /** How the pattern (-)?(0x)?([0-9a-zA-Z]+) splits a text: sign, hexadecimal prefix, digits. The other
      alternative of the pattern, ((0x)?0), only matches texts this one matches first. */
  function Split(text: string): Option<(bool, bool, string)> {
    if text != [] && text[0] == '-' then SplitBody(true, text[1..]) else SplitBody(false, text)
  }

  function SplitBody(negative: bool, body: string): Option<(bool, bool, string)> {
    if body == [] || exists c <- body :: !IsAlnum(c) then None
    else if |body| > 2 && body[..2] == "0x" then Some((negative, true, body[2..]))
    else Some((negative, false, body))
  }

  /** The meaning of integer_parser; None is its exception. */
  function ReadInteger(text: string, signed: bool, width: Width): Option<int> {
    var parts := Split(text);
    if parts.None? then None
    else
      var (negative, hex, digits) := parts.value;
      var n := Accumulate(digits, hex, width.Modulus(), 0);
      if n.None? then None else RangeChecked(negative, n.value, signed, width.Modulus())
  }

  /** integer_parser as the loop it is. */
  method IntegerParser(text: string, signed: bool, width: Width) returns (r: Option<int>)
    ensures r == ReadInteger(text, signed, width)
  {
    var parts := Split(text);
    if parts.None? { return None; }
    var (negative, hex, digits) := parts.value;
    var m := width.Modulus();
    var result := 0;
    for i := 0 to |digits|
      invariant 0 <= result < m
      invariant Accumulate(digits[i..], hex, m, result) == Accumulate(digits, hex, m, 0)
    {
      assert digits[i..][1..] == digits[i + 1..];
      var digit := DigitValue(digits[i], hex);
      if digit.None? { return None; }
      var next := (Times(result, hex) + digit.value) % m;
      if result > next { return None; }
      result := next;
    }
    return RangeChecked(negative, result, signed, m);
  }

  lemma ModUnique(x: int, m: int, q: int, r: int)
    requires m > 0 && x == q * m + r && 0 <= r < m
    ensures x % m == r
  {
    var k := x / m - q;
    assert x == (x / m) * m + x % m;
    assert k * m == r - x % m by {
      assert k * m == (x / m) * m - q * m;
    }
    assert k >= 1 ==> k * m >= m;
    assert k <= -1 ==> k * m <= -m;
  }

  /** Reducing the accumulator first does not change a step modulo m. */
  lemma StepModulo(a: int, b: int, hex: bool, d: int, m: int)
    requires m > 0 && a % m == b % m
    ensures (Times(a, hex) + d) % m == (Times(b, hex) + d) % m
  {
    var base := if hex then 16 else 10;
    var y := Times(b, hex) + d;
    var k := a / m - b / m;
    assert a - b == k * m by {
      assert a == (a / m) * m + a % m && b == (b / m) * m + b % m;
    }
    assert Times(a, hex) + d == (y / m + base * k) * m + y % m by {
      assert y == (y / m) * m + y % m;
      assert (y / m + base * k) * m == (y / m) * m + base * (k * m);
    }
    ModUnique(Times(a, hex) + d, m, y / m + base * k, y % m);
  }

  lemma NextCongruent(acc: nat, exact: nat, hex: bool, d: nat, m: int)
    requires m > 0 && acc % m == exact % m
    ensures var next := (Times(acc, hex) + d) % m;
            0 <= next < m && next % m == next && next % m == (Times(exact, hex) + d) % m
  {
    StepModulo(acc, exact, hex, d, m);
    var next := (Times(acc, hex) + d) % m;
    ModUnique(next, m, 0, next);
  }

  lemma AccumulateStep(s: string, hex: bool, m: int, acc: nat, exact: nat) returns (d: nat, next: nat)
    requires s != [] && m > 0 && acc < m && acc % m == exact % m && Accumulate(s, hex, m, acc).Some?
    ensures DigitValue(s[0], hex) == Some(d) && next < m && next % m == (Times(exact, hex) + d) % m
    ensures Accumulate(s[1..], hex, m, next) == Accumulate(s, hex, m, acc)
  {
    d := DigitValue(s[0], hex).value;
    next := (Times(acc, hex) + d) % m;
    NextCongruent(acc, exact, hex, d, m);
  }

  /** Whatever wraps go unnoticed, an accepted accumulator is the numeral modulo 2^width. */
  lemma {:induction false} AccumulateCongruent(s: string, hex: bool, m: int, acc: nat, exact: nat)
    requires m > 0 && acc < m && acc % m == exact % m
    requires Accumulate(s, hex, m, acc).Some?
    ensures Numeral(s, hex, exact).Some?
    ensures Accumulate(s, hex, m, acc).value == Numeral(s, hex, exact).value % m
    decreases s
  {
    if s != [] {
      var d, next := AccumulateStep(s, hex, m, acc, exact);
      AccumulateCongruent(s[1..], hex, m, next, Times(exact, hex) + d);
    } else {
      ModUnique(acc, m, 0, acc);
    }
  }

  lemma {:induction false} NumeralGrows(s: string, hex: bool, acc: nat)
    requires Numeral(s, hex, acc).Some?
    ensures acc <= Numeral(s, hex, acc).value
    decreases s
  {
    if s != [] {
      NumeralGrows(s[1..], hex, Times(acc, hex) + DigitValue(s[0], hex).value);
    }
  }

  /** A numeral that fits the unsigned type accumulates to itself. */
  lemma {:induction false} AccumulateExact(s: string, hex: bool, m: int, acc: nat)
    requires Numeral(s, hex, acc).Some? && Numeral(s, hex, acc).value < m
    ensures acc < m && Accumulate(s, hex, m, acc) == Numeral(s, hex, acc)
    decreases s
  {
    NumeralGrows(s, hex, acc);
    if s != [] {
      var next := Times(acc, hex) + DigitValue(s[0], hex).value;
      NumeralGrows(s[1..], hex, next);
      ModUnique(next, m, 0, next);
      AccumulateExact(s[1..], hex, m, next);
    }
  }

  /** The text of a signed numeral. */
  function Spell(negative: bool, hex: bool, digits: string): string {
    (if negative then "-" else "") + (if hex then "0x" else "") + digits
  }

  function Signed(negative: bool, n: int): int {
    if negative then -n else n
  }

  lemma {:induction false} NumeralIsAlnum(s: string, hex: bool, acc: nat)
    requires Numeral(s, hex, acc).Some?
    ensures forall c <- s :: IsAlnum(c)
    ensures !hex ==> AllDigits(s)
    decreases s
  {
    if s != [] {
      NumeralIsAlnum(s[1..], hex, Times(acc, hex) + DigitValue(s[0], hex).value);
    }
  }

  lemma SplitSpell(negative: bool, hex: bool, digits: string)
    requires digits != [] && Numeral(digits, hex).Some?
    ensures Split(Spell(negative, hex, digits)) == Some((negative, hex, digits))
  {
    NumeralIsAlnum(digits, hex, 0);
    var body := (if hex then "0x" else "") + digits;
    if hex {
      assert forall c <- body :: IsAlnum(c);
      assert body[..2] == "0x" && body[2..] == digits;
    } else {
      assert body == digits;
      assert |digits| > 2 ==> digits[..2][1] != "0x"[1];
    }
    assert SplitBody(negative, body) == Some((negative, hex, digits));
    assert body[0] in body && IsAlnum(body[0]);
    assert Spell(negative, hex, digits) == (if negative then ['-'] + body else body);
    assert (['-'] + body)[1..] == body;
  }

  const LOWER := "0123456789abcdef"
  const UPPER := "0123456789ABCDEF"

  /** The digits of each base; hexadecimal ones may be of either case. */
  lemma DigitValueIs(c: char, hex: bool, d: nat)
    ensures DigitValue(c, hex) == Some(d) <==> d < (if hex then 16 else 10) && (c == LOWER[d] || c == UPPER[d])
  {
  }

  /** The digits behind a prefix, or without one. */
  predicate IsBody(body: string, hex: bool, digits: string) {
    && body == (if hex then "0x" else "") + digits && digits != [] && (forall c <- digits :: IsAlnum(c))
    && (hex || |digits| <= 2 || digits[..2] != "0x")
  }

  lemma SplitBodyIff(negative: bool, body: string, hex: bool, digits: string)
    ensures SplitBody(negative, body) == Some((negative, hex, digits)) <==> IsBody(body, hex, digits)
  {
    if IsBody(body, hex, digits) {
      assert forall c <- body :: IsAlnum(c);
      if hex { assert body[..2] == "0x" && body[2..] == digits; } else { assert body == digits; }
    }
    if SplitBody(negative, body) == Some((negative, hex, digits)) {
      assert body == (if hex then "0x" else "") + digits by { if hex { assert body == body[..2] + body[2..]; } }
      assert forall c <- digits :: c in body;
    }
  }

  lemma BodyHasNoSign(body: string, hex: bool, digits: string)
    requires IsBody(body, hex, digits)
    ensures body[0] != '-'
  {
    assert hex ==> body[0] == "0x"[0];
    assert !hex ==> body[0] == digits[0] && digits[0] in digits;
  }

  /** A text is read as a sign, a base and digits exactly if it is spelled so. */
  lemma SplitIff(text: string, negative: bool, hex: bool, digits: string)
    ensures Split(text) == Some((negative, hex, digits)) <==>
              && text == Spell(negative, hex, digits) && digits != [] && (forall c <- digits :: IsAlnum(c))
              && (hex || |digits| <= 2 || digits[..2] != "0x")
  {
    var body := (if hex then "0x" else "") + digits;
    assert Spell(negative, hex, digits) == (if negative then ['-'] + body else body);
    SplitBodyIff(negative, body, hex, digits);
    if IsBody(body, hex, digits) {
      BodyHasNoSign(body, hex, digits);
      assert (['-'] + body)[1..] == body;
    }
    if Split(text) == Some((negative, hex, digits)) {
      var rest := if negative then text[1..] else text;
      SplitBodyIff(negative, rest, hex, digits);
      assert text == if negative then ['-'] + rest else rest;
    }
  }

  lemma NegateIsMinus(t: int, m: int)
    requires t >= 0 && m >= 2 && m % 2 == 0 && t <= m / 2
    ensures CheckedNegate(t, m) == -t
  {
    if t == 0 { ModUnique(-1, m, -1, m - 1); } else { ModUnique(t - 1, m, 0, t - 1); }
  }

  /** A numeral, in either base and with any leading zeros, is read as exactly its value if and only if
      that value is representable; for an unsigned type it must also carry no minus sign. */
  lemma ReadsExactlyWhenRepresentable(negative: bool, hex: bool, digits: string, signed: bool, width: Width)
    requires digits != [] && Numeral(digits, hex).Some?
    ensures var v := Signed(negative, Numeral(digits, hex).value);
            ReadInteger(Spell(negative, hex, digits), signed, width) == Some(v)
            <==> Representable(v, signed, width) && (negative ==> signed)
  {
    var n := Numeral(digits, hex).value;
    var m := width.Modulus();
    SplitSpell(negative, hex, digits);
    if n < m {
      AccumulateExact(digits, hex, m, 0);
      if signed && n <= m / 2 { NegateIsMinus(n, m); }
    } else {
      var r := Accumulate(digits, hex, m, 0);
      if r.Some? && signed && negative && r.value <= m / 2 { NegateIsMinus(r.value, m); }
    }
  }

  // ----- Which overflows are refused ----------------------------------------------

  /** What the loop does with one character. */
  function AccumulateOne(acc: nat, c: char, hex: bool, m: int): (r: Option<nat>)
    requires m > 0 && acc < m
    ensures r.Some? ==> r.value < m
  {
    var d := DigitValue(c, hex);
    if d.None? then None
    else
      var next := (Times(acc, hex) + d.value) % m;
      if acc > next then None else Some(next)
  }

  lemma AccumulateFirst(s: string, hex: bool, m: int, acc: nat)
    requires m > 0 && acc < m && s != []
    ensures var one := AccumulateOne(acc, s[0], hex, m);
            Accumulate(s, hex, m, acc) == if one.None? then None else Accumulate(s[1..], hex, m, one.value)
  {
  }

  lemma {:induction false} AccumulateAppend(s: string, c: char, hex: bool, m: int, acc: nat)
    requires m > 0 && acc < m
    ensures var r := Accumulate(s, hex, m, acc);
            Accumulate(s + [c], hex, m, acc) == if r.None? then None else AccumulateOne(r.value, c, hex, m)
    decreases s
  {
    AccumulateFirst(s + [c], hex, m, acc);
    if s == [] {
      assert (s + [c])[0] == c && (s + [c])[1..] == [];
    } else {
      assert (s + [c])[0] == s[0] && (s + [c])[1..] == s[1..] + [c];
      AccumulateFirst(s, hex, m, acc);
      var one := AccumulateOne(acc, s[0], hex, m);
      if one.Some? { AccumulateAppend(s[1..], c, hex, m, one.value); }
    }
  }

  /** With one digit more, the numeral's residue has not become smaller. */
  predicate RisesAt(digits: string, hex: bool, m: int, i: nat)
    requires m > 0 && i < |digits|
  {
    var n, next := Numeral(digits[..i], hex), Numeral(digits[..i + 1], hex);
    n.Some? && next.Some? && n.value % m <= next.value % m
  }

  /** The residues of the numerals of ever longer prefixes never become smaller. */
  predicate ResiduesRise(digits: string, hex: bool, m: int)
    requires m > 0
  {
    forall i :: 0 <= i < |digits| ==> RisesAt(digits, hex, m, i)
  }

  lemma RisesInPrefix(digits: string, hex: bool, m: int, i: nat)
    requires m > 0 && i < |digits| - 1
    ensures RisesAt(digits[..|digits| - 1], hex, m, i) <==> RisesAt(digits, hex, m, i)
  {
    var before := digits[..|digits| - 1];
    assert before[..i] == digits[..i] && before[..i + 1] == digits[..i + 1];
  }

  lemma LastResidue(digits: string, hex: bool, m: int)
    requires m > 0 && digits != []
    ensures ResiduesRise(digits, hex, m) <==>
              ResiduesRise(digits[..|digits| - 1], hex, m) && RisesAt(digits, hex, m, |digits| - 1)
  {
    var last := |digits| - 1;
    forall i | 0 <= i < last ensures RisesAt(digits[..last], hex, m, i) <==> RisesAt(digits, hex, m, i) {
      RisesInPrefix(digits, hex, m, i);
    }
  }

  /** The digit loop accepts a numeral if and only if the residues of its prefixes never become smaller. */
  lemma {:induction false} AccumulateIffRises(digits: string, hex: bool, m: int)
    requires m > 0 && Numeral(digits, hex).Some?
    ensures Accumulate(digits, hex, m, 0).Some? <==> ResiduesRise(digits, hex, m)
    decreases digits
  {
    if digits != [] {
      var last := |digits| - 1;
      var before, c := digits[..last], digits[last];
      assert digits == before + [c] && digits[..last + 1] == digits;
      NumeralAppend(before, c, hex, 0);
      AccumulateAppend(before, c, hex, m, 0);
      AccumulateIffRises(before, hex, m);
      LastResidue(digits, hex, m);
      if Accumulate(before, hex, m, 0).Some? { LastRises(before, c, hex, m); }
    }
  }

  lemma LastRises(before: string, c: char, hex: bool, m: int)
    requires m > 0 && Accumulate(before, hex, m, 0).Some? && DigitValue(c, hex).Some?
    ensures Numeral(before, hex).Some?
    ensures var acc, n := Accumulate(before, hex, m, 0).value, Numeral(before, hex).value;
            var d := DigitValue(c, hex).value;
            acc == n % m && (Times(acc, hex) + d) % m == (Times(n, hex) + d) % m
  {
    AccumulateCongruent(before, hex, m, 0, 0);
    var acc, n := Accumulate(before, hex, m, 0).value, Numeral(before, hex).value;
    ModUnique(acc, m, 0, acc);
    StepModulo(acc, n, hex, DigitValue(c, hex).value, m);
  }

  /** What a residue may be. */
  predicate InRange(residue: int, negative: bool, signed: bool, m: int) {
    if signed then residue <= (if negative then m / 2 else m / 2 - 1) else !negative
  }

  /** A numeral is accepted if and only if its prefixes' residues never become smaller and the last one is in the
      type's range, and is then read as that residue with its sign. */
  lemma AcceptedIffRises(negative: bool, hex: bool, digits: string, signed: bool, width: Width)
    requires digits != [] && Numeral(digits, hex).Some?
    ensures var m, residue := width.Modulus(), Numeral(digits, hex).value % width.Modulus();
            ReadInteger(Spell(negative, hex, digits), signed, width) ==
            if ResiduesRise(digits, hex, m) && InRange(residue, negative, signed, m)
               then Some(Signed(negative, residue))
            else None
  {
    var m := width.Modulus();
    SplitSpell(negative, hex, digits);
    AccumulateIffRises(digits, hex, m);
    if Accumulate(digits, hex, m, 0).Some? {
      AccumulateCongruent(digits, hex, m, 0, 0);
      var r := Accumulate(digits, hex, m, 0).value;
      if negative && r <= m / 2 { NegateIsMinus(r, m); }
    }
  }

  /** Every accepted text is read as its numeral modulo 2^width. */
  lemma ReadCongruent(text: string, signed: bool, width: Width)
    requires ReadInteger(text, signed, width).Some?
    ensures Split(text).Some?
    ensures var (negative, hex, digits) := Split(text).value;
            && Numeral(digits, hex).Some?
            && var v := ReadInteger(text, signed, width).value;
               && (v - Signed(negative, Numeral(digits, hex).value)) % width.Modulus() == 0
               && Representable(v, signed, width)
  {
    var (negative, hex, digits) := Split(text).value;
    var m := width.Modulus();
    AccumulateCongruent(digits, hex, m, 0, 0);
    var r, n := Accumulate(digits, hex, m, 0).value, Numeral(digits, hex).value;
    if negative { NegateIsMinus(r, m); }
    assert ReadInteger(text, signed, width).value == Signed(negative, r);
    SignedCongruent(negative, r, n, m);
  }

  lemma SignedCongruent(negative: bool, r: nat, n: nat, m: int)
    requires m > 0 && n % m == r
    ensures (Signed(negative, r) - Signed(negative, n)) % m == 0
  {
    var q := n / m;
    assert n == q * m + r;
    if negative { ModUnique(n - r, m, q, 0); } else { ModUnique(r - n, m, -q, 0); }
  }

  /** Not every overflow is noticed: an 8-bit unsigned option reads 300 as 44. */
  lemma WrapUnnoticed()
    ensures ReadInteger("300", false, W8) == Some(44)
  {
    assert "300"[1..] == "00" && "00"[1..] == "0" && "0"[1..] == "";
    assert Accumulate("0", false, 256, 30) == Some(44);
    assert Accumulate("00", false, 256, 3) == Some(44);
  }

  /** Printing a value in decimal or hexadecimal. */
  function PrintInteger(v: int, hex: bool): string {
    Spell(v < 0, hex, Digits(if v < 0 then -v else v, hex))
  }

  /** Every representable value, the most negative one included, reads back as itself. */
  lemma PrintReadsBack(v: int, hex: bool, signed: bool, width: Width)
    requires Representable(v, signed, width)
    ensures ReadInteger(PrintInteger(v, hex), signed, width) == Some(v)
  {
    var n := if v < 0 then -v else v;
    NumeralOfDigits(n, hex);
    ReadsExactlyWhenRepresentable(v < 0, hex, Digits(n, hex), signed, width);
  }

  lemma ZeroReads(signed: bool, width: Width)
    ensures ReadInteger("0", signed, width) == Some(0)
  {
    PrintReadsBack(0, false, signed, width);
    assert PrintInteger(0, false) == "0";
  }

  // ----- Values and lists ---------------------------------------------------------

  function ReadFlag(text: string): Option<bool> {
    if text in {"t", "T", "true", "True", "1"} then Some(true)
    else if text in {"f", "F", "false", "False", "0"} then Some(false)
    else None
  }

  /** A truth value is 1 or 0, or the word or its first letter, which may be a capital. */
  lemma FlagWords(text: string)
    ensures ReadFlag(text) == Some(true) <==> text == "1" || (text != [] && text[0] in "tT" && text[1..] in {"", "rue"})
    ensures ReadFlag(text) == Some(false)
            <==> text == "0" || (text != [] && text[0] in "fF" && text[1..] in {"", "alse"})
  {
    assert ['t'] + "rue" == "true" && ['T'] + "rue" == "True" && ['f'] + "alse" == "false" && ['F'] + "alse" == "False";
    assert ['t'] + "" == "t" && ['T'] + "" == "T" && ['f'] + "" == "f" && ['F'] + "" == "F";
    assert forall c :: c in "tT" <==> c == 't' || c == 'T';
    assert forall c :: c in "fF" <==> c == 'f' || c == 'F';
    Word(text, 't', "");
    Word(text, 'T', "");
    Word(text, 't', "rue");
    Word(text, 'T', "rue");
    Word(text, 'f', "");
    Word(text, 'F', "");
    Word(text, 'f', "alse");
    Word(text, 'F', "alse");
  }

  lemma Word(text: string, c: char, rest: string)
    ensures text == [c] + rest <==> text != [] && text[0] == c && text[1..] == rest
  {
    assert text != [] ==> text == [text[0]] + text[1..];
    assert ([c] + rest)[1..] == rest;
  }

  function ReadValue(kind: Kind, text: string): Option<Value> {
    match kind
    case Flag => var b := ReadFlag(text); if b.Some? then Some(Bool(b.value)) else None
    case Text => Some(Str(text))
    case Integer(signed, width) =>
      var i := ReadInteger(text, signed, width);
      if i.Some? then Some(Int(i.value)) else None
  }

  /** The tokens std::getline delivers; nothing follows a final comma. */
  function Tokens(text: string): seq<string>
    decreases text
  {
    if text == [] then []
    else
      var n := TokenEnd(text);
      [text[..n]] + (if n < |text| then Tokens(text[n + 1..]) else [])
  }

  function TokenEnd(text: string): (n: nat)
    ensures n <= |text| && (n < |text| ==> text[n] == ',')
    ensures forall i :: 0 <= i < n ==> text[i] != ','
  {
    if text == [] || text[0] == ',' then 0 else 1 + TokenEnd(text[1..])
  }

  function ReadAll(kind: Kind, tokens: seq<string>): Option<seq<Value>> {
    if tokens == [] then Some([])
    else
      var head := ReadValue(kind, tokens[0]);
      var tail := ReadAll(kind, tokens[1..]);
      if head.Some? && tail.Some? then Some([head.value] + tail.value) else None
  }

  /** What is left to tokenise after the token that starts a text. */
  function AfterToken(text: string): string {
    var n := TokenEnd(text);
    if n < |text| then text[n + 1..] else []
  }

  lemma ReadAllStep(kind: Kind, text: string, done: seq<Value>)
    requires text != []
    ensures var v := ReadValue(kind, text[..TokenEnd(text)]);
            Appended(done, ReadAll(kind, Tokens(text))) ==
            if v.None? then None else Appended(done + [v.value], ReadAll(kind, Tokens(AfterToken(text))))
  {
    var head, rest := text[..TokenEnd(text)], Tokens(AfterToken(text));
    assert Tokens(text) == [head] + rest;
    ReadAllCons(kind, head, rest, done);
  }

  lemma ReadAllCons(kind: Kind, head: string, rest: seq<string>, done: seq<Value>)
    ensures var v := ReadValue(kind, head);
            Appended(done, ReadAll(kind, [head] + rest)) ==
            if v.None? then None else Appended(done + [v.value], ReadAll(kind, rest))
  {
    assert ([head] + rest)[1..] == rest;
    var v, more := ReadValue(kind, head), ReadAll(kind, rest);
    if v.Some? && more.Some? {
      assert done + ([v.value] + more.value) == done + [v.value] + more.value;
    }
  }

  function Appended(done: seq<Value>, more: Option<seq<Value>>): Option<seq<Value>> {
    if more.Some? then Some(done + more.value) else None
  }

  /** parse_value for a vector: what the stream still holds and its end-of-file flag drive the loop. */
  method ParseList(kind: Kind, text: string, before: seq<Value>) returns (r: Option<seq<Value>>)
    ensures r == Appended(before, ReadAll(kind, Tokens(text)))
  {
    var values, left, eof := before, text, false;
    while !eof
      invariant eof ==> left == []
      invariant Appended(values, ReadAll(kind, Tokens(left))) == Appended(before, ReadAll(kind, Tokens(text)))
      decreases |left|, !eof
    {
      if left == [] { break; }
      var n := TokenEnd(left);
      ReadAllStep(kind, left, values);
      var v := ReadValue(kind, left[..n]);
      if v.None? { return None; }
      values := values + [v.value];
      eof := n == |left|;
      left := AfterToken(left);
    }
    assert Tokens([]) == [] && values + [] == values;
    return Some(values);
  }

  function Join(parts: seq<string>): string {
    if parts == [] then []
    else if |parts| == 1 then parts[0]
    else parts[0] + [','] + Join(parts[1..])
  }

  lemma {:induction false} TokenEndAt(part: string, rest: string)
    requires ',' !in part && (rest == [] || rest[0] == ',')
    ensures TokenEnd(part + rest) == |part|
    decreases part
  {
    if part == [] {
      assert part + rest == rest;
    } else {
      assert (part + rest)[1..] == part[1..] + rest;
      TokenEndAt(part[1..], rest);
    }
  }

  lemma TokensOfPart(part: string, rest: string)
    requires ',' !in part
    ensures part != [] ==> Tokens(part) == [part]
    ensures Tokens(part + [','] + rest) == [part] + Tokens(rest)
  {
    TokenEndAt(part, []);
    assert part + [] == part;
    TokenEndAt(part, [','] + rest);
    var text := part + [','] + rest;
    assert text == part + ([','] + rest);
    assert text[..|part|] == part && text[|part| + 1..] == rest;
  }

  /** Joining comma-free parts, the last not empty, and splitting again gives the parts. */
  lemma {:induction false} TokensOfJoin(parts: seq<string>)
    requires forall p <- parts :: ',' !in p
    requires parts != [] ==> parts[|parts| - 1] != []
    ensures Tokens(Join(parts)) == parts
    decreases parts
  {
    if parts != [] {
      TokensOfPart(parts[0], Join(parts[1..]));
      if |parts| > 1 { TokensOfJoin(parts[1..]); }
      assert parts == [parts[0]] + parts[1..];
    }
  }

  /** The comma at the end of a text, if there is one. */
  function LastComma(text: string): string {
    if text != [] && text[|text| - 1] == ',' then "," else ""
  }

  lemma LastCommaBehind(head: string, rest: string)
    ensures LastComma(head + [','] + rest) == if rest == [] then "," else LastComma(rest)
  {
    var text := head + [','] + rest;
    assert rest != [] ==> text[|text| - 1] == rest[|rest| - 1];
  }

  lemma NoComma(head: string)
    requires ',' !in head
    ensures LastComma(head) == ""
  {
  }

  lemma JoinStep(head: string, tokens: seq<string>, rest: string)
    requires rest == Join(tokens) + LastComma(rest) && (rest == [] <==> tokens == [])
    ensures head + [','] + rest == Join([head] + tokens) + LastComma(head + [','] + rest)
  {
    LastCommaBehind(head, rest);
    JoinFirst(head, tokens);
    if rest == [] {
      assert head + [','] + [] == head + ",";
    } else {
      assert head + [','] + (Join(tokens) + LastComma(rest)) == head + [','] + Join(tokens) + LastComma(rest);
    }
  }

  /** The tokens of a text are comma-free and make it up, but for a comma at its end. */
  lemma {:induction false} JoinOfTokens(text: string)
    ensures forall t <- Tokens(text) :: ',' !in t
    ensures text == Join(Tokens(text)) + LastComma(text)
    decreases text
  {
    if text != [] {
      var n := TokenEnd(text);
      var head := text[..n];
      if n < |text| {
        JoinOfTokens(text[n + 1..]);
        JoinStep(head, Tokens(text[n + 1..]), text[n + 1..]);
        assert text == head + [','] + text[n + 1..];
      } else {
        assert text == head && Tokens(text) == [head];
        NoComma(text);
        assert text + "" == text;
      }
    }
  }

  lemma JoinFirst(head: string, rest: seq<string>)
    ensures Join([head] + rest) == if rest == [] then head else head + [','] + Join(rest)
  {
    assert ([head] + rest)[1..] == rest;
  }

  function PrintAll(vs: seq<int>, hex: bool): seq<string> {
    if vs == [] then [] else [PrintInteger(vs[0], hex)] + PrintAll(vs[1..], hex)
  }

  function Ints(vs: seq<int>): seq<Value> {
    if vs == [] then [] else [Int(vs[0])] + Ints(vs[1..])
  }

  lemma PrintedPart(v: int, hex: bool)
    ensures ',' !in PrintInteger(v, hex) && PrintInteger(v, hex) != []
  {
    var n := if v < 0 then -v else v;
    NumeralOfDigits(n, hex);
    NumeralIsAlnum(Digits(n, hex), hex, 0);
  }

  lemma {:induction false} PrintedListParts(vs: seq<int>, hex: bool, signed: bool, width: Width)
    requires forall v <- vs :: Representable(v, signed, width)
    ensures forall p <- PrintAll(vs, hex) :: ',' !in p && p != []
    ensures ReadAll(Integer(signed, width), PrintAll(vs, hex)) == Some(Ints(vs))
    decreases vs
  {
    if vs != [] {
      PrintReadsBack(vs[0], hex, signed, width);
      PrintedPart(vs[0], hex);
      PrintedListParts(vs[1..], hex, signed, width);
      assert PrintAll(vs, hex)[1..] == PrintAll(vs[1..], hex);
    }
  }

  /** A list of representable values, printed and joined by commas, reads back as that list. */
  lemma ListReadsBack(vs: seq<int>, hex: bool, signed: bool, width: Width)
    requires forall v <- vs :: Representable(v, signed, width)
    ensures ReadAll(Integer(signed, width), Tokens(Join(PrintAll(vs, hex)))) == Some(Ints(vs))
  {
    PrintedListParts(vs, hex, signed, width);
    var parts := PrintAll(vs, hex);
    assert parts != [] ==> parts[|parts| - 1] in parts;
    TokensOfJoin(parts);
  }
}
