/**
 * Decimal digit strings: the value JavaScript's Number gives a string of
 * digits, and Number.prototype.toString for non-negative integers.
 */
module Decimal {
  import opened Wrappers
  import opened Strings

  predicate IsDigit(c: char)
  {
    '0' <= c <= '9'
  }

  predicate IsDigits(s: string)
  {
    forall i :: 0 <= i < |s| ==> IsDigit(s[i])
  }

  function DigitValue(c: char): (d: nat)
    requires IsDigit(c)
    ensures d < 10
  {
    c as int - '0' as int
  }

  function DigitChar(d: nat): (c: char)
    requires d < 10
    ensures IsDigit(c) && DigitValue(c) == d
  {
    ('0' as int + d) as char
  }

  function Pow10(n: nat): (r: nat)
    ensures r >= 1
  {
    if n == 0 then 1 else 10 * Pow10(n - 1)
  }

  /** The number a string of decimal digits denotes, most significant digit
      first; the empty string denotes 0, as Number("") does. */
  function Value(s: string): nat
    requires IsDigits(s)
  {
    if s == [] then 0 else 10 * Value(s[..|s| - 1]) + DigitValue(s[|s| - 1])
  }

  /** Number(s) for a string that is a plain run of digits; any other string
      is NaN, written None. */
  function ToNumber(s: string): (r: Option<nat>)
    ensures r.Some? <==> IsDigits(s)
  {
    if IsDigits(s) then Some(Value(s)) else None
  }

  /** Decimal notation of a non-negative integer, as JavaScript prints it:
      at least one digit and no leading zero. */
  function NatToString(n: nat): (s: string)
    ensures IsDigits(s) && |s| >= 1
    ensures |s| > 1 ==> s[0] != '0'
    decreases n
  {
    if n < 10 then [DigitChar(n)] else NatToString(n / 10) + [DigitChar(n % 10)]
  }

  lemma {:induction false} ValueOfNatToString(n: nat)
    ensures Value(NatToString(n)) == n
    decreases n
  {
    if n >= 10 {
      var s := NatToString(n);
      ValueOfNatToString(n / 10);
      assert s[..|s| - 1] == NatToString(n / 10);
    }
  }

  lemma {:induction false} ValueBound(s: string)
    requires IsDigits(s)
    ensures Value(s) < Pow10(|s|)
  {
    if s != [] {
      ValueBound(s[..|s| - 1]);
    }
  }

  /** A digit string whose first digit is not 0 has a positive value of the
      right magnitude. */
  lemma {:induction false} ValueLeadingDigit(s: string)
    requires IsDigits(s) && |s| >= 1 && s[0] != '0'
    ensures Value(s) >= Pow10(|s| - 1)
  {
    if |s| > 1 {
      ValueLeadingDigit(s[..|s| - 1]);
    }
  }

  /** Printing the value of a digit string without leading zeros gives the
      string back: toString and Number are inverse on canonical numerals. */
  lemma {:induction false} NatToStringOfValue(s: string)
    requires IsDigits(s) && |s| >= 1 && (|s| > 1 ==> s[0] != '0')
    ensures NatToString(Value(s)) == s
  {
    var last := s[|s| - 1];
    assert DigitChar(DigitValue(last)) == last;
    if |s| > 1 {
      var init := s[..|s| - 1];
      NatToStringOfValue(init);
      ValueLeadingDigit(init);
      var v := Value(init);
      var d := DigitValue(last);
      assert Value(s) == 10 * v + d;
      SplitLastDigit(v, d);
      assert s == init + [last];
    }
  }

  lemma SplitLastDigit(v: nat, d: nat)
    requires d < 10
    ensures (10 * v + d) / 10 == v && (10 * v + d) % 10 == d
  {
  }

  lemma NatToStringInjective(m: nat, n: nat)
    requires NatToString(m) == NatToString(n)
    ensures m == n
  {
    ValueOfNatToString(m);
    ValueOfNatToString(n);
  }

  /** Digits appended after a prefix weigh the prefix by a power of ten. */
  lemma {:induction false} ValueConcat(a: string, b: string)
    requires IsDigits(a) && IsDigits(b)
    ensures IsDigits(a + b) && Value(a + b) == Value(a) * Pow10(|b|) + Value(b)
  {
    assert IsDigits(a + b) by {
      forall i | 0 <= i < |a + b| ensures IsDigit((a + b)[i]) {
        if i >= |a| { assert (a + b)[i] == b[i - |a|]; }
      }
    }
    if b == [] {
      assert a + b == a;
    } else {
      var b' := b[..|b| - 1];
      var d := DigitValue(b[|b| - 1]);
      ValueConcat(a, b');
      assert (a + b)[..|a + b| - 1] == a + b';
      assert Value(b) == 10 * Value(b') + d;
      assert Pow10(|b|) == 10 * Pow10(|b'|);
      ShiftOneDigit(Value(a), Pow10(|b'|), Value(b'), d);
    }
  }

  lemma ShiftOneDigit(va: nat, p: nat, vb: nat, d: nat)
    ensures 10 * (va * p + vb) + d == va * (10 * p) + (10 * vb + d)
  {
    assert 10 * (va * p) == va * (10 * p);
  }

  /** Leading zeros do not change the value. */
  lemma LeadingZeroValue(s: string)
    requires IsDigits(s)
    ensures IsDigits("0" + s) && Value("0" + s) == Value(s)
  {
    ValueConcat("0", s);
  }

  /** For digit strings of equal length, numeric order and character
      lexicographic order coincide. */
  lemma {:induction false} DigitsOrderIsLexicographic(x: string, y: string)
    requires IsDigits(x) && IsDigits(y) && |x| == |y|
    ensures Value(x) <= Value(y) <==> LexLe(x, y)
  {
    if x != [] {
      if x[0] < y[0] {
        LeadingDigitOrder(x, y);
      } else if y[0] < x[0] {
        LeadingDigitOrder(y, x);
      } else {
        SameLeadingDigit(x, y);
        DigitsOrderIsLexicographic(x[1..], y[1..]);
      }
    }
  }

  /** The leading digit weighs the power of ten of the digits after it. */
  lemma LeadingSplit(x: string)
    requires IsDigits(x) && |x| >= 1
    ensures Value(x) == DigitValue(x[0]) * Pow10(|x| - 1) + Value(x[1..])
    ensures Value(x[1..]) < Pow10(|x| - 1)
  {
    ValueConcat([x[0]], x[1..]);
    assert [x[0]] + x[1..] == x;
    assert Value([x[0]]) == DigitValue(x[0]);
    ValueBound(x[1..]);
  }

  /** Of two numerals of one length, the one with the smaller leading digit
      is the smaller number. */
  lemma LeadingDigitOrder(x: string, y: string)
    requires IsDigits(x) && IsDigits(y) && |x| == |y| >= 1 && x[0] < y[0]
    ensures Value(x) < Value(y)
  {
    LeadingSplit(x);
    LeadingSplit(y);
    LeadingDigitDecides(DigitValue(x[0]), DigitValue(y[0]), Value(x[1..]), Value(y[1..]), Pow10(|x| - 1));
  }

  /** Numerals of one length with the same leading digit compare as the
      digits after it. */
  lemma SameLeadingDigit(x: string, y: string)
    requires IsDigits(x) && IsDigits(y) && |x| == |y| >= 1 && x[0] == y[0]
    ensures Value(x) <= Value(y) <==> Value(x[1..]) <= Value(y[1..])
  {
    LeadingSplit(x);
    LeadingSplit(y);
  }

  /** A smaller leading digit makes a smaller number, whatever follows. */
  lemma LeadingDigitDecides(dx: nat, dy: nat, rx: nat, ry: nat, p: nat)
    requires dx < dy && rx < p
    ensures dx * p + rx < dy * p + ry
  {
    calc {
      dx * p + rx;
    <
      dx * p + p;
    ==
      (dx + 1) * p;
    <=
      dy * p;
    <=
      dy * p + ry;
    }
  }
}
