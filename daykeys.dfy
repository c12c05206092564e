/**
 * Day keys and the order the history lists them in. The source compares
 * keys by `new Date(key).getTime()`; for a well-formed `YYYY-MM-DD` key of a
 * real calendar date that instant grows with the number YYYYMMDD, which is the
 * value used here.
 */
module DayKeys {
  import opened Decimal
  import opened Strings

  predicate WellFormed(k: string)
  {
    |k| == 10 && k[4] == '-' && k[7] == '-' &&
    IsDigits(k[..4]) && IsDigits(k[5..7]) && IsDigits(k[8..])
  }

  /** The eight digits of a key, without its dashes. */
  function DateDigits(k: string): (d: string)
    requires WellFormed(k)
    ensures IsDigits(d) && |d| == 8
  {
    ValueConcat(k[..4], k[5..7]);
    ValueConcat(k[..4] + k[5..7], k[8..]);
    k[..4] + k[5..7] + k[8..]
  }

  /** The calendar position of a key as the number YYYYMMDD. A key that is not
      `YYYY-MM-DD` is read by the engine's own fallback date parser (which
      accepts forms such as `2024/01/05`, and gives NaN for others) and sorts
      where that parse puts it; here it is given the value 0 and so sorts
      last. */
  function DateValue(k: string): nat
  {
    if WellFormed(k) then Value(DateDigits(k)) else 0
  }

  /** The comparison the history sorts its keys with: newest first. */
  predicate NewerOrSame(a: string, b: string)
  {
    DateValue(b) <= DateValue(a)
  }

  /** For well-formed keys, date order is plain lexicographic order on the
      key strings. */
  lemma DateOrderIsLexicographic(a: string, b: string)
    requires WellFormed(a) && WellFormed(b)
    ensures DateValue(a) <= DateValue(b) <==> LexLe(a, b)
  {
    assert a == a[..4] + [a[4]] + a[5..];
    assert b == b[..4] + [b[4]] + b[5..];
    LexLeDropCommon(a[..4], b[..4], '-', a[5..], b[5..]);
    assert a[..4] + a[5..] == (a[..4] + a[5..7]) + [a[7]] + a[8..];
    assert b[..4] + b[5..] == (b[..4] + b[5..7]) + [b[7]] + b[8..];
    LexLeDropCommon(a[..4] + a[5..7], b[..4] + b[5..7], '-', a[8..], b[8..]);
    DigitsOrderIsLexicographic(DateDigits(a), DateDigits(b));
  }

  /** Distinct well-formed keys have distinct dates, so newest-first order is
      strict on them. */
  lemma DateValueInjective(a: string, b: string)
    requires WellFormed(a) && WellFormed(b) && DateValue(a) == DateValue(b)
    ensures a == b
  {
    DateOrderIsLexicographic(a, b);
    DateOrderIsLexicographic(b, a);
    LexLeAntisymmetric(a, b);
  }
}
