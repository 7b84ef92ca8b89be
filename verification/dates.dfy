/**
 * How the `expiry_date` column is ordered. The column holds `yyyy-mm-dd`
 * text, and `ORDER BY expiry_date` compares text with SQLite's BINARY
 * collation: character by character, a proper prefix first. For well-formed
 * dates that order is the calendar order, which is what the list relies on.
 */
module Dates {
  import opened Numerals

  /** SQLite's BINARY collation on text: lexicographic order on code points. */
  function LexLe(a: string, b: string): bool {
    if a == [] then true
    else if b == [] then false
    else if a[0] != b[0] then a[0] < b[0]
    else LexLe(a[1..], b[1..])
  }

  /** Any two strings are comparable. */
  lemma {:induction false} LexLeTotal(a: string, b: string)
    ensures LexLe(a, b) || LexLe(b, a)
  {
    if a != [] && b != [] && a[0] == b[0] { LexLeTotal(a[1..], b[1..]); }
  }

  lemma {:induction false} LexLeTransitive(a: string, b: string, c: string)
    requires LexLe(a, b) && LexLe(b, c)
    ensures LexLe(a, c)
  {
    if a != [] && b != [] && c != [] && a[0] == b[0] && b[0] == c[0] {
      LexLeTransitive(a[1..], b[1..], c[1..]);
    }
  }

  lemma {:induction false} LexLeAntisymmetric(a: string, b: string)
    requires LexLe(a, b) && LexLe(b, a)
    ensures a == b
  {
    if a != [] && b != [] {
      LexLeAntisymmetric(a[1..], b[1..]);
      assert a == [a[0]] + a[1..] && b == [b[0]] + b[1..];
    }
  }

  /** Between strings of equal length, the first part decides unless it is equal. */
  lemma {:induction false} LexLeAppend(x: string, y: string, x': string, y': string)
    requires |x| == |x'|
    ensures LexLe(x + y, x' + y') <==> if x == x' then LexLe(y, y') else LexLe(x, x')
  {
    if x == [] {
      assert x + y == y && x' + y' == y';
    } else {
      var xy, xy' := x + y, x' + y';
      assert xy[0] == x[0] && xy'[0] == x'[0];
      assert xy[1..] == x[1..] + y && xy'[1..] == x'[1..] + y';
      assert x == [x[0]] + x[1..] && x' == [x'[0]] + x'[1..];
      if x[0] == x'[0] {
        LexLeAppend(x[1..], y, x'[1..], y');
      }
    }
  }

  /** Of two decimal numerals of equal length, the one with the smaller first digit is smaller. */
  lemma LeadingDigitDecides(a: string, b: string)
    requires |a| == |b| >= 1 && AllDigitsIn(a, 10) && AllDigitsIn(b, 10)
    requires DigitValue(a[0]) < DigitValue(b[0])
    ensures Value(a, 10) < Value(b, 10)
  {
  }


  /** Between decimal numerals of equal length, text order is numeric order. */
  lemma {:induction false} LexLeDigits(a: string, b: string)
    requires |a| == |b| && AllDigitsIn(a, 10) && AllDigitsIn(b, 10)
    ensures LexLe(a, b) <==> Value(a, 10) <= Value(b, 10)
  {
    if a != [] {
      if a[0] == b[0] {
        ValueFront(a);
        ValueFront(b);
        LexLeDigits(a[1..], b[1..]);
      } else if DigitValue(a[0]) < DigitValue(b[0]) {
        LeadingDigitDecides(a, b);
      } else {
        assert DigitValue(b[0]) < DigitValue(a[0]);
        LeadingDigitDecides(b, a);
      }
    }
  }

  /** Two equal-length decimal numerals are equal exactly when their values are. */
  lemma DigitsEqual(a: string, b: string)
    requires |a| == |b| && AllDigitsIn(a, 10) && AllDigitsIn(b, 10)
    ensures a == b <==> Value(a, 10) == Value(b, 10)
  {
    LexLeDigits(a, b);
    LexLeDigits(b, a);
    if LexLe(a, b) && LexLe(b, a) { LexLeAntisymmetric(a, b); }
  }

  /** The shape `yyyy-mm-dd`: ten characters, dashes at 4 and 7, digits elsewhere. */
  predicate IsIsoDate(s: string) {
    && |s| == 10 && s[4] == '-' && s[7] == '-'
    && AllDigitsIn(s[..4], 10) && AllDigitsIn(s[5..7], 10) && AllDigitsIn(s[8..], 10)
  }

  function Year(s: string): nat requires IsIsoDate(s) { Value(s[..4], 10) }
  function Month(s: string): nat requires IsIsoDate(s) { Value(s[5..7], 10) }
  function Day(s: string): nat requires IsIsoDate(s) { Value(s[8..], 10) }

  /** Calendar order: by year, then month, then day. */
  predicate DateLe(a: string, b: string)
    requires IsIsoDate(a) && IsIsoDate(b)
  {
    || Year(a) < Year(b)
    || (Year(a) == Year(b) && Month(a) < Month(b))
    || (Year(a) == Year(b) && Month(a) == Month(b) && Day(a) <= Day(b))
  }

  /** On `yyyy-mm-dd` text, SQLite's text order is the calendar order. */
  lemma IsoDateOrder(a: string, b: string)
    requires IsIsoDate(a) && IsIsoDate(b)
    ensures LexLe(a, b) <==> DateLe(a, b)
  {
    assert a == a[..4] + (a[4..5] + (a[5..7] + (a[7..8] + a[8..])));
    assert b == b[..4] + (b[4..5] + (b[5..7] + (b[7..8] + b[8..])));
    assert a[4..5] == b[4..5] == "-" && a[7..8] == b[7..8] == "-";
    LexLeAppend(a[..4], a[4..5] + (a[5..7] + (a[7..8] + a[8..])), b[..4], b[4..5] + (b[5..7] + (b[7..8] + b[8..])));
    LexLeAppend(a[4..5], a[5..7] + (a[7..8] + a[8..]), b[4..5], b[5..7] + (b[7..8] + b[8..]));
    LexLeAppend(a[5..7], a[7..8] + a[8..], b[5..7], b[7..8] + b[8..]);
    LexLeAppend(a[7..8], a[8..], b[7..8], b[8..]);
    LexLeDigits(a[..4], b[..4]);
    LexLeDigits(a[5..7], b[5..7]);
    LexLeDigits(a[8..], b[8..]);
    DigitsEqual(a[..4], b[..4]);
    DigitsEqual(a[5..7], b[5..7]);
  }
}
