/**
 * The item form (Create.jsx): the quantity field's `parseInt`, the form
 * validation, and `handleGuardar`, which inserts the new row.
 */
module Create {
  import opened Wrappers
  import opened Numerals
  import opened Strings
  import opened Dates
  import opened Store

  /** The JavaScript value held in the `size` state: null, NaN, or an integer. */
  datatype SizeValue = Null | NaN | Num(n: int)

  /** The longest prefix of `s` made of digits of the radix. */
  function DigitPrefix(s: string, radix: nat): (p: string)
    ensures |p| <= |s| && p == s[..|p|]
    ensures AllDigitsIn(p, radix)
    ensures |p| < |s| ==> !IsDigitIn(s[|p|], radix)
  {
    if s != [] && IsDigitIn(s[0], radix) then
      var rest := DigitPrefix(s[1..], radix);
      assert ([s[0]] + rest)[1..] == rest;
      [s[0]] + rest
    else []
  }

  /**
   * The digits `parseInt` reads after the sign: a `0x` or `0X` prefix
   * selects radix 16, and the longest run of digits that follows is the
   * magnitude. None when that run is empty.
   */
  function ParseMagnitude(u: string): Option<nat> {
    var hex := |u| >= 2 && u[0] == '0' && (u[1] == 'x' || u[1] == 'X');
    var radix := if hex then 16 else 10;
    var digits := DigitPrefix(if hex then u[2..] else u, radix);
    if digits == [] then None else Some(Value(digits, radix))
  }

  /**
   * `parseInt(text)` with no radix, as the quantity field's `onChangeText`
   * calls it: leading whitespace is skipped, one `+` or `-` is read, then
   * the magnitude. Without a digit the result is NaN.
   */
  function ParseInt(text: string): (v: SizeValue)
    ensures !v.Null?
  {
    var s := TrimStart(text);
    var negative := s != [] && s[0] == '-';
    var unsigned := if s != [] && (s[0] == '-' || s[0] == '+') then s[1..] else s;
    match ParseMagnitude(unsigned)
    case None => NaN
    case Some(m) => if negative then Num(-(m as int)) else Num(m)
  }

  lemma DigitPrefixOfDigits(s: string)
    requires AllDigitsIn(s, 10)
    ensures DigitPrefix(s, 10) == s
  {
  }

  /** A decimal numeral is read whole, as its value. */
  lemma MagnitudeOfNumeral(n: nat)
    ensures ParseMagnitude(Numeral(n)) == Some(n)
  {
    var s := Numeral(n);
    assert !(|s| >= 2 && s[0] == '0');
    DigitPrefixOfDigits(s);
    NumeralValue(n);
  }

  /** Typing the decimal numeral of a number gives back that number. */
  lemma ParseNumeral(n: nat)
    ensures ParseInt(Numeral(n)) == Num(n)
  {
    var s := Numeral(n);
    assert !IsWhitespace(s[0]) && s[0] != '-' && s[0] != '+';
    assert TrimStart(s) == s;
    MagnitudeOfNumeral(n);
  }

  /** Typing `-` and a numeral gives the negative number, which the form rejects. */
  lemma ParseNegativeNumeral(n: nat)
    ensures ParseInt("-" + Numeral(n)) == Num(-(n as int))
  {
    var s := "-" + Numeral(n);
    assert !IsWhitespace(s[0]);
    assert TrimStart(s) == s;
    assert s[1..] == Numeral(n);
    MagnitudeOfNumeral(n);
  }

  /** Blank text, and text whose first non-blank character is not a sign or a digit, parse to NaN. */
  lemma ParseNonNumeric(blank: string, c: char, rest: string)
    requires AllWhitespace(blank)
    requires !IsWhitespace(c) && c != '-' && c != '+' && !IsDecimalDigit(c)
    ensures ParseInt(blank) == NaN
    ensures ParseInt(blank + [c] + rest) == NaN
  {
    TrimStartAfterBlank(blank, []);
    assert blank + [] == blank;
    TrimStartAfterBlank(blank, [c] + rest);
    assert blank + [c] + rest == blank + ([c] + rest);
  }

  /** `name.trim() === ""`: the name is empty or only whitespace. */
  predicate NameMissing(name: string) {
    Trim(name) == []
  }

  /** `size === null || isNaN(size) || size < 1`. */
  predicate SizeRejected(size: SizeValue) {
    size.Null? || size.NaN? || size.n < 1
  }

  /** The form passes validation exactly when the name has a visible character and the size is a whole number of at least 1. */
  lemma ValidationRule(name: string, size: SizeValue)
    ensures !NameMissing(name) && !SizeRejected(size) <==>
              (exists i :: 0 <= i < |name| && !IsWhitespace(name[i])) && size.Num? && size.n >= 1
  {
    TrimEmptyIffBlank(name);
  }

  /** The default quantity 1 passes, and text that parses to NaN never does. */
  lemma DefaultAndNaNSizes(text: string)
    ensures !SizeRejected(Num(1))
    ensures ParseInt(text).NaN? ==> SizeRejected(ParseInt(text))
    ensures SizeRejected(ParseInt(text)) <==> !(ParseInt(text).Num? && ParseInt(text).n >= 1)
  {
  }

  /** The `errors` state: an empty string means no error for that field. */
  datatype Errors = Errors(name: string, size: string)

  /** `expiryDate.toISOString().split("T")[0]`: the text before the first `T`. */
  function DatePart(iso: string): (d: string)
    ensures |d| <= |iso| && d == iso[..|d|]
    ensures forall i :: 0 <= i < |d| ==> d[i] != 'T'
    ensures |d| < |iso| ==> iso[|d|] == 'T'
  {
    if iso == [] || iso[0] == 'T' then []
    else
      var rest := DatePart(iso[1..]);
      assert ([iso[0]] + rest)[1..] == rest;
      [iso[0]] + rest
  }

  /** For a `toISOString` timestamp `yyyy-mm-ddThh:mm:ss.sssZ` the stored date is its `yyyy-mm-dd` part. */
  lemma DatePartOfTimestamp(iso: string)
    requires |iso| > 10 && IsIsoDate(iso[..10]) && iso[10] == 'T'
    ensures DatePart(iso) == iso[..10]
    ensures IsIsoDate(DatePart(iso))
  {
    var d := DatePart(iso);
    assert forall i :: 0 <= i < 10 ==> iso[..10][i] != 'T' by {
      assert forall i :: 0 <= i < 10 ==> IsDigitIn(iso[i], 10) || iso[i] == '-' by {
        forall i | 0 <= i < 10 ensures IsDigitIn(iso[i], 10) || iso[i] == '-' {
          if i < 4 { assert iso[..10][..4][i] == iso[i]; }
          else if 5 <= i < 7 { assert iso[..10][5..7][i - 5] == iso[i]; }
          else if 8 <= i { assert iso[..10][8..][i - 8] == iso[i]; }
        }
      }
    }
  }

  /** The `photo_base64` value `handleGuardar` stores: the payload when it is a non-empty string, NULL otherwise. */
  function PhotoColumn(base64Photo: string): (p: Option<string>)
    ensures p.Some? <==> base64Photo != []
    ensures p.Some? ==> p.value == base64Photo
  {
    if base64Photo != [] then Some(base64Photo) else None
  }

  class Form {
    var name: string
    var size: SizeValue
    /** The resized photo's base64 payload; empty until a photo has been encoded. */
    var base64Photo: string
    /** `expiryDate.toISOString()` for the chosen date. */
    var expiryIso: string
    var errors: Errors

    /** The initial state; `todayIso` is `new Date().toISOString()`. */
    constructor (todayIso: string)
      ensures name == [] && size == Num(1) && base64Photo == [] && expiryIso == todayIso
      ensures errors == Errors([], [])
    {
      name, size, base64Photo, expiryIso := [], Num(1), [], todayIso;
      errors := Errors([], []);
    }

    /** The quantity field's `onChangeText={(text) => setSize(parseInt(text))}`. */
    method ChangeSizeText(text: string)
      modifies this`size
      ensures size == ParseInt(text)
    {
      size := ParseInt(text);
    }

    /**
     * `validateForm`: each error is set exactly when its own check fails and
     * cleared otherwise; the result says whether both checks passed.
     */
    method ValidateForm() returns (valid: bool)
      modifies this`errors
      ensures valid <==> !NameMissing(name) && !SizeRejected(size)
      ensures errors.name == if NameMissing(name) then "Required" else []
      ensures errors.size == if SizeRejected(size) then "Required > 0" else []
    {
      valid := true;
      var newErrors := Errors([], []);
      if Trim(name) == [] {
        newErrors := newErrors.(name := "Required");
        valid := false;
      }
      if size.Null? || size.NaN? || size.n < 1 {
        newErrors := newErrors.(size := "Required > 0");
        valid := false;
      }
      errors := newErrors;
    }

    /**
     * `handleGuardar`: validates, and only then inserts one row with the
     * name, the date part of the timestamp, the photo (NULL when there is
     * none) and the quantity. `saved` says whether a row was inserted, after
     * which the app navigates back to the list.
     */
    method HandleGuardar(db: Database) returns (saved: bool)
      requires db.Valid()
      modifies this`errors, db
      ensures db.Valid()
      ensures errors.name == (if NameMissing(name) then "Required" else [])
      ensures errors.size == (if SizeRejected(size) then "Required > 0" else [])
      ensures saved <==> !NameMissing(name) && !SizeRejected(size)
                         && db.available && db.hasTable && old(db.sequence) < MaxRowId
      ensures saved ==>
                && db.rows == old(db.rows) + [Row(db.sequence, name, DatePart(expiryIso), PhotoColumn(base64Photo), size.n)]
                && db.sequence == old(db.sequence) + 1
                && (forall a :: a in old(db.issued) ==> a < db.sequence)
      ensures !saved ==> db.rows == old(db.rows) && db.sequence == old(db.sequence) && db.issued == old(db.issued)
      ensures db.hasTable == old(db.hasTable)
      ensures saved ==> size.n >= 1
      ensures SizesPositive(old(db.rows)) ==> SizesPositive(db.rows)
    {
      var valid := ValidateForm();
      if !valid {
        return false;
      }
      var formattedDate := DatePart(expiryIso);
      var st, id := db.Insert(name, formattedDate, PhotoColumn(base64Photo), size.n);
      saved := st == Ok;
    }
  }
}
