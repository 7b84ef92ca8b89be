/**
 * The JavaScript string operations the forms and the search box rely on:
 * `String.prototype.trim`, `toLowerCase` and `includes`.
 */
module Strings {

  /**
   * The characters ECMAScript's `trim` removes: the WhiteSpace code points
   * (tab, vertical tab, form feed, space, no-break space, the byte order mark
   * and the rest of Unicode category Zs) and the LineTerminator code points.
   */
  predicate IsWhitespace(c: char) {
    || c == '\t' || c == '\n' || c == '\U{000B}' || c == '\U{000C}' || c == '\r'
    || c == ' ' || c == '\U{00A0}' || c == '\U{1680}'
    || ('\U{2000}' <= c <= '\U{200A}')
    || c == '\U{2028}' || c == '\U{2029}' || c == '\U{202F}' || c == '\U{205F}'
    || c == '\U{3000}' || c == '\U{FEFF}'
  }

  predicate AllWhitespace(s: string) {
    forall i :: 0 <= i < |s| ==> IsWhitespace(s[i])
  }

  /** `s` without its leading whitespace. */
  function TrimStart(s: string): (r: string)
    ensures |r| <= |s| && r == s[|s| - |r|..]
    ensures AllWhitespace(s[..|s| - |r|])
    ensures r != [] ==> !IsWhitespace(r[0])
  {
    if s != [] && IsWhitespace(s[0]) then TrimStart(s[1..]) else s
  }

  /** Leading blanks are exactly what `TrimStart` removes. */
  lemma {:induction false} TrimStartAfterBlank(blank: string, t: string)
    requires AllWhitespace(blank) && (t == [] || !IsWhitespace(t[0]))
    ensures TrimStart(blank + t) == t
    decreases |blank|
  {
    if blank != [] {
      assert (blank + t)[1..] == blank[1..] + t;
      TrimStartAfterBlank(blank[1..], t);
    }
  }

  /** `s` without its trailing whitespace. */
  function TrimEnd(s: string): (r: string)
    ensures |r| <= |s| && r == s[..|r|]
    ensures AllWhitespace(s[|r|..])
    ensures r != [] ==> !IsWhitespace(r[|r| - 1])
  {
    if s != [] && IsWhitespace(s[|s| - 1]) then TrimEnd(s[..|s| - 1]) else s
  }

  function Trim(s: string): string {
    TrimEnd(TrimStart(s))
  }

  /** Trimming leaves nothing exactly when the string is blank. */
  lemma TrimEmptyIffBlank(s: string)
    ensures Trim(s) == [] <==> AllWhitespace(s)
  {
  }

  /**
   * `toLowerCase` for the Basic Latin and Latin-1 letters: A-Z and
   * U+00C0-U+00DE (except the multiplication sign U+00D7) move down by 0x20.
   */
  function LowerChar(c: char): (l: char)
    ensures ('A' <= c <= 'Z') ==> 'a' <= l <= 'z'
    ensures !('A' <= c <= 'Z') && !('\U{00C0}' <= c <= '\U{00DE}' && c != '\U{00D7}') ==> l == c
  {
    if 'A' <= c <= 'Z' || ('\U{00C0}' <= c <= '\U{00DE}' && c != '\U{00D7}')
    then (c as int + 0x20) as char
    else c
  }

  function ToLower(s: string): (r: string)
    ensures |r| == |s|
    ensures forall i :: 0 <= i < |s| ==> r[i] == LowerChar(s[i])
  {
    if s == [] then [] else [LowerChar(s[0])] + ToLower(s[1..])
  }

  /** Lower-casing twice is lower-casing once. */
  lemma ToLowerIdempotent(s: string)
    ensures ToLower(ToLower(s)) == ToLower(s)
  {
    var l := ToLower(s);
    assert forall i :: 0 <= i < |l| ==> LowerChar(l[i]) == l[i];
  }

  predicate IsPrefix(t: string, s: string) {
    |t| <= |s| && s[..|t|] == t
  }

  /** `t` occurs in `s` starting at index `i`. */
  predicate OccursAt(s: string, t: string, i: int) {
    0 <= i && i + |t| <= |s| && s[i..i + |t|] == t
  }

  /** `s.includes(t)`: `t` occurs in `s` as a contiguous substring. */
  function Includes(s: string, t: string): (r: bool)
    ensures r <==> exists i :: OccursAt(s, t, i)
  {
    if IsPrefix(t, s) then
      assert OccursAt(s, t, 0);
      true
    else if s == [] then
      false
    else
      var r := Includes(s[1..], t);
      assert r ==> exists i :: OccursAt(s, t, i) by {
        if r {
          var i :| OccursAt(s[1..], t, i);
          assert s[1..][i..i + |t|] == s[i + 1..i + 1 + |t|];
          assert OccursAt(s, t, i + 1);
        }
      }
      assert (exists i :: OccursAt(s, t, i)) ==> r by {
        if exists i :: OccursAt(s, t, i) {
          var i :| OccursAt(s, t, i);
          assert i != 0;
          assert s[1..][i - 1..i - 1 + |t|] == s[i..i + |t|];
          assert OccursAt(s[1..], t, i - 1);
        }
      }
      r
  }

  /** Every string includes the empty string. */
  lemma IncludesEmpty(s: string)
    ensures Includes(s, "")
  {
    assert OccursAt(s, "", 0);
  }
}
