/**
 * The JavaScript string operations the core uses: `toLowerCase`,
 * `toUpperCase`, `includes`, `trim` and the `\D` character class,
 * restricted to the ASCII range.
 */
module Text {
  import opened Common
  import opened Seqs

  predicate IsAsciiUpper(c: char) { 'A' <= c <= 'Z' }

  predicate IsAsciiLower(c: char) { 'a' <= c <= 'z' }

  predicate IsDigit(c: char) { '0' <= c <= '9' }

  /** The characters `String.prototype.trim` and express-validator's `trim()` strip: JavaScript's white space and line terminators. */
  predicate IsWhitespace(c: char) {
    || c == '\t' || c == '\n' || c == '\U{000B}' || c == '\U{000C}' || c == '\r' || c == ' '
    || c == '\U{00A0}' || c == '\U{1680}' || '\U{2000}' <= c <= '\U{200A}'
    || c == '\U{2028}' || c == '\U{2029}' || c == '\U{202F}' || c == '\U{205F}'
    || c == '\U{3000}' || c == '\U{FEFF}'
  }

  function LowerChar(c: char): (r: char)
    ensures !IsAsciiUpper(r)
    ensures IsAsciiUpper(c) || r == c
  {
    if IsAsciiUpper(c) then (c as int + 32) as char else c
  }

  function UpperChar(c: char): (r: char)
    ensures !IsAsciiLower(r)
    ensures IsAsciiLower(c) || r == c
  {
    if IsAsciiLower(c) then (c as int - 32) as char else c
  }

  predicate IsLowerCase(s: string) { forall i :: 0 <= i < |s| ==> !IsAsciiUpper(s[i]) }

  predicate IsUpperCase(s: string) { forall i :: 0 <= i < |s| ==> !IsAsciiLower(s[i]) }

  /** `s.toLowerCase()` */
  function ToLower(s: string): (r: string)
    ensures |r| == |s| && IsLowerCase(r)
    ensures forall i :: 0 <= i < |s| ==> r[i] == LowerChar(s[i])
  {
    Map(s, LowerChar)
  }

  /** `s.toUpperCase()` */
  function ToUpper(s: string): (r: string)
    ensures |r| == |s| && IsUpperCase(r)
    ensures forall i :: 0 <= i < |s| ==> r[i] == UpperChar(s[i])
  {
    Map(s, UpperChar)
  }

  /** Lower-casing a lower-case string changes nothing. */
  lemma ToLowerOfLower(s: string)
    requires IsLowerCase(s)
    ensures ToLower(s) == s
  {
  }

  /** Upper-casing an upper-case string changes nothing. */
  lemma ToUpperOfUpper(s: string)
    requires IsUpperCase(s)
    ensures ToUpper(s) == s
  {
  }

  predicate StartsWith(s: string, prefix: string) {
    |prefix| <= |s| && s[..|prefix|] == prefix
  }

  /** `term` occurs in `s` starting at offset `i`. */
  predicate OccursAt(s: string, term: string, i: int) {
    0 <= i && i + |term| <= |s| && s[i..i + |term|] == term
  }

  /** `s.includes(term)`: `term` occurs in `s` at some offset. */
  function Includes(s: string, term: string): (r: bool)
    ensures r <==> exists i :: OccursAt(s, term, i)
    decreases |s|
  {
    if StartsWith(s, term) then
      assert OccursAt(s, term, 0);
      true
    else if s == [] then
      assert forall i :: !OccursAt(s, term, i);
      false
    else
      var r := Includes(s[1..], term);
      assert r ==> exists i :: OccursAt(s, term, i) by {
        if r {
          var j :| OccursAt(s[1..], term, j);
          assert s[j + 1..j + 1 + |term|] == s[1..][j..j + |term|];
          assert OccursAt(s, term, j + 1);
        }
      }
      assert (exists i :: OccursAt(s, term, i)) ==> r by {
        if exists i :: OccursAt(s, term, i) {
          var i :| OccursAt(s, term, i);
          assert i != 0;
          assert s[1..][i - 1..i - 1 + |term|] == s[i..i + |term|];
          assert OccursAt(s[1..], term, i - 1);
        }
      }
      r
  }

  /**
   * The case-insensitive containment test shared by the catalogue search
   * (a MongoDB `$regex` with option `i`, for terms without metacharacters)
   * and the course-list search box.
   */
  predicate ContainsIgnoringCase(s: string, term: string) {
    Includes(ToLower(s), ToLower(term))
  }

  /** Nothing but whitespace. */
  predicate Blank(s: string) {
    forall k :: 0 <= k < |s| ==> IsWhitespace(s[k])
  }

  /** The index of the first character at or after `i` that is not whitespace (`|s|` if none). */
  function TrimStartIndex(s: string, i: nat): (r: nat)
    requires i <= |s|
    ensures i <= r <= |s|
    ensures forall k :: i <= k < r ==> IsWhitespace(s[k])
    ensures r == |s| || !IsWhitespace(s[r])
    decreases |s| - i
  {
    if i < |s| && IsWhitespace(s[i]) then TrimStartIndex(s, i + 1) else i
  }

  /** The end of `s[lo..j]` once its trailing whitespace is cut off. */
  function TrimEndIndex(s: string, lo: nat, j: nat): (r: nat)
    requires lo <= j <= |s|
    ensures lo <= r <= j
    ensures forall k :: r <= k < j ==> IsWhitespace(s[k])
    ensures r == lo || !IsWhitespace(s[r - 1])
    decreases j
  {
    if j > lo && IsWhitespace(s[j - 1]) then TrimEndIndex(s, lo, j - 1) else j
  }

  /** `s.trim()` */
  function Trim(s: string): (r: string)
    ensures r == [] <==> Blank(s)
    ensures r != [] ==> !IsWhitespace(r[0]) && !IsWhitespace(r[|r| - 1])
  {
    var a := TrimStartIndex(s, 0);
    var b := TrimEndIndex(s, a, |s|);
    assert a < b ==> !IsWhitespace(s[a]);
    s[a..b]
  }

  /** The trim is a part of the string: what is cut off at either end is blank. */
  lemma TrimIsInfix(s: string)
    ensures exists i :: OccursAt(s, Trim(s), i) && Blank(s[..i]) && Blank(s[i + |Trim(s)|..])
  {
    var a := TrimStartIndex(s, 0);
    var b := TrimEndIndex(s, a, |s|);
    assert Trim(s) == s[a..b];
    assert forall k :: 0 <= k < |s[b..]| ==> s[b..][k] == s[b + k];
    assert OccursAt(s, Trim(s), a) && Blank(s[..a]) && Blank(s[b..]);
  }

  /** A string with no whitespace at either end is its own trim. */
  lemma TrimUnpadded(s: string)
    requires s != [] && !IsWhitespace(s[0]) && !IsWhitespace(s[|s| - 1])
    ensures Trim(s) == s
  {
    assert TrimStartIndex(s, 0) == 0;
    assert TrimEndIndex(s, 0, |s|) == |s|;
    assert s[0..|s|] == s;
  }

  predicate IsDigits(s: string) { forall i :: 0 <= i < |s| ==> IsDigit(s[i]) }

  /** `s.replace(/\D/g, '')`: the decimal digits of `s`, in order. */
  function DigitsOnly(s: string): (r: string)
    ensures IsDigits(r) && |r| <= |s|
    ensures r == Filter(s, IsDigit)
    ensures forall i :: 0 <= i < |s| && IsDigit(s[i]) ==> s[i] in r
    ensures IsSubsequence(r, s)
  {
    if s == [] then []
    else if IsDigit(s[0]) then [s[0]] + DigitsOnly(s[1..])
    else DigitsOnly(s[1..])
  }

  /** A string of digits is its own digit string. */
  lemma {:induction false} DigitsOnlyOfDigits(s: string)
    requires IsDigits(s)
    ensures DigitsOnly(s) == s
  {
    if s != [] {
      DigitsOnlyOfDigits(s[1..]);
    }
  }

  /** `String(n)` for an integer. */
  function DecimalString(n: int): (r: string)
    ensures r != []
    ensures n >= 0 ==> IsDigits(r)
    ensures n < 0 ==> r[0] == '-' && IsDigits(r[1..])
  {
    if n < 0 then "-" + NatDigits(-n) else NatDigits(n)
  }

  function NatDigits(n: nat): (r: string)
    ensures r != [] && IsDigits(r)
  {
    var d := ['0' + (n % 10) as char];
    if n < 10 then d else NatDigits(n / 10) + d
  }

  /** The value of a string of decimal digits, most significant first. */
  function DigitsValue(s: string): (r: nat)
    requires IsDigits(s)
  {
    if s == [] then 0 else DigitsValue(s[..|s| - 1]) * 10 + (s[|s| - 1] - '0') as nat
  }

  /** Writing a number in decimal and reading the digits back gives the number. */
  lemma {:induction false} NatDigitsValue(n: nat)
    ensures DigitsValue(NatDigits(n)) == n
  {
    var d := ['0' + (n % 10) as char];
    if n >= 10 {
      NatDigitsValue(n / 10);
      var s := NatDigits(n / 10) + d;
      assert s[..|s| - 1] == NatDigits(n / 10);
    }
  }
}
