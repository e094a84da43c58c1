/**
 * Character classes and string operations that the register relies on:
 * the `\d` and `\s` classes of its regular expressions, ASCII `toLowerCase`,
 * `trim`, `includes` and the `<` / `>` ordering of JavaScript strings.
 */
module Strings {

  /** The whitespace class `\s`, restricted to the ASCII whitespace characters. */
  predicate IsSpace(c: char) {
    c == ' ' || c == '\t' || c == '\n' || c == '\r' || c == '\U{000B}' || c == '\U{000C}'
  }

  /** The class `\d`. */
  predicate IsDigit(c: char) {
    '0' <= c <= '9'
  }

  /** The class `[a-zA-Z]`. */
  predicate IsLetter(c: char) {
    'a' <= c <= 'z' || 'A' <= c <= 'Z'
  }

  predicate IsUpper(c: char) {
    'A' <= c <= 'Z'
  }

  predicate AllDigits(s: string) {
    forall i | 0 <= i < |s| :: IsDigit(s[i])
  }

  // ---------------------------------------------------------------------------
  // toLowerCase

  /** The lower-case alphabet, in order. */
  const LowerAlphabet: string := "abcdefghijklmnopqrstuvwxyz"

  /**
   * ASCII `toLowerCase` of one character: an upper-case letter becomes the
   * lower-case letter at the same place in the alphabet, and every other
   * character is kept.
   */
  function LowerChar(c: char): (r: char)
    ensures !IsUpper(r)
    ensures IsLetter(r) <==> IsLetter(c)
    ensures IsUpper(c) ==> r == LowerAlphabet[c as int - 'A' as int]
    ensures !IsUpper(c) ==> r == c
  {
    if IsUpper(c) then (c as int + 32) as char else c
  }

  function ToLower(s: string): (r: string)
  {
    seq(|s|, i requires 0 <= i < |s| => LowerChar(s[i]))
  }

  /** Lower-casing changes no length, leaves no upper-case letter and is idempotent. */
  lemma ToLowerIdempotent(s: string)
    ensures |ToLower(s)| == |s|
    ensures forall i | 0 <= i < |s| :: !IsUpper(ToLower(s)[i])
    ensures ToLower(ToLower(s)) == ToLower(s)
  {
  }

  // ---------------------------------------------------------------------------
  // trim

  /** The number of whitespace characters at the front of `s`. */
  function LeadingSpaces(s: string): (n: nat)
    ensures n <= |s|
    ensures forall k | 0 <= k < n :: IsSpace(s[k])
    ensures n < |s| ==> !IsSpace(s[n])
  {
    if s != [] && IsSpace(s[0]) then 1 + LeadingSpaces(s[1..]) else 0
  }

  /** The number of whitespace characters at the back of `s`. */
  function TrailingSpaces(s: string): (n: nat)
    ensures n <= |s|
    ensures forall k | |s| - n <= k < |s| :: IsSpace(s[k])
    ensures n < |s| ==> !IsSpace(s[|s| - 1 - n])
  {
    if s != [] && IsSpace(s[|s| - 1]) then 1 + TrailingSpaces(s[..|s| - 1]) else 0
  }

  /** `r` is the slice of `s` at `a`, and everything around it is whitespace. */
  predicate CutFrom(s: string, r: string, a: int) {
    && 0 <= a <= |s| - |r|
    && r == s[a..a + |r|]
    && (forall k | 0 <= k < a :: IsSpace(s[k]))
    && (forall k | a + |r| <= k < |s| :: IsSpace(s[k]))
  }

  /**
   * `String.prototype.trim`: the result is a slice of `s` that neither starts
   * nor ends with whitespace, and only whitespace was cut on either side.
   */
  function Trim(s: string): (r: string)
    ensures |r| <= |s|
    ensures r == [] || (!IsSpace(r[0]) && !IsSpace(r[|r| - 1]))
    ensures CutFrom(s, r, LeadingSpaces(s))
    ensures r == [] <==> forall k | 0 <= k < |s| :: IsSpace(s[k])
  {
    var a := LeadingSpaces(s);
    var rest := s[a..];
    var b := TrailingSpaces(rest);
    var r := rest[..|rest| - b];
    assert r == s[a..a + |r|];
    r
  }

  /** Trimming an already trimmed string changes nothing. */
  lemma TrimIdempotent(s: string)
    ensures Trim(Trim(s)) == Trim(s)
  {
  }

  // ---------------------------------------------------------------------------
  // includes

  predicate IsPrefix(p: string, s: string) {
    |p| <= |s| && s[..|p|] == p
  }

  /** `s.includes(p)`, scanning the start positions of `s` from left to right. */
  predicate Contains(s: string, p: string)
    decreases |s|
  {
    IsPrefix(p, s) || (s != [] && Contains(s[1..], p))
  }

  /** `p` occurs in `s` starting at position `i`. */
  predicate OccursAt(s: string, p: string, i: int) {
    0 <= i <= |s| - |p| && s[i..i + |p|] == p
  }

  /** The scan finds `p` exactly when `p` occurs in `s` at some position. */
  lemma {:induction false} ContainsOccurs(s: string, p: string)
    ensures Contains(s, p) <==> exists i :: OccursAt(s, p, i)
    decreases |s|
  {
    if IsPrefix(p, s) {
      assert OccursAt(s, p, 0);
    }
    if s == [] {
      if i :| OccursAt(s, p, i) {
        assert IsPrefix(p, s);
      }
    } else {
      ContainsOccurs(s[1..], p);
      if !IsPrefix(p, s) && Contains(s[1..], p) {
        var i :| OccursAt(s[1..], p, i);
        assert s[i + 1..i + 1 + |p|] == s[1..][i..i + |p|];
        assert OccursAt(s, p, i + 1);
      }
      if i :| OccursAt(s, p, i) {
        if i == 0 {
          assert IsPrefix(p, s);
        } else {
          assert s[1..][i - 1..i - 1 + |p|] == s[i..i + |p|];
          assert OccursAt(s[1..], p, i - 1);
        }
      }
    }
  }

  /** Every string includes the empty string. */
  lemma ContainsEmpty(s: string)
    ensures Contains(s, [])
  {
  }

  // ---------------------------------------------------------------------------
  // ordering of strings by `<` and `>`

  /** `a <= b` between JavaScript strings: lexicographic, a proper prefix first. */
  predicate LexLe(a: string, b: string) {
    a == [] || (b != [] && (a[0] < b[0] || (a[0] == b[0] && LexLe(a[1..], b[1..]))))
  }

  lemma {:induction false} LexLeTotal(a: string, b: string)
    ensures LexLe(a, b) || LexLe(b, a)
  {
    if a != [] && b != [] && a[0] == b[0] {
      LexLeTotal(a[1..], b[1..]);
    }
  }

  lemma {:induction false} LexLeTransitive(a: string, b: string, c: string)
    requires LexLe(a, b) && LexLe(b, c)
    ensures LexLe(a, c)
  {
    if a != [] && a[0] == b[0] && b[0] == c[0] {
      LexLeTransitive(a[1..], b[1..], c[1..]);
    }
  }

  // ---------------------------------------------------------------------------
  // parseFloat of a digit string

  /** The value of one decimal digit; a non-digit counts as 0. */
  function DigitValue(c: char): (v: nat)
    ensures v <= 9
    ensures IsDigit(c) ==> v == c as int - '0' as int
  {
    if IsDigit(c) then c as int - '0' as int else 0
  }

  /** `10` to the power `n`. */
  function Pow10(n: nat): (p: nat)
    ensures p >= 1
  {
    if n == 0 then 1 else 10 * Pow10(n - 1)
  }

  /**
   * The decimal value of a digit string, read from left to right; it has
   * fewer digits than the string has characters, so it stays below `10^|s|`.
   */
  function DigitsValue(s: string): (v: nat)
    ensures v < Pow10(|s|)
  {
    if s == [] then 0
    else
      var init := DigitsValue(s[..|s| - 1]);
      assert init + 1 <= Pow10(|s| - 1);
      10 * init + DigitValue(s[|s| - 1])
  }

  /** The leading digit of `s` weighs `10^(|s|-1)`. */
  lemma {:induction false} DigitsValueHead(s: string)
    requires s != []
    ensures DigitsValue(s) == DigitValue(s[0]) * Pow10(|s| - 1) + DigitsValue(s[1..])
    decreases |s|
  {
    if |s| > 1 {
      var init := s[..|s| - 1];
      DigitsValueHead(init);
      var d, q, e := DigitValue(s[0]), Pow10(|s| - 2), DigitValue(s[|s| - 1]);
      assert init[0] == s[0];
      assert init[1..] == s[1..][..|s| - 2];
      var t := DigitsValue(init[1..]);
      assert DigitsValue(init) == d * q + t;
      assert DigitsValue(s[1..]) == 10 * t + e;
      assert Pow10(|s| - 1) == 10 * q;
      ShiftDigit(d, q, t);
    }
  }

  /** Appending a digit multiplies the weight of every earlier digit by ten. */
  lemma ShiftDigit(d: nat, q: nat, t: nat)
    ensures 10 * (d * q + t) == d * (10 * q) + 10 * t
  {
  }

  /** A smaller leading digit followed by anything gives a smaller number. */
  lemma LeadingDigitDecides(x: nat, y: nat, ra: nat, rb: nat, p: nat)
    requires x < y && ra < p && rb < p
    ensures x * p + ra < y * p + rb
  {
    assert x * p + p <= y * p by {
      assert (x + 1) * p <= y * p;
    }
  }

  /**
   * Two digit strings of the same length are ordered by value exactly as they
   * are ordered as text: comparing ids numerically only differs from comparing
   * them as text when their lengths differ.
   */
  lemma {:induction false} DigitsValueOrder(a: string, b: string)
    requires AllDigits(a) && AllDigits(b) && |a| == |b|
    ensures DigitsValue(a) <= DigitsValue(b) <==> LexLe(a, b)
    decreases |a|
  {
    if a != [] {
      DigitsValueHead(a);
      DigitsValueHead(b);
      var p := Pow10(|a| - 1);
      var ra, rb := DigitsValue(a[1..]), DigitsValue(b[1..]);
      assert IsDigit(a[0]) && IsDigit(b[0]);
      if a[0] < b[0] {
        LeadingDigitDecides(DigitValue(a[0]), DigitValue(b[0]), ra, rb, p);
      } else if b[0] < a[0] {
        LeadingDigitDecides(DigitValue(b[0]), DigitValue(a[0]), rb, ra, p);
      } else {
        assert AllDigits(a[1..]) && AllDigits(b[1..]) by {
          assert forall i | 0 <= i < |a| - 1 :: a[1..][i] == a[i + 1] && b[1..][i] == b[i + 1];
        }
        DigitsValueOrder(a[1..], b[1..]);
      }
    }
  }
}
