/** The handful of Python `str` built-ins the core relies on: `strip()`,
    `lower()`, the `in` substring test, and decimal digits. */
module Text {

  /** Python's `str.isspace()`: the code points the default `strip()` removes. */
  predicate IsSpace(c: char)
  {
    var n := c as int;
    (0x09 <= n <= 0x0D) || (0x1C <= n <= 0x20) || n == 0x85 || n == 0xA0
    || n == 0x1680 || (0x2000 <= n <= 0x200A) || n == 0x2028 || n == 0x2029
    || n == 0x202F || n == 0x205F || n == 0x3000
  }

  /** How many leading characters `strip()` removes: the position of the
      first non-space character, or `|s|` when there is none. */
  function StripOffset(s: string): (i: nat)
    ensures i <= |s|
    ensures forall k :: 0 <= k < i ==> IsSpace(s[k])
    ensures i < |s| ==> !IsSpace(s[i])
  {
    if s == [] || !IsSpace(s[0]) then 0 else 1 + StripOffset(s[1..])
  }

  /** Where the part `strip()` keeps ends: just past the last non-space
      character, or 0 when there is none. */
  function StripLimit(s: string): (j: nat)
    ensures j <= |s|
    ensures forall k :: j <= k < |s| ==> IsSpace(s[k])
    ensures j > 0 ==> !IsSpace(s[j - 1])
  {
    if s == [] || !IsSpace(s[|s| - 1]) then |s| else StripLimit(s[..|s| - 1])
  }

  /** Python's `s.strip()`: the characters from the first to the last
      non-space one. */
  function Strip(s: string): string
  {
    if StripOffset(s) < StripLimit(s) then s[StripOffset(s)..StripLimit(s)] else []
  }

  lemma StripKeepsSlice(s: string)
    ensures StripOffset(s) + |Strip(s)| <= |s|
    ensures Strip(s) == s[StripOffset(s)..StripOffset(s) + |Strip(s)|]
  {
    StripBounds(s);
  }

  lemma StripCutsSpace(s: string)
    ensures forall k :: StripOffset(s) + |Strip(s)| <= k < |s| ==> IsSpace(s[k])
  {
    StripBounds(s);
  }

  lemma StripEndsNonSpace(s: string)
    ensures Strip(s) != [] ==> !IsSpace(Strip(s)[0]) && !IsSpace(Strip(s)[|Strip(s)| - 1])
  {
    var i, j := StripOffset(s), StripLimit(s);
    if i < j {
      var r := s[i..j];
      assert r[0] == s[i] && r[|r| - 1] == s[j - 1];
    }
  }

  /** `strip()` keeps a contiguous middle part of `s`, cuts off only whitespace
      on either side, and leaves no whitespace at either end. */
  lemma StripIsTrimmedSlice(s: string)
    ensures StripOffset(s) + |Strip(s)| <= |s|
    ensures Strip(s) == s[StripOffset(s)..StripOffset(s) + |Strip(s)|]
    ensures forall k :: 0 <= k < StripOffset(s) ==> IsSpace(s[k])
    ensures forall k :: StripOffset(s) + |Strip(s)| <= k < |s| ==> IsSpace(s[k])
    ensures Strip(s) != [] ==> !IsSpace(Strip(s)[0]) && !IsSpace(Strip(s)[|Strip(s)| - 1])
  {
    StripKeepsSlice(s);
    StripCutsSpace(s);
    StripEndsNonSpace(s);
  }

  /** Either some character survives `strip()`, or every character is
      whitespace and both ends meet at the edges. */
  lemma StripBounds(s: string)
    ensures StripOffset(s) < StripLimit(s) || (StripOffset(s) == |s| && StripLimit(s) == 0)
  {
    var i, j := StripOffset(s), StripLimit(s);
    if i < |s| {
      assert !IsSpace(s[i]);
    }
  }

  /** A string strips to the empty string exactly when it is all whitespace. */
  lemma StripEmptyIff(s: string)
    ensures Strip(s) == [] <==> forall k :: 0 <= k < |s| ==> IsSpace(s[k])
  {
    StripIsTrimmedSlice(s);
  }

  /** Stripping a stripped string changes nothing. */
  lemma StripIdempotent(s: string)
    ensures Strip(Strip(s)) == Strip(s)
  {
    var r := Strip(s);
    StripIsTrimmedSlice(s);
    if r != [] {
      assert StripOffset(r) == 0;
      assert StripLimit(r) == |r|;
      assert r[0..|r|] == r;
    }
  }

  /** `str.lower()` on one character, for the ASCII letters. */
  function LowerChar(c: char): (r: char)
    ensures 'A' <= c <= 'Z' ==> 'a' <= r <= 'z' && r as int - c as int == 32
    ensures !('A' <= c <= 'Z') ==> r == c
  {
    if 'A' <= c <= 'Z' then (c as int + 32) as char else c
  }

  /** `str.lower()`, character by character. */
  function Lower(s: string): (r: string)
    ensures |r| == |s| && forall k :: 0 <= k < |s| ==> r[k] == LowerChar(s[k])
  {
    seq(|s|, k requires 0 <= k < |s| => LowerChar(s[k]))
  }

  /** `lower()` leaves no ASCII capital letter, so lower-casing again
      changes nothing. */
  lemma LowerIdempotent(s: string)
    ensures forall k :: 0 <= k < |Lower(s)| ==> !('A' <= Lower(s)[k] <= 'Z')
    ensures Lower(Lower(s)) == Lower(s)
  {
    forall k | 0 <= k < |s| ensures LowerChar(LowerChar(s[k])) == LowerChar(s[k]) {
    }
  }

  predicate IsDigit(c: char)
  {
    '0' <= c <= '9'
  }

  predicate AllDigits(s: string)
  {
    forall k :: 0 <= k < |s| ==> IsDigit(s[k])
  }

  function DigitValue(c: char): (d: nat)
    requires IsDigit(c)
    ensures d < 10
  {
    c as int - '0' as int
  }

  function DigitChar(d: nat): (c: char)
    requires d < 10
    ensures IsDigit(c) && DigitValue(c) == d
  {
    ('0' as int + d) as char
  }

  function Pow10(n: nat): (p: nat)
    ensures p >= 1
  {
    if n == 0 then 1 else 10 * Pow10(n - 1)
  }

  /** The number a string of decimal digits denotes (leading zeros allowed). */
  function DigitsValue(s: string): (v: nat)
    requires AllDigits(s)
    ensures v < Pow10(|s|)
  {
    if s == [] then 0 else DigitsValue(s[..|s| - 1]) * 10 + DigitValue(s[|s| - 1])
  }

  /** `n` written with exactly `width` decimal digits, zero-padded on the left
      (only the low `width` digits of `n` survive). */
  function PaddedDigits(n: nat, width: nat): (s: string)
    ensures |s| == width && AllDigits(s)
  {
    if width == 0 then [] else PaddedDigits(n / 10, width - 1) + [DigitChar(n % 10)]
  }

  /** Writing a number that fits in `width` digits and reading it back gives the number. */
  lemma {:induction false} PaddedDigitsValue(n: nat, width: nat)
    requires n < Pow10(width)
    ensures DigitsValue(PaddedDigits(n, width)) == n
  {
    if width > 0 {
      var s := PaddedDigits(n, width);
      assert s[..|s| - 1] == PaddedDigits(n / 10, width - 1);
      PaddedDigitsValue(n / 10, width - 1);
    }
  }

  /** Reading a digit string and writing it back at the same width gives the string. */
  lemma {:induction false} DigitsValuePadded(s: string)
    requires AllDigits(s)
    ensures PaddedDigits(DigitsValue(s), |s|) == s
  {
    if s != [] {
      var p, c := s[..|s| - 1], s[|s| - 1];
      var v := DigitsValue(s);
      assert v == DigitsValue(p) * 10 + DigitValue(c);
      LastDigit(DigitsValue(p), DigitValue(c));
      DigitsValuePadded(p);
      assert DigitChar(DigitValue(c)) == c;
      assert PaddedDigits(v, |s|) == PaddedDigits(DigitsValue(p), |p|) + [c];
      assert s == p + [c];
    }
  }

  /** Appending a digit `d` to the number `a` and splitting it off again. */
  lemma LastDigit(a: nat, d: nat)
    requires d < 10
    ensures (a * 10 + d) / 10 == a && (a * 10 + d) % 10 == d
  {
  }

  /** `kw` occurs in `text` starting at position `i`. */
  predicate OccursAt(kw: string, text: string, i: int)
  {
    0 <= i <= |text| - |kw| && text[i..i + |kw|] == kw
  }

  /** Python's `kw in text` for strings: `kw` occurs in `text` at some position. */
  ghost predicate IsSubstring(kw: string, text: string)
  {
    exists i :: OccursAt(kw, text, i)
  }

  /** A left-to-right search for `kw` in `text`, the way `str.__contains__` scans. */
  predicate Occurs(kw: string, text: string)
    decreases |text|
  {
    if |kw| > |text| then false
    else text[..|kw|] == kw || (text != [] && Occurs(kw, text[1..]))
  }

  /** The search finds `kw` exactly when `kw` occurs at some position. */
  lemma {:induction false} OccursIff(kw: string, text: string)
    ensures Occurs(kw, text) <==> IsSubstring(kw, text)
    decreases |text|
  {
    if |kw| <= |text| {
      if text[..|kw|] == kw {
        assert OccursAt(kw, text, 0);
      } else if text != [] {
        OccursIff(kw, text[1..]);
        if IsSubstring(kw, text[1..]) {
          var i :| OccursAt(kw, text[1..], i);
          assert OccursAt(kw, text, i + 1);
        }
        if IsSubstring(kw, text) {
          var i :| OccursAt(kw, text, i);
          assert i != 0;
          assert OccursAt(kw, text[1..], i - 1);
        }
      }
    }
  }

  /** An occurrence of a string is also an occurrence of each of its prefixes. */
  lemma PrefixOccursToo(p: string, kw: string, text: string)
    requires |p| <= |kw| && kw[..|p|] == p
    requires IsSubstring(kw, text)
    ensures IsSubstring(p, text)
  {
    var i :| OccursAt(kw, text, i);
    assert OccursAt(p, text, i);
  }

  /** A string with a character that `text` lacks does not occur in `text`. */
  lemma MissingCharNotSubstring(kw: string, text: string, j: nat)
    requires j < |kw| && kw[j] !in text
    ensures !IsSubstring(kw, text)
  {
  }
}
