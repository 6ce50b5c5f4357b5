/** The pieces of Python's string and integer built-ins that the handlers
    rely on: `str.lower()` (on ASCII letters), `str.strip(chars)`, `str(n)`
    for an integer `n`, and `int(s)` for a string `s` in base 10. */
module Text {
  import opened Http

  // ---------------------------------------------------------------------------
  // Lower-casing

  function LowerChar(c: char): char {
    if 'A' <= c <= 'Z' then (c as int + 32) as char else c
  }

  /** `s.lower()`, restricted to the ASCII letters. */
  function Lower(s: string): (r: string)
    ensures |r| == |s| && IsLowerAscii(r)
    ensures forall i :: 0 <= i < |s| && !('A' <= s[i] <= 'Z') ==> r[i] == s[i]
  {
    seq(|s|, i requires 0 <= i < |s| => LowerChar(s[i]))
  }

  predicate IsLowerAscii(s: string) {
    forall i :: 0 <= i < |s| ==> !('A' <= s[i] <= 'Z')
  }

  /** Lower-casing yields the canonical form: it has no upper-case letter,
      lower-cased strings are left alone, and so two strings that differ only
      in case have one and the same canonical form. */
  lemma LowerIsCanonical(s: string, t: string)
    ensures IsLowerAscii(Lower(s))
    ensures IsLowerAscii(s) ==> Lower(s) == s
    ensures Lower(Lower(s)) == Lower(s)
  {
    if IsLowerAscii(s) {
      assert forall i :: 0 <= i < |s| ==> Lower(s)[i] == s[i];
    }
    assert forall i :: 0 <= i < |s| ==> Lower(Lower(s))[i] == Lower(s)[i];
  }

  // ---------------------------------------------------------------------------
  // Stripping

  /** `s.lstrip()` with the set of stripped characters given by `drop`:
      removes the longest prefix made only of dropped characters. */
  function StripLeft(s: string, drop: char -> bool): (r: string)
    ensures |r| <= |s| && r == s[|s| - |r|..]
    ensures r == [] || !drop(r[0])
    ensures forall i :: 0 <= i < |s| - |r| ==> drop(s[i])
    decreases |s|
  {
    if s != [] && drop(s[0]) then StripLeft(s[1..], drop) else s
  }

  /** `s.rstrip()` with the set of stripped characters given by `drop`:
      removes the longest suffix made only of dropped characters. */
  function StripRight(s: string, drop: char -> bool): (r: string)
    ensures |r| <= |s| && r == s[..|r|]
    ensures r == [] || !drop(r[|r| - 1])
    ensures forall i :: |r| <= i < |s| ==> drop(s[i])
    decreases |s|
  {
    if s != [] && drop(s[|s| - 1]) then StripRight(s[..|s| - 1], drop) else s
  }

  /** `s.strip()`: both ends. */
  function Strip(s: string, drop: char -> bool): (r: string)
    ensures |r| <= |s|
    ensures r == [] || (!drop(r[0]) && !drop(r[|r| - 1]))
  {
    StripRight(StripLeft(s, drop), drop)
  }

  /** A string that neither starts nor ends with a dropped character is
      left as it is by `Strip`. */
  lemma StripKeeps(s: string, drop: char -> bool)
    requires s != [] && !drop(s[0]) && !drop(s[|s| - 1])
    ensures Strip(s, drop) == s
  {
    var l := StripLeft(s, drop);
    assert l == s;
  }

  // ---------------------------------------------------------------------------
  // str(n) and int(s) for base-10 integers

  predicate IsDigit(c: char) {
    '0' <= c <= '9'
  }

  /** The characters `int()` skips around a number: tab, line feed, vertical
      tab, form feed, carriage return and space among the ASCII characters,
      and every non-ASCII code point for which `str.isspace()` holds. The
      ASCII separators U+001C to U+001F count as white space for
      `str.isspace()` but are not skipped by `int()`. */
  predicate IsPySpace(c: char) {
    var n := c as int;
    9 <= n <= 13 || n == 32 || n == 0x85 || n == 0xA0 || n == 0x1680
    || 0x2000 <= n <= 0x200A || n == 0x2028 || n == 0x2029 || n == 0x202F
    || n == 0x205F || n == 0x3000
  }

  function DigitChar(d: nat): (c: char)
    requires d < 10
  {
    ('0' as int + d) as char
  }

  /** `str(n)` for a natural number: its decimal digits, most significant
      first, without leading zeros. */
  function NatToString(n: nat): (r: string)
    ensures r != []
    ensures forall i :: 0 <= i < |r| ==> IsDigit(r[i])
  {
    if n < 10 then [DigitChar(n)] else NatToString(n / 10) + [DigitChar(n % 10)]
  }

  /** `str(n)` for any integer. */
  function IntToString(n: int): (r: string)
    ensures r != [] && (r[0] == '-' <==> n < 0)
    ensures forall i :: 0 < i < |r| ==> IsDigit(r[i])
  {
    if n < 0 then "-" + NatToString(-n) else NatToString(n)
  }

  /** The digit part `int()` accepts in base 10: ASCII digits, possibly
      grouped by single underscores, starting and ending with a digit. */
  predicate IsDigitString(s: string) {
    && s != []
    && IsDigit(s[0])
    && IsDigit(s[|s| - 1])
    && (forall i :: 0 <= i < |s| ==> IsDigit(s[i]) || s[i] == '_')
    && (forall i :: 0 <= i < |s| - 1 ==> s[i] == '_' ==> s[i + 1] != '_')
  }

  /** The value of a digit string, underscores ignored. */
  function DigitsValue(s: string): nat {
    if s == [] then 0
    else
      var last := s[|s| - 1];
      if IsDigit(last) then DigitsValue(s[..|s| - 1]) * 10 + (last as int - '0' as int)
      else DigitsValue(s[..|s| - 1])
  }

  /** `int(s)` in base 10: `None` where Python raises `ValueError`. */
  function ParseInt(s: string): (r: Option<int>)
    ensures Strip(s, IsPySpace) == [] ==> r.None?
    ensures r.Some? && r.value < 0 ==> Strip(s, IsPySpace)[0] == '-'
  {
    var t := Strip(s, IsPySpace);
    if t != [] && (t[0] == '+' || t[0] == '-') then
      if IsDigitString(t[1..]) then
        var v: int := DigitsValue(t[1..]);
        Some(if t[0] == '-' then -v else v)
      else None
    else if IsDigitString(t) then Some(DigitsValue(t))
    else None
  }

  lemma {:induction false} DigitsValueOfNatToString(n: nat)
    ensures DigitsValue(NatToString(n)) == n
  {
    if n >= 10 {
      var s := NatToString(n);
      assert s[..|s| - 1] == NatToString(n / 10);
      DigitsValueOfNatToString(n / 10);
    }
  }

  /** `str(n)` neither starts nor ends with a character `int()` strips. */
  lemma IntToStringUnpadded(n: int)
    ensures var s := IntToString(n); s != [] && !IsPySpace(s[0]) && !IsPySpace(s[|s| - 1])
  {
    var digits := NatToString(if n < 0 then -n else n);
    assert IsDigit(digits[0]) && IsDigit(digits[|digits| - 1]);
  }

  /** `int()` refuses a number that an ASCII separator (U+001C to U+001F)
      precedes or follows: it does not skip them as white space. */
  lemma ParseIntRejectsSeparators()
    ensures ParseInt("\U{1C}5").None?
    ensures ParseInt("5\U{1F}").None?
  {
    SeparatorNotSkipped("\U{1C}5");
    SeparatorNotSkipped("5\U{1F}");
  }

  lemma SeparatorNotSkipped(s: string)
    requires |s| == 2 && (s[0] == '\U{1C}' || s[1] == '\U{1F}') && (s[0] == '5' || s[1] == '5')
    ensures ParseInt(s).None?
  {
    StripKeeps(s, IsPySpace);
    assert !IsDigitString(s);
  }

  /** `int(str(n)) == n`: the integer written by `str` is read back by `int`. */
  lemma ParseIntOfIntToString(n: int)
    ensures ParseInt(IntToString(n)) == Some(n)
  {
    if n < 0 {
      ParseNegative(n);
    } else {
      ParseNonNegative(n);
    }
  }

  lemma ParseNegative(n: int)
    requires n < 0
    ensures ParseInt(IntToString(n)) == Some(n)
  {
    var digits := NatToString(-n);
    var s := "-" + digits;
    assert s == IntToString(n);
    assert s[1..] == digits;
    NatToStringIsDigitString(-n);
    IntToStringUnpadded(n);
    StripKeeps(s, IsPySpace);
    ParseMinus(s);
    DigitsValueOfNatToString(-n);
  }

  lemma ParseNonNegative(n: int)
    requires n >= 0
    ensures ParseInt(IntToString(n)) == Some(n)
  {
    var digits := NatToString(n);
    assert digits == IntToString(n);
    NatToStringIsDigitString(n);
    IntToStringUnpadded(n);
    StripKeeps(digits, IsPySpace);
    DigitsValueOfNatToString(n);
  }

  lemma NatToStringIsDigitString(n: nat)
    ensures IsDigitString(NatToString(n))
  {
  }

  /** `int()` of an unpadded `-` followed by digits is minus their value. */
  lemma ParseMinus(t: string)
    requires Strip(t, IsPySpace) == t
    requires t != [] && t[0] == '-' && IsDigitString(t[1..])
    ensures ParseInt(t) == Some(-(DigitsValue(t[1..]) as int))
  {
  }
}
