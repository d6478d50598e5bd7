// String primitives of the JavaScript runtime that the application relies on:
// decimal rendering and parsing of integers, code-unit string comparison,
// the `\s` character class, `trim`, and the case mappings used on Hungarian text.

module Text {

  // ---------------------------------------------------------------------------
  // Digits and decimal numbers
  // ---------------------------------------------------------------------------

  predicate IsDigit(c: char) { '0' <= c <= '9' }

  predicate AllDigits(s: string) { forall i :: 0 <= i < |s| ==> IsDigit(s[i]) }

  function DigitValue(c: char): (d: nat)
    requires IsDigit(c)
    ensures d < 10
  {
    (c as int - '0' as int) as nat
  }

  function DigitChar(d: nat): (c: char)
    requires d < 10
    ensures IsDigit(c) && DigitValue(c) == d
  {
    ('0' as int + d) as char
  }

  /** `parseInt` applied to a string of decimal digits (the empty string counts as 0). */
  function DigitsValue(s: string): nat
    requires AllDigits(s)
  {
    if s == [] then 0 else 10 * DigitsValue(s[..|s| - 1]) + DigitValue(s[|s| - 1])
  }

  /** `n.toString()` for a non-negative integer: shortest decimal rendering. */
  function NatToString(n: nat): (r: string)
    ensures |r| >= 1 && AllDigits(r)
    ensures r[0] == '0' ==> n == 0 && |r| == 1
  {
    if n < 10 then [DigitChar(n)] else NatToString(n / 10) + [DigitChar(n % 10)]
  }

  /** Template-literal rendering of an integer, with a leading '-' for negatives. */
  function IntToString(n: int): (r: string)
    ensures |r| >= 1
  {
    if n < 0 then "-" + NatToString(-n) else NatToString(n)
  }

  lemma {:induction false} NatToStringValue(n: nat)
    ensures DigitsValue(NatToString(n)) == n
  {
    if n >= 10 {
      var p := NatToString(n / 10);
      NatToStringValue(n / 10);
      assert (p + [DigitChar(n % 10)])[..|p|] == p;
    }
  }

  lemma NatToStringInjective(a: nat, b: nat)
    ensures NatToString(a) == NatToString(b) ==> a == b
  {
    NatToStringValue(a);
    NatToStringValue(b);
  }

  /** Distinct integers render to distinct texts. */
  lemma IntToStringInjective(a: int, b: int)
    ensures IntToString(a) == IntToString(b) ==> a == b
  {
    if IntToString(a) == IntToString(b) {
      if a < 0 && b < 0 {
        assert NatToString(-a) == IntToString(a)[1..];
        assert NatToString(-b) == IntToString(b)[1..];
        NatToStringInjective(-a, -b);
      } else if a >= 0 && b >= 0 {
        NatToStringInjective(a, b);
      }
      // Otherwise one rendering starts with '-' and the other with a digit.
    }
  }

  /** `s.padStart(2, "0")`. */
  function PadStart2(s: string): (r: string)
    ensures |r| == if |s| < 2 then 2 else |s|
  {
    if |s| == 0 then "00" else if |s| == 1 then "0" + s else s
  }

  /** Padding only puts zeros in front of the input. */
  lemma PadStart2Contents(s: string)
    ensures PadStart2(s)[|PadStart2(s)| - |s|..] == s
    ensures forall i :: 0 <= i < |PadStart2(s)| - |s| ==> PadStart2(s)[i] == '0'
  {
  }

  lemma DigitCharOfValue(c: char)
    requires IsDigit(c)
    ensures DigitChar(DigitValue(c)) == c
  {
  }

  lemma TwoDigitValue(s: string)
    requires |s| == 2 && AllDigits(s)
    ensures DigitsValue(s) == 10 * DigitValue(s[0]) + DigitValue(s[1])
  {
    var first := s[..1];
    assert first == [s[0]] && first[..0] == [];
    assert DigitsValue(first) == 10 * DigitsValue(first[..0]) + DigitValue(first[0]);
    assert DigitsValue(s) == 10 * DigitsValue(first) + DigitValue(s[1]);
  }

  lemma TwoDigitRender(hi: nat, lo: nat)
    requires 1 <= hi < 10 && lo < 10
    ensures NatToString(10 * hi + lo) == [DigitChar(hi), DigitChar(lo)]
  {
    var v := 10 * hi + lo;
    assert v >= 10 && v / 10 == hi && v % 10 == lo;
    assert NatToString(hi) == [DigitChar(hi)];
  }

  lemma OneDigitReparse(s: string)
    requires |s| == 1 && AllDigits(s)
    ensures NatToString(DigitsValue(s)) == s
  {
    assert s[..0] == [];
    assert DigitsValue(s) == DigitValue(s[0]);
    DigitCharOfValue(s[0]);
    assert NatToString(DigitValue(s[0])) == [s[0]];
  }

  lemma TwoDigitReparse(s: string)
    requires |s| == 2 && AllDigits(s)
    ensures s[0] == '0' ==> NatToString(DigitsValue(s)) == [s[1]]
    ensures s[0] != '0' ==> NatToString(DigitsValue(s)) == s
  {
    var hi, lo := DigitValue(s[0]), DigitValue(s[1]);
    TwoDigitValue(s);
    DigitCharOfValue(s[0]);
    DigitCharOfValue(s[1]);
    if hi == 0 {
      assert NatToString(lo) == [s[1]];
    } else {
      TwoDigitRender(hi, lo);
      assert s == [s[0], s[1]];
    }
  }

  /** Reading one or two digits with `parseInt` and printing them back with
      `toString().padStart(2, "0")` left-pads the original digits to two places. */
  lemma PadStart2Reparse(s: string)
    requires 1 <= |s| <= 2 && AllDigits(s)
    ensures PadStart2(NatToString(DigitsValue(s))) == PadStart2(s)
  {
    if |s| == 1 {
      OneDigitReparse(s);
    } else {
      TwoDigitReparse(s);
      if s[0] == '0' {
        assert "0" + [s[1]] == s;
      }
    }
  }

  // ---------------------------------------------------------------------------
  // String comparison (`<`, `>=` on strings compare character by character)
  // ---------------------------------------------------------------------------

  /** Three-way lexicographic comparison by character code. */
  function LexCmp(a: string, b: string): (r: int)
    ensures -1 <= r <= 1
    ensures r == 0 <==> a == b
  {
    if a == [] && b == [] then 0
    else if a == [] then -1
    else if b == [] then 1
    else if a[0] < b[0] then -1
    else if a[0] > b[0] then 1
    else LexCmp(a[1..], b[1..])
  }

  /** JavaScript's `a < b` on strings. */
  predicate LexLess(a: string, b: string) { LexCmp(a, b) < 0 }

  lemma {:induction false} LexCmpAntisymmetric(a: string, b: string)
    ensures LexCmp(a, b) == -LexCmp(b, a)
  {
    if a != [] && b != [] && a[0] == b[0] {
      LexCmpAntisymmetric(a[1..], b[1..]);
    }
  }

  lemma {:induction false} LexCmpTransitive(a: string, b: string, c: string)
    requires LexCmp(a, b) <= 0 && LexCmp(b, c) <= 0
    ensures LexCmp(a, c) <= 0
  {
    if a != [] && b != [] && c != [] && a[0] == b[0] && b[0] == c[0] {
      LexCmpTransitive(a[1..], b[1..], c[1..]);
    }
  }

  // ---------------------------------------------------------------------------
  // Whitespace: the `\s` class of JavaScript regular expressions
  // ---------------------------------------------------------------------------

  predicate IsLineTerminator(c: char)
  {
    c == '\n' || c == '\r' || c == '\U{2028}' || c == '\U{2029}'
  }

  predicate IsSpace(c: char)
  {
    || c == '\t' || c == '\U{B}' || c == '\U{C}' || c == ' ' || c == '\U{A0}'
    || c == '\U{1680}' || ('\U{2000}' <= c <= '\U{200A}') || c == '\U{202F}'
    || c == '\U{205F}' || c == '\U{3000}' || c == '\U{FEFF}'
    || IsLineTerminator(c)
  }

  function TrimStart(s: string): (r: string)
    ensures |r| <= |s| && r == s[|s| - |r|..]
    ensures r != [] ==> !IsSpace(r[0])
  {
    if s != [] && IsSpace(s[0]) then TrimStart(s[1..]) else s
  }

  function TrimEnd(s: string): (r: string)
    ensures |r| <= |s| && r == s[..|r|]
    ensures r != [] ==> !IsSpace(r[|r| - 1])
  {
    if s != [] && IsSpace(s[|s| - 1]) then TrimEnd(s[..|s| - 1]) else s
  }

  /** `String.prototype.trim`. */
  function Trim(s: string): (r: string)
    ensures r != [] ==> !IsSpace(r[0]) && !IsSpace(r[|r| - 1])
  {
    TrimEnd(TrimStart(s))
  }

  lemma {:induction false} TrimStartDropsSpace(s: string)
    ensures forall i :: 0 <= i < |s| - |TrimStart(s)| ==> IsSpace(s[i])
  {
    if s != [] && IsSpace(s[0]) {
      TrimStartDropsSpace(s[1..]);
      forall i | 1 <= i < |s| - |TrimStart(s)| ensures IsSpace(s[i]) {
        assert s[i] == s[1..][i - 1];
      }
    }
  }

  lemma {:induction false} TrimEndDropsSpace(s: string)
    ensures forall i :: |TrimEnd(s)| <= i < |s| ==> IsSpace(s[i])
  {
    if s != [] && IsSpace(s[|s| - 1]) {
      var init := s[..|s| - 1];
      TrimEndDropsSpace(init);
      forall i | |TrimEnd(s)| <= i < |s| - 1 ensures IsSpace(s[i]) {
        assert s[i] == init[i];
      }
    }
  }

  /** `s[a..b]` is what is left of `s` once only white space is cut off
      before `a` and from `b` on. */
  ghost predicate CutAtSpace(s: string, a: int, b: int)
  {
    && 0 <= a <= b <= |s|
    && (forall i :: 0 <= i < a ==> IsSpace(s[i]))
    && (forall i :: b <= i < |s| ==> IsSpace(s[i]))
  }

  /** `trim` cuts a slice out of its input and drops only white space on
      either side of it; it is empty exactly for a string of white space. */
  lemma TrimIsSlice(s: string)
    ensures exists a, b :: CutAtSpace(s, a, b) && Trim(s) == s[a..b]
    ensures Trim(s) == [] <==> forall i :: 0 <= i < |s| ==> IsSpace(s[i])
  {
    var t := TrimStart(s);
    var r := Trim(s);
    var a := |s| - |t|;
    var b := a + |r|;
    assert r == s[a..b] by {
      assert r == t[..|r|];
    }
    assert CutAtSpace(s, a, b) by {
      TrimStartDropsSpace(s);
      TrimEndDropsSpace(t);
      forall i | b <= i < |s| ensures IsSpace(s[i]) {
        assert s[i] == t[i - a];
      }
    }
    if r != [] {
      assert s[a] == r[0];
    }
  }

  /** Trimming leaves a string that neither starts nor ends with white space unchanged. */
  lemma TrimUnspaced(s: string)
    requires s != [] ==> !IsSpace(s[0]) && !IsSpace(s[|s| - 1])
    ensures Trim(s) == s
  {
  }

  // ---------------------------------------------------------------------------
  // Case mapping (ASCII, Latin-1 and the Hungarian double-acute letters)
  // ---------------------------------------------------------------------------

  function ToUpperChar(c: char): char
  {
    if 'a' <= c <= 'z' then (c as int - 32) as char
    else if '\U{E0}' <= c <= '\U{FE}' && c != '\U{F7}' then (c as int - 32) as char
    else if c == 'ő' then 'Ő'
    else if c == 'ű' then 'Ű'
    else c
  }

  function ToLowerChar(c: char): char
  {
    if 'A' <= c <= 'Z' then (c as int + 32) as char
    else if '\U{C0}' <= c <= '\U{DE}' && c != '\U{D7}' then (c as int + 32) as char
    else if c == 'Ő' then 'ő'
    else if c == 'Ű' then 'ű'
    else c
  }

  function ToLower(s: string): (r: string)
    ensures |r| == |s|
    ensures forall i :: 0 <= i < |s| ==> r[i] == ToLowerChar(s[i])
  {
    if s == [] then [] else [ToLowerChar(s[0])] + ToLower(s[1..])
  }

  /** `s.charAt(0).toUpperCase() + s.slice(1).toLowerCase()`. */
  function Capitalize(s: string): (r: string)
    ensures |r| == |s|
    ensures s != [] ==> r[0] == ToUpperChar(s[0])
    ensures forall i :: 1 <= i < |s| ==> r[i] == ToLowerChar(s[i])
  {
    if s == [] then [] else [ToUpperChar(s[0])] + ToLower(s[1..])
  }

  // ---------------------------------------------------------------------------
  // Simple splitting
  // ---------------------------------------------------------------------------

  /** `s.split(" ")[0]`: everything before the first space character. */
  function FirstSpaceToken(s: string): (r: string)
    ensures |r| <= |s| && r == s[..|r|]
    ensures ' ' !in r
    ensures |r| < |s| ==> s[|r|] == ' '
  {
    if s == [] || s[0] == ' ' then [] else [s[0]] + FirstSpaceToken(s[1..])
  }
}
