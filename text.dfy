/** Character classes and string relations used by the validators, the
    searches and the file-name normaliser.

    Python's `str.isalpha`, `str.isdigit` and `str.upper` are Unicode-wide.
    This model approximates them: a letter is an ASCII letter or one of the
    Cyrillic letters of the file sorter's transliteration table, a digit is
    an ASCII digit, and upper-casing maps exactly those lower-case letters. */
module Text {

  predicate IsAsciiUpper(c: char) { 'A' <= c <= 'Z' }
  predicate IsAsciiLower(c: char) { 'a' <= c <= 'z' }
  predicate IsAsciiLetter(c: char) { IsAsciiUpper(c) || IsAsciiLower(c) }
  predicate IsAsciiDigit(c: char) { '0' <= c <= '9' }
  predicate IsAsciiAlnum(c: char) { IsAsciiLetter(c) || IsAsciiDigit(c) }

  /** The Russian and Ukrainian letters: А..я (U+0410..U+044F) together with
      Ё ё Є є І і Ї ї Ґ ґ. */
  predicate IsCyrillicLetter(c: char) {
    || ('\U{0410}' <= c <= '\U{044F}')
    || c == '\U{0401}' || c == '\U{0451}'
    || c == '\U{0404}' || c == '\U{0454}'
    || c == '\U{0406}' || c == '\U{0456}'
    || c == '\U{0407}' || c == '\U{0457}'
    || c == '\U{0490}' || c == '\U{0491}'
  }

  predicate IsLetter(c: char) { IsAsciiLetter(c) || IsCyrillicLetter(c) }

  /** A character of a regular expression's `\w` class. */
  predicate IsWordChar(c: char) { IsLetter(c) || IsAsciiDigit(c) || c == '_' }

  /** `str.isalpha()`: non-empty and every character a letter. */
  predicate IsAlpha(s: string) {
    |s| > 0 && forall i :: 0 <= i < |s| ==> IsLetter(s[i])
  }

  /** `str.isdigit()`: non-empty and every character a digit. */
  predicate IsDigits(s: string) {
    |s| > 0 && forall i :: 0 <= i < |s| ==> IsAsciiDigit(s[i])
  }

  /** No string is both letters and digits. */
  lemma AlphaNotDigits(s: string)
    requires IsAlpha(s)
    ensures !IsDigits(s)
  {
    assert IsLetter(s[0]);
  }

  /** One character of `str.upper()`. */
  function UpperChar(c: char): (u: char)
    ensures IsAsciiLower(c) ==> IsAsciiUpper(u)
    ensures !IsAsciiLower(c) && !IsCyrillicLetter(c) ==> u == c
    ensures IsAsciiUpper(c) ==> u == c
  {
    if IsAsciiLower(c) then (c as int - 32) as char
    else if '\U{0430}' <= c <= '\U{044F}' then (c as int - 0x20) as char
    else if c == '\U{0451}' || c == '\U{0454}' || c == '\U{0456}' || c == '\U{0457}' then (c as int - 0x50) as char
    else if c == '\U{0491}' then '\U{0490}'
    else c
  }

  /** `str.upper()`. */
  function Upper(s: string): (u: string)
    ensures |u| == |s|
    ensures forall i :: 0 <= i < |s| ==> u[i] == UpperChar(s[i])
  {
    seq(|s|, i requires 0 <= i < |s| => UpperChar(s[i]))
  }

  /** The lower-case letters of the model: ASCII a..z and the Cyrillic
      а..я, ё, є, і, ї, ґ. */
  predicate IsLowerCase(c: char) {
    || IsAsciiLower(c)
    || ('\U{0430}' <= c <= '\U{044F}')
    || c == '\U{0451}' || c == '\U{0454}' || c == '\U{0456}' || c == '\U{0457}' || c == '\U{0491}'
  }

  /** Upper-casing changes exactly the lower-case letters, and what it
      makes of them is no longer lower-case; an ASCII letter moves by 32. */
  lemma UpperCharCases(c: char)
    ensures UpperChar(c) != c <==> IsLowerCase(c)
    ensures !IsLowerCase(UpperChar(c))
    ensures IsAsciiLower(c) ==> UpperChar(c) as int == c as int - 32
  {
  }

  /** Upper-casing twice is upper-casing once. */
  lemma UpperIdempotent(s: string)
    ensures Upper(Upper(s)) == Upper(s)
  {
    forall i | 0 <= i < |s|
      ensures Upper(Upper(s))[i] == Upper(s)[i]
    {
      UpperCharCases(s[i]);
    }
  }

  /** A string is its own upper-case form exactly when it holds no
      lower-case letter. */
  lemma UpperFixedIff(s: string)
    ensures Upper(s) == s <==> forall i :: 0 <= i < |s| ==> !IsLowerCase(s[i])
  {
    if Upper(s) == s {
      forall i | 0 <= i < |s|
        ensures !IsLowerCase(s[i])
      {
        assert Upper(s)[i] == s[i];
        UpperCharCases(s[i]);
      }
    }
    if forall i :: 0 <= i < |s| ==> !IsLowerCase(s[i]) {
      forall i | 0 <= i < |s|
        ensures Upper(s)[i] == s[i]
      {
        UpperCharCases(s[i]);
      }
    }
  }

  predicate IsPrefix(p: string, s: string) {
    |p| <= |s| && s[..|p|] == p
  }

  /** Python's `p in s` for strings: `p` occurs in `s` as a contiguous
      substring (the empty string occurs everywhere). */
  predicate Contains(s: string, p: string)
    decreases |s|
  {
    IsPrefix(p, s) || (|s| > 0 && Contains(s[1..], p))
  }

  /** `p` occurs in `s` starting at position `i`. */
  predicate OccursAt(s: string, p: string, i: int) {
    0 <= i <= |s| - |p| && s[i..i + |p|] == p
  }

  /** A slice of `s` starting past its head is the shifted slice of its tail. */
  lemma SliceOfTail(s: string, i: int, n: int)
    requires 1 <= i && 0 <= n && i + n <= |s|
    ensures s[i..i + n] == s[1..][i - 1..i - 1 + n]
  {
    forall j | i <= j < i + n
      ensures s[j] == s[1..][j - 1]
    {
    }
  }

  /** `Contains` agrees with the positional definition of a substring. */
  lemma {:induction false} ContainsIff(s: string, p: string)
    ensures Contains(s, p) <==> exists i :: OccursAt(s, p, i)
    decreases |s|
  {
    if IsPrefix(p, s) {
      assert OccursAt(s, p, 0);
    } else if |s| > 0 {
      ContainsIff(s[1..], p);
      if Contains(s[1..], p) {
        var j :| OccursAt(s[1..], p, j);
        SliceOfTail(s, j + 1, |p|);
        assert OccursAt(s, p, j + 1);
      } else {
        assert !OccursAt(s, p, 0);
        forall i | 1 <= i && OccursAt(s, p, i)
          ensures OccursAt(s[1..], p, i - 1)
        {
          SliceOfTail(s, i, |p|);
        }
      }
    }
  }

  /** Python's string order `a <= b`: lexicographic by code point, a proper
      prefix first. */
  predicate StrLe(a: string, b: string)
    decreases |a|
  {
    a == [] || (b != [] && (a[0] < b[0] || (a[0] == b[0] && StrLe(a[1..], b[1..]))))
  }

  lemma {:induction false} StrLeTotal(a: string, b: string)
    ensures StrLe(a, b) || StrLe(b, a)
    decreases |a|
  {
    if a != [] && b != [] && a[0] == b[0] {
      StrLeTotal(a[1..], b[1..]);
    }
  }

  lemma {:induction false} StrLeTransitive(a: string, b: string, c: string)
    requires StrLe(a, b) && StrLe(b, c)
    ensures StrLe(a, c)
    decreases |a|
  {
    if a != [] && b != [] && c != [] && a[0] == b[0] && b[0] == c[0] {
      StrLeTransitive(a[1..], b[1..], c[1..]);
    }
  }

  lemma {:induction false} StrLeReflexive(a: string)
    ensures StrLe(a, a)
    decreases |a|
  {
    if a != [] {
      StrLeReflexive(a[1..]);
    }
  }

  lemma {:induction false} StrLeAntisymmetric(a: string, b: string)
    requires StrLe(a, b) && StrLe(b, a)
    ensures a == b
    decreases |a|
  {
    if a != [] && b != [] {
      StrLeAntisymmetric(a[1..], b[1..]);
      assert a == [a[0]] + a[1..] && b == [b[0]] + b[1..];
    }
  }
}
