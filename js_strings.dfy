/** The few JavaScript string operations the user actions and the schemas
    rely on: `toLowerCase`, `trim`, `length` (counted in UTF-16 code units)
    and the case-insensitive search used by `fetchUsers`. */
module JsStrings {

  // ---------------------------------------------------------------------
  // toLowerCase (ASCII letters only)

  predicate IsUpper(c: char) {
    'A' <= c <= 'Z'
  }

  function LowerChar(c: char): char {
    if IsUpper(c) then (c as int + 32) as char else c
  }

  /** `s.toLowerCase()`, restricted to the ASCII letters A-Z. */
  function ToLower(s: string): string {
    seq(|s|, i requires 0 <= i < |s| => LowerChar(s[i]))
  }

  /** Two characters are equal up to ASCII case. */
  predicate SameLetterIgnoringCase(a: char, b: char) {
    LowerChar(a) == LowerChar(b)
  }

  /** The lower-cased string never holds an upper-case letter, has the length
      of its input and is left alone by a second lower-casing. */
  lemma ToLowerIsLower(s: string)
    ensures |ToLower(s)| == |s|
    ensures forall i :: 0 <= i < |s| ==> !IsUpper(ToLower(s)[i])
    ensures ToLower(ToLower(s)) == ToLower(s)
  {
  }

  /** Strings that differ only in the case of their letters lower-case to the
      same string: whatever casing a user types, the stored form agrees. */
  lemma ToLowerIgnoresCase(a: string, b: string)
    requires |a| == |b|
    requires forall i :: 0 <= i < |a| ==> SameLetterIgnoringCase(a[i], b[i])
    ensures ToLower(a) == ToLower(b)
  {
  }

  /** Lower-casing fixes exactly the strings with no upper-case letter. */
  lemma ToLowerFixesLowerCase(s: string)
    ensures ToLower(s) == s <==> forall i :: 0 <= i < |s| ==> !IsUpper(s[i])
  {
    if ToLower(s) == s {
      forall i | 0 <= i < |s| ensures !IsUpper(s[i]) {
        assert ToLower(s)[i] == s[i];
      }
    }
  }

  // ---------------------------------------------------------------------
  // trim

  /** ECMAScript WhiteSpace and LineTerminator code points, the characters
      that `String.prototype.trim` removes. */
  predicate IsJsWhitespace(c: char) {
    || c == '\t' || c == '\n' || c == '\r' || c == ' '
    || c == '\U{B}' || c == '\U{C}' || c == '\U{A0}' || c == '\U{1680}'
    || ('\U{2000}' <= c <= '\U{200A}')
    || c == '\U{2028}' || c == '\U{2029}' || c == '\U{202F}' || c == '\U{205F}'
    || c == '\U{3000}' || c == '\U{FEFF}'
  }

  function TrimStart(s: string): string {
    if |s| > 0 && IsJsWhitespace(s[0]) then TrimStart(s[1..]) else s
  }

  function TrimEnd(s: string): string {
    if |s| > 0 && IsJsWhitespace(s[|s| - 1]) then TrimEnd(s[..|s| - 1]) else s
  }

  /** `s.trim()`. */
  function Trim(s: string): string {
    TrimEnd(TrimStart(s))
  }

  /** A string is blank when it holds whitespace only. */
  predicate IsBlank(s: string) {
    forall i :: 0 <= i < |s| ==> IsJsWhitespace(s[i])
  }

  lemma BlankCons(c: char, t: string)
    requires IsJsWhitespace(c) && IsBlank(t)
    ensures IsBlank([c] + t)
  {
    forall i | 0 <= i < |[c] + t| ensures IsJsWhitespace(([c] + t)[i]) {
      if i > 0 { assert ([c] + t)[i] == t[i - 1]; }
    }
  }

  /** What trimming the start drops is whitespace. */
  lemma {:induction false} TrimStartDropsBlank(s: string)
    ensures |TrimStart(s)| <= |s| && IsBlank(s[..|s| - |TrimStart(s)|])
  {
    if |s| > 0 && IsJsWhitespace(s[0]) {
      var t := s[1..];
      TrimStartDropsBlank(t);
      assert s[..|s| - |TrimStart(s)|] == [s[0]] + t[..|t| - |TrimStart(t)|];
      BlankCons(s[0], t[..|t| - |TrimStart(t)|]);
    }
  }

  lemma {:induction false} TrimStartShape(s: string)
    ensures |TrimStart(s)| <= |s| && TrimStart(s) == s[|s| - |TrimStart(s)|..]
    ensures TrimStart(s) == [] <==> IsBlank(s)
    ensures TrimStart(s) != [] ==> !IsJsWhitespace(TrimStart(s)[0])
    ensures IsBlank(s[..|s| - |TrimStart(s)|])
  {
    TrimStartDropsBlank(s);
    if |s| > 0 && IsJsWhitespace(s[0]) {
      TrimStartShape(s[1..]);
      assert IsBlank(s) <==> IsBlank(s[1..]) by {
        if IsBlank(s[1..]) {
          forall i | 0 <= i < |s| ensures IsJsWhitespace(s[i]) {
            if i > 0 { assert s[i] == s[1..][i - 1]; }
          }
        }
      }
    } else if |s| > 0 {
      assert !IsBlank(s) by { assert !IsJsWhitespace(s[0]); }
    }
  }

  lemma {:induction false} TrimEndShape(s: string)
    ensures |TrimEnd(s)| <= |s| && TrimEnd(s) == s[..|TrimEnd(s)|]
    ensures TrimEnd(s) == [] <==> IsBlank(s)
    ensures TrimEnd(s) != [] ==> !IsJsWhitespace(TrimEnd(s)[|TrimEnd(s)| - 1])
    ensures IsBlank(s[|TrimEnd(s)|..])
  {
    if |s| > 0 && IsJsWhitespace(s[|s| - 1]) {
      var t := s[..|s| - 1];
      TrimEndShape(t);
      assert s[|TrimEnd(s)|..] == t[|TrimEnd(t)|..] + [s[|s| - 1]];
      assert IsBlank(s) <==> IsBlank(t) by {
        if IsBlank(t) {
          forall i | 0 <= i < |s| ensures IsJsWhitespace(s[i]) {
            if i < |s| - 1 { assert s[i] == t[i]; }
          }
        }
      }
    } else if |s| > 0 {
      assert !IsBlank(s) by { assert !IsJsWhitespace(s[|s| - 1]); }
    }
  }

  /** `s.trim() !== ""` holds exactly when `s` has a non-whitespace character,
      and a non-empty trimmed string neither starts nor ends with whitespace. */
  lemma TrimEmptyIffBlank(s: string)
    ensures Trim(s) == [] <==> IsBlank(s)
    ensures Trim(s) != [] ==> !IsJsWhitespace(Trim(s)[0]) && !IsJsWhitespace(Trim(s)[|Trim(s)| - 1])
  {
    var t := TrimStart(s);
    TrimStartShape(s);
    TrimEndShape(t);
    if Trim(s) != [] {
      assert Trim(s)[0] == t[0];
    }
  }

  // ---------------------------------------------------------------------
  // length

  /** `s.length`: the number of UTF-16 code units, so a character outside
      the Basic Multilingual Plane counts twice. */
  function Utf16Length(s: string): nat {
    if s == [] then 0
    else (if s[0] as int >= 0x1_0000 then 2 else 1) + Utf16Length(s[1..])
  }

  lemma {:induction false} Utf16LengthBounds(s: string)
    ensures |s| <= Utf16Length(s) <= 2 * |s|
    ensures Utf16Length(s) == 0 <==> s == []
  {
    if s != [] {
      Utf16LengthBounds(s[1..]);
    }
  }

  // ---------------------------------------------------------------------
  // case-insensitive search

  predicate IsPrefix(p: string, s: string) {
    |p| <= |s| && s[..|p|] == p
  }

  /** `p` occurs in `s` at some position. */
  predicate Contains(s: string, p: string)
    decreases |s|
  {
    IsPrefix(p, s) || (|s| > 0 && Contains(s[1..], p))
  }

  /** `p` is found in `s` starting at index `k`. */
  predicate OccursAt(s: string, p: string, k: int) {
    0 <= k && k + |p| <= |s| && s[k..k + |p|] == p
  }

  /** The recursive search agrees with "some index where `p` occurs". */
  lemma {:induction false} ContainsAt(s: string, p: string)
    ensures Contains(s, p) <==> exists k :: OccursAt(s, p, k)
    decreases |s|
  {
    if IsPrefix(p, s) {
      assert OccursAt(s, p, 0);
    } else if |s| > 0 {
      ContainsAt(s[1..], p);
      if exists k :: OccursAt(s, p, k) {
        var k :| OccursAt(s, p, k);
        assert k != 0;
        assert s[1..][k - 1..k - 1 + |p|] == s[k..k + |p|];
        assert OccursAt(s[1..], p, k - 1);
      }
      if Contains(s[1..], p) {
        var k :| OccursAt(s[1..], p, k);
        assert s[k + 1..k + 1 + |p|] == s[1..][k..k + |p|];
        assert OccursAt(s, p, k + 1);
      }
    }
  }

  /** The search of `fetchUsers`: `new RegExp(pattern, 'i').test(s)` for a
      pattern without regular-expression metacharacters, which is a
      case-insensitive substring test. */
  predicate Matches(pattern: string, s: string) {
    Contains(ToLower(s), ToLower(pattern))
  }

  /** The case-insensitive search ignores the casing of both the pattern and
      the searched text. */
  lemma MatchesIgnoresCase(pattern: string, pattern': string, s: string, s': string)
    requires |pattern| == |pattern'| && |s| == |s'|
    requires forall i :: 0 <= i < |pattern| ==> SameLetterIgnoringCase(pattern[i], pattern'[i])
    requires forall i :: 0 <= i < |s| ==> SameLetterIgnoringCase(s[i], s'[i])
    ensures Matches(pattern, s) <==> Matches(pattern', s')
  {
    ToLowerIgnoresCase(pattern, pattern');
    ToLowerIgnoresCase(s, s');
  }

  /** The search "ann" finds the name "Ann". */
  lemma AnnMatchesAnn()
    ensures Matches("ann", "Ann")
  {
    assert ToLower("Ann") == "ann";
    assert ToLower("ann") == "ann";
    assert IsPrefix("ann", "ann");
  }

}
