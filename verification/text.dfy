/** The string operations the handlers apply: Python's `str.strip()`,
    `lower()`/`upper()` restricted to ASCII letters, `in` on strings,
    `str(int)`/`int(str)` on decimal digits, and SQLite's `LIKE`. */
module Text {

  predicate IsAsciiUpper(c: char) { 'A' <= c <= 'Z' }
  predicate IsAsciiLower(c: char) { 'a' <= c <= 'z' }
  predicate IsDigit(c: char) { '0' <= c <= '9' }

  function LowerChar(c: char): char {
    if IsAsciiUpper(c) then (c as int + 32) as char else c
  }

  function UpperChar(c: char): char {
    if IsAsciiLower(c) then (c as int - 32) as char else c
  }

  /** `s.lower()` on ASCII letters; every other character is kept. */
  function Lower(s: string): (r: string)
    ensures |r| == |s|
    ensures forall i | 0 <= i < |s| :: r[i] == LowerChar(s[i])
  {
    if |s| == 0 then "" else [LowerChar(s[0])] + Lower(s[1..])
  }

  /** `s.upper()` on ASCII letters; every other character is kept. */
  function Upper(s: string): (r: string)
    ensures |r| == |s|
    ensures forall i | 0 <= i < |s| :: r[i] == UpperChar(s[i])
  {
    if |s| == 0 then "" else [UpperChar(s[0])] + Upper(s[1..])
  }

  predicate OccursAt(hay: string, needle: string, i: int) {
    0 <= i && i + |needle| <= |hay| && hay[i..i + |needle|] == needle
  }

  /** Python's `needle in hay` for strings. */
  predicate Contains(hay: string, needle: string) {
    exists i | 0 <= i <= |hay| :: OccursAt(hay, needle, i)
  }

  /** The characters Python's `str.isspace()` accepts. */
  predicate IsPyWhitespace(c: char) {
    || '\U{0009}' <= c <= '\U{000D}'
    || '\U{001C}' <= c <= '\U{0020}'
    || c == '\U{0085}' || c == '\U{00A0}' || c == '\U{1680}'
    || '\U{2000}' <= c <= '\U{200A}'
    || c == '\U{2028}' || c == '\U{2029}' || c == '\U{202F}' || c == '\U{205F}' || c == '\U{3000}'
  }

  function TrimStart(s: string): (r: string)
    ensures |r| <= |s| && r == s[|s| - |r|..]
    ensures |r| > 0 ==> !IsPyWhitespace(r[0])
    ensures forall i | 0 <= i < |s| - |r| :: IsPyWhitespace(s[i])
  {
    if |s| > 0 && IsPyWhitespace(s[0]) then TrimStart(s[1..]) else s
  }

  function TrimEnd(s: string): (r: string)
    ensures |r| <= |s| && r == s[..|r|]
    ensures |r| > 0 ==> !IsPyWhitespace(r[|r| - 1])
    ensures forall i | |r| <= i < |s| :: IsPyWhitespace(s[i])
  {
    if |s| > 0 && IsPyWhitespace(s[|s| - 1]) then TrimEnd(s[..|s| - 1]) else s
  }

  /** `s.strip()` with no arguments. */
  function Strip(s: string): string {
    TrimEnd(TrimStart(s))
  }

  /** `s.replace(a, b)` for single characters. */
  function ReplaceChar(s: string, a: char, b: char): (r: string)
    ensures |r| == |s|
    ensures forall i | 0 <= i < |s| :: r[i] == (if s[i] == a then b else s[i])
  {
    if |s| == 0 then "" else [if s[0] == a then b else s[0]] + ReplaceChar(s[1..], a, b)
  }

  // ---------------------------------------------------------------------
  // Decimal numerals

  function DigitChar(d: int): char
    requires 0 <= d < 10
  {
    ('0' as int + d) as char
  }

  /** `str(n)` for a natural number. */
  function Decimal(n: nat): (r: string)
    ensures |r| > 0
    ensures forall i | 0 <= i < |r| :: IsDigit(r[i])
    ensures |r| > 1 ==> r[0] != '0'
  {
    if n < 10 then [DigitChar(n)] else Decimal(n / 10) + [DigitChar(n % 10)]
  }

  /** `str(i)` for any integer. */
  function SignedDecimal(i: int): string {
    if i < 0 then "-" + Decimal(-i) else Decimal(i)
  }

  predicate AllDigits(s: string) {
    forall i | 0 <= i < |s| :: IsDigit(s[i])
  }

  /** `int(s)` for a string of ASCII digits. */
  function DigitsValue(s: string): nat
    requires AllDigits(s)
  {
    if |s| == 0 then 0
    else DigitsValue(s[..|s| - 1]) * 10 + (s[|s| - 1] as int - '0' as int)
  }

  /** Reading back `str(n)` gives n. */
  lemma {:induction false} DecimalRoundTrip(n: nat)
    ensures DigitsValue(Decimal(n)) == n
  {
    if n >= 10 {
      DecimalRoundTrip(n / 10);
      var r := Decimal(n);
      assert r[..|r| - 1] == Decimal(n / 10);
    }
  }

  /** `str(int(s))` for a string of ASCII digits: the digits without leading
      zeros ("0" for all zeros). */
  function CanonicalDigits(s: string): string
    requires AllDigits(s)
  {
    Decimal(DigitsValue(s))
  }

  // ---------------------------------------------------------------------
  // SQLite LIKE (no ESCAPE clause)

  /** SQLite folds only ASCII letters when comparing under LIKE. */
  predicate FoldEq(a: char, b: char) {
    LowerChar(a) == LowerChar(b)
  }

  /** `s LIKE p`: '%' matches any run of characters, '_' any one character,
      every other pattern character matches itself up to ASCII case. */
  predicate LikeMatch(p: string, s: string)
    decreases |p| + |s|
  {
    if |p| == 0 then |s| == 0
    else if p[0] == '%' then LikeMatch(p[1..], s) || (|s| > 0 && LikeMatch(p, s[1..]))
    else |s| > 0 && (p[0] == '_' || FoldEq(p[0], s[0])) && LikeMatch(p[1..], s[1..])
  }

  predicate NoWildcards(q: string) {
    forall i | 0 <= i < |q| :: q[i] != '%' && q[i] != '_'
  }

  /** t occurs in s at position i, up to ASCII case. */
  predicate FoldMatchAt(s: string, t: string, i: int) {
    0 <= i && i + |t| <= |s| && Lower(s[i..i + |t|]) == Lower(t)
  }

  lemma {:induction false} PercentMatchesAll(s: string)
    ensures LikeMatch("%", s)
  {
    if |s| > 0 {
      PercentMatchesAll(s[1..]);
    }
  }

  lemma {:induction false} LikePrefix(q: string, s: string)
    requires NoWildcards(q)
    ensures LikeMatch(q + "%", s) <==> FoldMatchAt(s, q, 0)
  {
    if |q| == 0 {
      assert q + "%" == "%";
      PercentMatchesAll(s);
    } else {
      assert (q + "%")[1..] == q[1..] + "%";
      if |s| > 0 {
        LikePrefix(q[1..], s[1..]);
        if FoldMatchAt(s, q, 0) {
          assert Lower(s[1..][0..|q[1..]|]) == Lower(s[0..|q|])[1..];
        }
      }
    }
  }

  lemma {:induction false} LikeLeadingPercent(t: string, s: string)
    ensures LikeMatch("%" + t, s) <==> exists i | 0 <= i <= |s| :: LikeMatch(t, s[i..])
    decreases |s|
  {
    assert ("%" + t)[1..] == t;
    assert s[0..] == s;
    if |s| > 0 {
      LikeLeadingPercent(t, s[1..]);
      if exists i | 0 <= i <= |s| :: LikeMatch(t, s[i..]) {
        var i :| 0 <= i <= |s| && LikeMatch(t, s[i..]);
        if i > 0 {
          assert s[1..][i - 1..] == s[i..];
        }
      }
      if exists j | 0 <= j <= |s[1..]| :: LikeMatch(t, s[1..][j..]) {
        var j :| 0 <= j <= |s[1..]| && LikeMatch(t, s[1..][j..]);
        assert s[1..][j..] == s[j + 1..];
      }
    }
  }

  /** With no wildcard in q, `s LIKE '%q%'` holds exactly when q occurs in s
      up to ASCII case. */
  lemma LikeContains(q: string, s: string)
    requires NoWildcards(q)
    ensures LikeMatch("%" + q + "%", s) <==> exists i | 0 <= i <= |s| :: FoldMatchAt(s, q, i)
  {
    assert "%" + q + "%" == "%" + (q + "%");
    LikeLeadingPercent(q + "%", s);
    forall i | 0 <= i <= |s|
      ensures LikeMatch(q + "%", s[i..]) <==> FoldMatchAt(s, q, i)
    {
      LikePrefix(q, s[i..]);
      if i + |q| <= |s| {
        assert s[i..][0..|q|] == s[i..i + |q|];
      }
    }
  }

  // ---------------------------------------------------------------------
  // Ordering of strings

  /** SQLite's BINARY collation: lexicographic by code point (UTF-8 bytes
      compare in the same order), a proper prefix first. */
  predicate StrLe(a: string, b: string) {
    if |a| == 0 then true
    else if |b| == 0 then false
    else if a[0] != b[0] then a[0] < b[0]
    else StrLe(a[1..], b[1..])
  }

  lemma {:induction false} StrLeTotal(a: string, b: string)
    ensures StrLe(a, b) || StrLe(b, a)
  {
    if |a| > 0 && |b| > 0 && a[0] == b[0] {
      StrLeTotal(a[1..], b[1..]);
    }
  }

  lemma {:induction false} StrLeTransitive(a: string, b: string, c: string)
    requires StrLe(a, b) && StrLe(b, c)
    ensures StrLe(a, c)
  {
    if |a| > 0 && |b| > 0 && |c| > 0 && a[0] == b[0] && b[0] == c[0] {
      StrLeTransitive(a[1..], b[1..], c[1..]);
    }
  }
}
