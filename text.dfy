/** The string operations the pipeline relies on: ASCII lower-casing, str.find, the literal
    patterns of the classifier, decimal rendering and the code-point order of strings. */
module Text {

  function LowerChar(c: char): char
  {
    if 'A' <= c <= 'Z' then (c as int + 32) as char else c
  }

  /** str.lower(), restricted to ASCII letters. */
  function Lower(s: string): string
  {
    seq(|s|, i requires 0 <= i < |s| => LowerChar(s[i]))
  }

  /** The keyword k occurs in s starting at index i. */
  predicate OccursAt(s: string, k: string, i: int)
  {
    0 <= i && i + |k| <= |s| && s[i..i + |k|] == k
  }

  function FindFrom(s: string, k: string, from: nat): (r: int)
    decreases |s| + 1 - from
    ensures r == -1 || (from <= r && OccursAt(s, k, r))
    ensures r == -1 ==> forall i :: from <= i ==> !OccursAt(s, k, i)
    ensures r != -1 ==> forall i :: from <= i < r ==> !OccursAt(s, k, i)
  {
    if from + |k| > |s| then -1
    else if s[from..from + |k|] == k then from
    else FindFrom(s, k, from + 1)
  }

  /** str.find: the lowest index at which k occurs in s, or -1 when it does not occur. */
  function Find(s: string, k: string): (r: int)
    ensures r == -1 <==> forall i :: !OccursAt(s, k, i)
    ensures r != -1 ==> OccursAt(s, k, r) && forall i :: 0 <= i < r ==> !OccursAt(s, k, i)
  {
    FindFrom(s, k, 0)
  }

  /** A non-empty keyword that is found starts strictly before the end of the text. */
  lemma FoundBeforeEnd(s: string, k: string)
    requires |k| > 0 && Find(s, k) != -1
    ensures 0 <= Find(s, k) < |s|
  {
  }

  /** `s.startswith(prefix)`. */
  predicate StartsWith(s: string, prefix: string)
  {
    |prefix| <= |s| && s[..|prefix|] == prefix
  }

  /** The regular expression `x` (a literal) matches somewhere in s. */
  predicate Contains(s: string, x: string)
  {
    Find(s, x) != -1
  }

  /** The regular expression `x.*y` matches somewhere in s: x occurs, and y occurs after it with
      no line break between the two (`.` does not match a newline). */
  predicate FollowedOnLine(s: string, x: string, y: string)
  {
    exists i | 0 <= i <= |s| ::
      OccursAt(s, x, i) &&
      exists j | i + |x| <= j <= |s| :: OccursAt(s, y, j) && '\n' !in s[i + |x|..j]
  }

  function DigitChar(d: int): char
    requires 0 <= d < 10
  {
    ('0' as int + d) as char
  }

  predicate IsDigit(c: char)
  {
    '0' <= c <= '9'
  }

  /** str() of a non-negative integer. */
  function NatToString(n: nat): string
    decreases n
  {
    if n < 10 then [DigitChar(n)] else NatToString(n / 10) + [DigitChar(n % 10)]
  }

  /** str() of an integer, as the f-string in the URL formats it. */
  function IntToString(n: int): string
  {
    if n < 0 then "-" + NatToString(-n) else NatToString(n)
  }

  /** The value of a string of decimal digits: the inverse of NatToString. */
  function DecimalValue(s: string): int
  {
    if s == [] then 0 else DecimalValue(s[..|s| - 1]) * 10 + (s[|s| - 1] as int - '0' as int)
  }

  /** int() of the strings IntToString produces. */
  function ParseInt(s: string): int
  {
    if |s| > 0 && s[0] == '-' then -DecimalValue(s[1..]) else DecimalValue(s)
  }

  lemma {:induction false} NatToStringDigits(n: nat)
    decreases n
    ensures |NatToString(n)| > 0
    ensures forall i :: 0 <= i < |NatToString(n)| ==> IsDigit(NatToString(n)[i])
    ensures DecimalValue(NatToString(n)) == n
  {
    if n >= 10 {
      NatToStringDigits(n / 10);
      var s := NatToString(n);
      assert s[..|s| - 1] == NatToString(n / 10);
    }
  }

  /** Decimal rendering round-trips through int(). */
  lemma IntToStringRoundTrip(n: int)
    ensures ParseInt(IntToString(n)) == n
    ensures |IntToString(n)| > 0 && '#' !in IntToString(n)
  {
    if n < 0 {
      NatToStringDigits(-n);
      assert IntToString(n)[1..] == NatToString(-n);
      assert IntToString(n)[0] == '-';
    } else {
      NatToStringDigits(n);
      assert NatToString(n)[0] != '-';
    }
    var s := IntToString(n);
    forall i | 0 <= i < |s| ensures s[i] != '#' {
      if n < 0 && i > 0 {
        assert s[i] == NatToString(-n)[i - 1];
      }
    }
  }

  /** Python's ordering of strings: lexicographic by code point. */
  predicate StrLe(s: string, t: string)
    decreases |s|
  {
    if s == [] then true
    else if t == [] then false
    else if s[0] != t[0] then s[0] < t[0]
    else StrLe(s[1..], t[1..])
  }

  lemma StrLeReflexive(s: string)
    ensures StrLe(s, s)
  {
    if s != [] { StrLeReflexive(s[1..]); }
  }

  lemma StrLeTotal(s: string, t: string)
    decreases |s|
    ensures StrLe(s, t) || StrLe(t, s)
  {
    if s != [] && t != [] && s[0] == t[0] {
      StrLeTotal(s[1..], t[1..]);
    }
  }

  lemma StrLeTransitive(s: string, t: string, u: string)
    requires StrLe(s, t) && StrLe(t, u)
    decreases |s|
    ensures StrLe(s, u)
  {
    if s != [] && t != [] && u != [] && s[0] == t[0] && t[0] == u[0] {
      StrLeTransitive(s[1..], t[1..], u[1..]);
    }
  }

  lemma StrLeAntisymmetric(s: string, t: string)
    requires StrLe(s, t) && StrLe(t, s)
    decreases |s|
    ensures s == t
  {
    if s != [] && t != [] {
      StrLeAntisymmetric(s[1..], t[1..]);
      assert s == [s[0]] + s[1..];
      assert t == [t[0]] + t[1..];
    }
  }
}
