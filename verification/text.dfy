/** The string operations of the .NET base library that the generators
    use: prefix and suffix tests, substring search, Replace, Split on one
    character, Trim, ASCII upper-casing and the decimal rendering of a
    non-negative integer. All comparisons are ordinal, character by
    character; .NET's StartsWith(string) and EndsWith(string) compare with
    the current culture instead, which only differs for text holding
    ignorable or combining characters. */
module Text {

  // ---------------------------------------------------------------- tests

  predicate StartsWith(s: string, prefix: string) {
    |prefix| <= |s| && s[..|prefix|] == prefix
  }

  predicate EndsWith(s: string, suffix: string) {
    |suffix| <= |s| && s[|s| - |suffix|..] == suffix
  }

  lemma StartsWithConcat(a: string, b: string)
    ensures StartsWith(a + b, a)
  {
    assert (a + b)[..|a|] == a;
  }

  /** `sub` occurs in `s` starting at index `i`. */
  predicate OccursAt(s: string, sub: string, i: nat) {
    i + |sub| <= |s| && s[i..i + |sub|] == sub
  }

  predicate Contains(s: string, sub: string) {
    exists i: nat | i <= |s| :: OccursAt(s, sub, i)
  }

  // ---------------------------------------------------------------- Replace

  /** string.Replace(pat, repl): every non-overlapping occurrence of `pat`,
      scanned from the left, is replaced by `repl`. An empty `pat` is an
      argument error in .NET, hence the precondition. */
  function Replace(s: string, pat: string, repl: string): (r: string)
    requires |pat| > 0
    ensures !Contains(s, pat) ==> r == s
    decreases |s|
  {
    if |s| < |pat| then s
    else if s[..|pat|] == pat then
      assert OccursAt(s, pat, 0);
      repl + Replace(s[|pat|..], pat, repl)
    else
      ContainsTail(s, pat);
      [s[0]] + Replace(s[1..], pat, repl)
  }

  /** An occurrence in the tail of `s` is an occurrence in `s`. */
  lemma ContainsTail(s: string, sub: string)
    requires |s| > 0
    ensures Contains(s[1..], sub) ==> Contains(s, sub)
  {
    if Contains(s[1..], sub) {
      var i: nat :| i <= |s[1..]| && OccursAt(s[1..], sub, i);
      assert s[1..][i..i + |sub|] == s[i + 1..i + 1 + |sub|];
      assert OccursAt(s, sub, i + 1);
    }
  }

  lemma AppendAssoc<T>(a: seq<T>, b: seq<T>, c: seq<T>)
    ensures a + (b + c) == (a + b) + c
  {
  }

  /** Where the pattern does not start, the first character is kept. */
  lemma ReplaceStep(s: string, pat: string, repl: string)
    requires 0 < |pat| <= |s| && s[..|pat|] != pat
    ensures Replace(s, pat, repl) == [s[0]] + Replace(s[1..], pat, repl)
  {
  }

  /** Replacing a pattern whose first character does not occur in `d`
      leaves a leading `d` untouched. */
  lemma {:induction false} ReplaceSkipsPrefix(d: string, t: string, pat: string, repl: string)
    requires |pat| > 0 && pat[0] !in d
    ensures Replace(d + t, pat, repl) == d + Replace(t, pat, repl)
    decreases |d|
  {
    if d == [] {
      assert d + t == t;
    } else if |d + t| < |pat| {
      assert Replace(t, pat, repl) == t;
    } else {
      var s := d + t;
      assert s[..|pat|][0] == d[0];
      ReplaceStep(s, pat, repl);
      assert s[0] == d[0] && s[1..] == d[1..] + t;
      ReplaceSkipsPrefix(d[1..], t, pat, repl);
      AppendAssoc([d[0]], d[1..], Replace(t, pat, repl));
      assert [d[0]] + d[1..] == d;
    }
  }

  // ---------------------------------------------------------------- Split

  /** string.Split(c): the maximal runs between occurrences of `c`; the
      result always has one more element than `s` has occurrences of `c`. */
  function Split(s: string, sep: char): (parts: seq<string>)
    ensures |parts| >= 1
    decreases |s|
  {
    if s == [] then [""]
    else
      var rest := Split(s[1..], sep);
      if s[0] == sep then [""] + rest
      else [[s[0]] + rest[0]] + rest[1..]
  }

  /** No piece of a split contains the separator. */
  lemma {:induction false} SplitPiecesFree(s: string, sep: char)
    ensures forall k :: 0 <= k < |Split(s, sep)| ==> sep !in Split(s, sep)[k]
    decreases |s|
  {
    if s != [] {
      SplitPiecesFree(s[1..], sep);
      var rest := Split(s[1..], sep);
      if s[0] != sep {
        var head := [s[0]] + rest[0];
        assert sep !in head by {
          assert forall j :: 0 < j < |head| ==> head[j] == rest[0][j - 1];
        }
        assert Split(s, sep) == [head] + rest[1..];
      }
    }
  }

  lemma NotInConcat(c: char, a: string, b: string)
    requires c !in a && c !in b
    ensures c !in a + b
  {
    forall k | 0 <= k < |a + b| ensures (a + b)[k] != c {
      if k < |a| { assert (a + b)[k] == a[k]; } else { assert (a + b)[k] == b[k - |a|]; }
    }
  }

  /** string.Join(c, parts), the inverse of Split. */
  function Join(parts: seq<string>, sep: char): string
    requires |parts| >= 1
    decreases |parts|
  {
    if |parts| == 1 then parts[0]
    else parts[0] + [sep] + Join(parts[1..], sep)
  }

  /** Joining the pieces of a split gives back the original string. */
  lemma {:induction false} JoinSplit(s: string, sep: char)
    ensures Join(Split(s, sep), sep) == s
    decreases |s|
  {
    if s != [] {
      var rest := Split(s[1..], sep);
      JoinSplit(s[1..], sep);
      if s[0] == sep {
        assert Split(s, sep)[1..] == rest;
      } else {
        var parts := Split(s, sep);
        if |rest| == 1 {
          assert parts == [[s[0]] + rest[0]];
        } else {
          assert parts[1..] == rest[1..];
          assert Join(rest, sep) == rest[0] + [sep] + Join(rest[1..], sep);
        }
      }
    }
  }

  /** A string free of the separator splits into itself alone. */
  lemma {:induction false} SplitFree(a: string, sep: char)
    requires sep !in a
    ensures Split(a, sep) == [a]
    decreases |a|
  {
    if a != [] {
      SplitFree(a[1..], sep);
      assert [a[0]] + a[1..] == a;
    }
  }

  /** Splitting `a + [sep] + b`, with no separator in `a`, yields `a` and
      then the pieces of `b`. */
  lemma {:induction false} SplitAtFirst(a: string, b: string, sep: char)
    requires sep !in a
    ensures Split(a + [sep] + b, sep) == [a] + Split(b, sep)
    decreases |a|
  {
    var s := a + [sep] + b;
    if a == [] {
      assert s[1..] == b;
    } else {
      assert s[1..] == a[1..] + [sep] + b;
      SplitAtFirst(a[1..], b, sep);
      assert [a[0]] + a[1..] == a;
    }
  }

  /** Splitting separator-free pieces joined by the separator gives the
      pieces back: Split and Join are inverse both ways. */
  lemma {:induction false} SplitJoin(parts: seq<string>, sep: char)
    requires |parts| >= 1
    requires forall k :: 0 <= k < |parts| ==> sep !in parts[k]
    ensures Split(Join(parts, sep), sep) == parts
    decreases |parts|
  {
    if |parts| == 1 {
      SplitFree(parts[0], sep);
    } else {
      SplitJoin(parts[1..], sep);
      SplitAtFirst(parts[0], Join(parts[1..], sep), sep);
      assert [parts[0]] + parts[1..] == parts;
    }
  }

  /** With the first separator at `i` and the next one at `j` (or no
      further one, `j` being the length), the second piece of a split is the
      text strictly between them. */
  lemma SecondPiece(s: string, sep: char, i: nat, j: nat)
    requires i < j <= |s| && s[i] == sep
    requires sep !in s[..i] && sep !in s[i + 1..j]
    requires j == |s| || s[j] == sep
    ensures |Split(s, sep)| > 1 && Split(s, sep)[1] == s[i + 1..j]
  {
    var b := s[i + 1..];
    SplitAt(s, sep, i);
    assert b[..j - i - 1] == s[i + 1..j];
    assert j == |s| || b[j - i - 1] == sep;
    FirstPieceAt(b, sep, j - i - 1);
  }

  /** Splitting at the first separator, found at `i`. */
  lemma SplitAt(s: string, sep: char, i: nat)
    requires i < |s| && s[i] == sep && sep !in s[..i]
    ensures Split(s, sep) == [s[..i]] + Split(s[i + 1..], sep)
  {
    assert s == s[..i] + [sep] + s[i + 1..];
    SplitAtFirst(s[..i], s[i + 1..], sep);
  }

  /** The first piece ends at the first separator, or at the end. */
  lemma FirstPieceAt(s: string, sep: char, m: nat)
    requires m <= |s| && sep !in s[..m]
    requires m == |s| || s[m] == sep
    ensures Split(s, sep)[0] == s[..m]
  {
    if m == |s| {
      assert s[..m] == s;
      SplitFree(s, sep);
    } else {
      SplitAt(s, sep, m);
    }
  }

  // ---------------------------------------------------------------- Trim

  /** char.IsWhiteSpace: the Unicode space, line and paragraph separators
      and the control characters U+0009 to U+000D and U+0085. */
  predicate IsWhiteSpace(c: char) {
    || ('\U{0009}' <= c <= '\U{000D}')
    || c == ' '
    || c == '\U{0085}'
    || c == '\U{00A0}'
    || c == '\U{1680}'
    || ('\U{2000}' <= c <= '\U{200A}')
    || c == '\U{2028}'
    || c == '\U{2029}'
    || c == '\U{202F}'
    || c == '\U{205F}'
    || c == '\U{3000}'
  }

  predicate AllWhiteSpace(s: string) {
    forall k :: 0 <= k < |s| ==> IsWhiteSpace(s[k])
  }

  /** The longest suffix of `s` that does not start with white space. */
  function TrimStart(s: string): (r: string)
    ensures |r| <= |s| && r == s[|s| - |r|..]
    ensures r == [] || !IsWhiteSpace(r[0])
    decreases |s|
  {
    if |s| > 0 && IsWhiteSpace(s[0]) then TrimStart(s[1..]) else s
  }

  /** The longest prefix of `s` that does not end with white space. */
  function TrimEnd(s: string): (r: string)
    ensures |r| <= |s| && r == s[..|r|]
    ensures r == [] || !IsWhiteSpace(r[|r| - 1])
    decreases |s|
  {
    if |s| > 0 && IsWhiteSpace(s[|s| - 1]) then TrimEnd(s[..|s| - 1]) else s
  }

  /** string.Trim(): `s` without its leading and trailing white space;
      TrimUnique below characterises the result completely. */
  function Trim(s: string): (r: string)
    ensures |r| <= |s|
    ensures r == [] || (!IsWhiteSpace(r[0]) && !IsWhiteSpace(r[|r| - 1]))
  {
    var a := TrimStart(s);
    var r := TrimEnd(a);
    assert r != [] ==> r[0] == a[0];
    r
  }

  /** Trim is determined by its meaning: any slice of `s` with only white
      space around it and no white space at its ends is the trimmed text. */
  lemma TrimUnique(s: string, i: nat, j: nat)
    requires i <= j <= |s|
    requires AllWhiteSpace(s[..i]) && AllWhiteSpace(s[j..])
    requires i == j || (!IsWhiteSpace(s[i]) && !IsWhiteSpace(s[j - 1]))
    ensures Trim(s) == s[i..j]
  {
    if i == j {
      assert s == s[..i] + s[j..];
      AllWhiteSpaceConcat(s[..i], s[j..]);
      TrimAllWhite(s);
    } else {
      TrimInterior(s, i, j);
    }
  }

  /** A string of white space trims to nothing. */
  lemma TrimAllWhite(s: string)
    requires AllWhiteSpace(s)
    ensures Trim(s) == []
  {
    TrimStartAllWhite(s);
    assert TrimEnd([]) == [];
  }

  /** Trimming keeps exactly the slice between the first and the last
      character that is not white space. */
  lemma TrimInterior(s: string, i: nat, j: nat)
    requires i < j <= |s|
    requires AllWhiteSpace(s[..i]) && AllWhiteSpace(s[j..])
    requires !IsWhiteSpace(s[i]) && !IsWhiteSpace(s[j - 1])
    ensures Trim(s) == s[i..j]
  {
    TrimStartFrom(s, i);
    TrimEndOfSuffix(s, i, j);
  }

  /** Trimming the end of `s[i..]` stops at `j` when only white space
      follows it. */
  lemma TrimEndOfSuffix(s: string, i: nat, j: nat)
    requires i < j <= |s|
    requires AllWhiteSpace(s[j..]) && !IsWhiteSpace(s[j - 1])
    ensures TrimEnd(s[i..]) == s[i..j]
  {
    var t := s[i..];
    assert t[j - i..] == s[j..];
    assert t[j - i - 1] == s[j - 1];
    TrimEndTo(t, j - i);
    assert t[..j - i] == s[i..j];
  }

  /** One leading space is trimmed away from text with no white space at
      its ends. */
  lemma TrimPadded(t: string)
    requires t != [] && !IsWhiteSpace(t[0]) && !IsWhiteSpace(t[|t| - 1])
    ensures Trim(" " + t) == t
  {
    var b := " " + t;
    assert b[..1] == " " && b[|b|..] == [] && b[1..|b|] == t;
    TrimInterior(b, 1, |b|);
  }

  lemma AllWhiteSpaceConcat(a: string, b: string)
    requires AllWhiteSpace(a) && AllWhiteSpace(b)
    ensures AllWhiteSpace(a + b)
  {
    forall k | 0 <= k < |a + b| ensures IsWhiteSpace((a + b)[k]) {
      if k < |a| { assert (a + b)[k] == a[k]; } else { assert (a + b)[k] == b[k - |a|]; }
    }
  }

  /** A string of white space trims to nothing. */
  lemma {:induction false} TrimStartAllWhite(s: string)
    requires AllWhiteSpace(s)
    ensures TrimStart(s) == []
    decreases |s|
  {
    if s != [] {
      assert AllWhiteSpace(s[1..]) by {
        forall k | 0 <= k < |s[1..]| ensures IsWhiteSpace(s[1..][k]) { assert s[1..][k] == s[k + 1]; }
      }
      TrimStartAllWhite(s[1..]);
    }
  }

  /** TrimStart stops at the first character that is not white space. */
  lemma {:induction false} TrimStartFrom(s: string, i: nat)
    requires i <= |s| && AllWhiteSpace(s[..i])
    requires i == |s| || !IsWhiteSpace(s[i])
    ensures TrimStart(s) == s[i..]
    decreases i
  {
    if i > 0 {
      assert s[..i][0] == s[0];
      assert s[1..][..i - 1] == s[..i][1..];
      TrimStartFrom(s[1..], i - 1);
      assert s[1..][i - 1..] == s[i..];
    }
  }

  /** TrimEnd stops at the last character that is not white space. */
  lemma {:induction false} TrimEndTo(t: string, m: nat)
    requires m <= |t| && AllWhiteSpace(t[m..])
    requires m == 0 || !IsWhiteSpace(t[m - 1])
    ensures TrimEnd(t) == t[..m]
    decreases |t| - m
  {
    if m < |t| {
      var u := t[..|t| - 1];
      assert t[m..][|t| - 1 - m] == t[|t| - 1];
      assert u[m..] == t[m..][..|t| - 1 - m];
      assert m == 0 || u[m - 1] == t[m - 1];
      TrimEndTo(u, m);
      assert u[..m] == t[..m];
    } else {
      assert t[..m] == t;
    }
  }

  // ---------------------------------------------------------------- ToUpper

  predicate IsAsciiLower(c: char) {
    'a' <= c <= 'z'
  }

  function UpperChar(c: char): char {
    if IsAsciiLower(c) then (c as int - 32) as char else c
  }

  /** string.ToUpper() restricted to ASCII letters: lower-case ASCII letters
      are mapped to upper case and every other character is kept. */
  function ToUpper(s: string): (r: string)
    ensures |r| == |s|
    ensures forall k :: 0 <= k < |r| ==> !IsAsciiLower(r[k])
    ensures forall k :: 0 <= k < |s| && !IsAsciiLower(s[k]) ==> r[k] == s[k]
    ensures forall k :: 0 <= k < |s| && IsAsciiLower(s[k]) ==> r[k] as int == s[k] as int - 32
  {
    seq(|s|, k requires 0 <= k < |s| => UpperChar(s[k]))
  }

  // ---------------------------------------------------------------- numbers

  predicate IsDigit(c: char) {
    '0' <= c <= '9'
  }

  function DigitChar(n: nat): (c: char)
    requires n < 10
    ensures IsDigit(c) && c as int - '0' as int == n
  {
    ('0' as int + n) as char
  }

  /** The decimal text of `n` (`n.ToString()` and `$"{n}"`): at least one
      digit, nothing but digits, a single digit exactly when `n < 10`. */
  function NatToString(n: nat): (s: string)
    ensures |s| > 0
    ensures forall k :: 0 <= k < |s| ==> IsDigit(s[k])
    ensures |s| == 1 <==> n < 10
    ensures n < 10 ==> s == [DigitChar(n)]
    ensures s[|s| - 1] == DigitChar(n % 10)
    decreases n
  {
    if n < 10 then [DigitChar(n)] else NatToString(n / 10) + [DigitChar(n % 10)]
  }

  /** The value of a string of decimal digits (int.Parse on such text). */
  function DigitsValue(s: string): nat
    requires forall k :: 0 <= k < |s| ==> IsDigit(s[k])
    decreases |s|
  {
    if s == [] then 0 else 10 * DigitsValue(s[..|s| - 1]) + DigitValue(s[|s| - 1])
  }

  function DigitValue(c: char): nat
    requires IsDigit(c)
  {
    c as int - '0' as int
  }

  /** Reading back the decimal text of `n` gives `n`, so distinct numbers
      have distinct texts. */
  lemma {:induction false} NatToStringRoundTrip(n: nat)
    ensures DigitsValue(NatToString(n)) == n
    decreases n
  {
    var s := NatToString(n);
    if n >= 10 {
      NatToStringRoundTrip(n / 10);
      assert s[..|s| - 1] == NatToString(n / 10);
    }
  }

  lemma NatToStringInjective(m: nat, n: nat)
    requires NatToString(m) == NatToString(n)
    ensures m == n
  {
    NatToStringRoundTrip(m);
    NatToStringRoundTrip(n);
  }
}
