/**
 * The Java and commons-lang string operations that the patient search
 * criteria rely on, over strings as sequences of Unicode scalar values
 * (Java's strings are sequences of UTF-16 code units; the two agree on
 * every character of the Basic Multilingual Plane).
 * A Java reference that may be null is an `Option`.
 */
module Text {

  datatype Option<T> = None | Some(value: T)

  /** Character.isWhitespace as of Java 9 (Unicode 8.0 and later, where
      U+180E is no longer a space separator; Java 8 and earlier also count
      U+180E): the ASCII controls HT, LF, VT, FF, CR,
      FS, GS, RS, US, and the Unicode space, line and paragraph separators
      other than the non-breaking ones (U+00A0, U+2007, U+202F). */
  predicate IsWhitespace(c: char) {
    var n := c as int;
    (9 <= n <= 13) || (28 <= n <= 32) || n == 0x1680 || (0x2000 <= n <= 0x2006)
    || (0x2008 <= n <= 0x200A) || n == 0x2028 || n == 0x2029 || n == 0x205F || n == 0x3000
  }

  /** commons-lang StringUtils.isBlank: null, empty, or whitespace only. */
  predicate IsBlank(s: Option<string>) {
    match s
    case None => true
    case Some(v) => forall i :: 0 <= i < |v| ==> IsWhitespace(v[i])
  }

  /** Drops the leading characters at or below U+0020 (the first half of String.trim). */
  function TrimStart(s: string): string
    decreases |s|
  {
    if |s| > 0 && s[0] <= ' ' then TrimStart(s[1..]) else s
  }

  /** TrimStart drops a prefix of characters at or below U+0020 and stops
      at the first one above it. */
  lemma {:induction false} TrimStartSpec(s: string)
    ensures var r := TrimStart(s);
      && |r| <= |s| && r == s[|s| - |r|..]
      && (r == [] || r[0] > ' ')
      && forall i :: 0 <= i < |s| - |r| ==> s[i] <= ' '
    decreases |s|
  {
    if |s| > 0 && s[0] <= ' ' {
      TrimStartSpec(s[1..]);
    }
  }

  /** Drops the trailing characters at or below U+0020 (the second half of String.trim). */
  function TrimEnd(s: string): string
    decreases |s|
  {
    if |s| > 0 && s[|s| - 1] <= ' ' then TrimEnd(s[..|s| - 1]) else s
  }

  /** TrimEnd drops a suffix of characters at or below U+0020 and stops at
      the last one above it. */
  lemma {:induction false} TrimEndSpec(s: string)
    ensures var r := TrimEnd(s);
      && |r| <= |s| && r == s[..|r|]
      && (r == [] || r[|r| - 1] > ' ')
      && forall i :: |r| <= i < |s| ==> s[i] <= ' '
    decreases |s|
  {
    if |s| > 0 && s[|s| - 1] <= ' ' {
      TrimEndSpec(s[..|s| - 1]);
    }
  }

  /** Java's String.trim. */
  function Trim(s: string): string {
    TrimEnd(TrimStart(s))
  }

  /** A string trims to nothing exactly when every character is at or below U+0020. */
  lemma TrimEmptyIff(s: string)
    ensures Trim(s) == [] <==> forall i :: 0 <= i < |s| ==> s[i] <= ' '
  {
    TrimStartSpec(s);
    TrimEndSpec(TrimStart(s));
  }

  /** Removes the leading run of the character `c`: what
      Pattern.compile("^" + c + "+").matcher(s).replaceFirst("") does for a
      character that is not a regular-expression metacharacter. */
  function StripLeading(s: string, c: char): string
    decreases |s|
  {
    if |s| > 0 && s[0] == c then StripLeading(s[1..], c) else s
  }

  /** StripLeading removes a prefix made of `c` only, and what is left does
      not start with `c`. */
  lemma {:induction false} StripLeadingSpec(s: string, c: char)
    ensures var r := StripLeading(s, c);
      && |r| <= |s| && r == s[|s| - |r|..]
      && (r == [] || r[0] != c)
      && forall i :: 0 <= i < |s| - |r| ==> s[i] == c
    decreases |s|
  {
    if |s| > 0 && s[0] == c {
      StripLeadingSpec(s[1..], c);
    }
  }

  /** `n` copies of `c`. */
  function Repeat(c: char, n: nat): (r: string)
    ensures |r| == n && forall i :: 0 <= i < n ==> r[i] == c
  {
    if n == 0 then [] else [c] + Repeat(c, n - 1)
  }

  /** Stripping a run of padding returns what followed the padding. */
  lemma {:induction false} StripLeadingPadding(c: char, n: nat, s: string)
    requires s == [] || s[0] != c
    ensures StripLeading(Repeat(c, n) + s, c) == s
  {
    if n == 0 {
      assert Repeat(c, n) + s == s;
    } else {
      var t := Repeat(c, n) + s;
      assert t[0] == c && t[1..] == Repeat(c, n - 1) + s by {
        assert Repeat(c, n) == [c] + Repeat(c, n - 1);
      }
      StripLeadingPadding(c, n - 1, s);
    }
  }

  /** Java's String.indexOf(char): the first position of `c`, or -1. */
  function IndexOf(s: string, c: char): (r: int)
    ensures -1 <= r < |s|
    ensures r == -1 <==> c !in s
    ensures r >= 0 ==> s[r] == c && forall i :: 0 <= i < r ==> s[i] != c
  {
    if |s| == 0 then -1
    else if s[0] == c then 0
    else
      var k := IndexOf(s[1..], c);
      assert forall i :: 1 <= i < |s| ==> s[i] == s[1..][i - 1];
      if k == -1 then -1 else k + 1
  }

  /** ASCII lower-casing of one character. */
  function ToLowerAscii(c: char): char {
    if 'A' <= c <= 'Z' then (c as int + 32) as char else c
  }

  /** String.equalsIgnoreCase, for the ASCII case mapping. */
  predicate EqualsIgnoreCase(a: string, b: string) {
    |a| == |b| && forall i :: 0 <= i < |a| ==> ToLowerAscii(a[i]) == ToLowerAscii(b[i])
  }

  /** Java's String.replaceAll for a pattern without metacharacters and a
      replacement without '$' or '\': the leftmost, non-overlapping
      occurrences of `pat` are replaced from left to right. */
  function ReplaceAll(s: string, pat: string, rep: string): string
    requires pat != []
    decreases |s|
  {
    if |s| < |pat| then s
    else if pat <= s then rep + ReplaceAll(s[|pat|..], pat, rep)
    else [s[0]] + ReplaceAll(s[1..], pat, rep)
  }

  /** Where no occurrence starts at the front, the first character is copied
      and the scan moves on. */
  lemma ReplaceAllCopiesFirst(s: string, pat: string, rep: string)
    requires pat != [] && |s| > 0
    requires !(pat <= s)
    ensures ReplaceAll(s, pat, rep) == [s[0]] + ReplaceAll(s[1..], pat, rep)
  {
    if |s| < |pat| {
      assert ReplaceAll(s[1..], pat, rep) == s[1..];
      assert s == [s[0]] + s[1..];
    }
  }

  /** A prefix that does not contain the first character of the pattern passes through unchanged. */
  lemma {:induction false} ReplaceAllFreePrefix(a: string, b: string, pat: string, rep: string)
    requires pat != [] && pat[0] !in a
    ensures ReplaceAll(a + b, pat, rep) == a + ReplaceAll(b, pat, rep)
    decreases |a|
  {
    if a == [] {
      assert a + b == b;
    } else {
      var s := a + b;
      assert !(pat <= s) by {
        assert s[0] == a[0];
      }
      ReplaceAllCopiesFirst(s, pat, rep);
      assert s[1..] == a[1..] + b;
      assert pat[0] !in a[1..] by {
        forall i | 0 <= i < |a| - 1 ensures a[1..][i] != pat[0] {
          assert a[1..][i] == a[i + 1];
        }
      }
      ReplaceAllFreePrefix(a[1..], b, pat, rep);
      var tail := ReplaceAll(b, pat, rep);
      calc {
        ReplaceAll(s, pat, rep);
        [a[0]] + (a[1..] + tail);
        { assert a == [a[0]] + a[1..]; }
        a + tail;
      }
    }
  }

  /** An occurrence at the front is replaced and the scan resumes after it. */
  lemma ReplaceAllAtPattern(b: string, pat: string, rep: string)
    requires pat != []
    ensures ReplaceAll(pat + b, pat, rep) == rep + ReplaceAll(b, pat, rep)
  {
    var s := pat + b;
    assert pat <= s && s[|pat|..] == b;
  }

  /** A delimited token `m` (it starts and ends with the pattern's first
      character and has none inside) that differs from the pattern is copied
      unchanged, provided what follows cannot complete an occurrence that
      starts at the token's closing character. */
  lemma ReplaceAllPastToken(m: string, b: string, pat: string, rep: string, j: nat)
    requires |pat| >= 2 && |m| >= 2
    requires j < |m| && j < |pat| && m[j] != pat[j]
    requires m[|m| - 1] == pat[0] && pat[0] !in m[1..|m| - 1]
    requires b == [] || b[0] != pat[1]
    ensures ReplaceAll(m + b, pat, rep) == m + ReplaceAll(b, pat, rep)
  {
    var s := m + b;
    assert !(pat <= s) by {
      assert s[j] == m[j];
    }
    assert s[1..] == m[1..] + b;
    ReplaceAllCopiesFirst(s, pat, rep);
    ReplaceAllTokenTail(m[1..], b, pat, rep);
    assert m == [m[0]] + m[1..];
  }

  /** The rest of such a token, its closing character included, is copied unchanged. */
  lemma ReplaceAllTokenTail(t: string, b: string, pat: string, rep: string)
    requires |pat| >= 2 && |t| >= 1
    requires t[|t| - 1] == pat[0] && pat[0] !in t[..|t| - 1]
    requires b == [] || b[0] != pat[1]
    ensures ReplaceAll(t + b, pat, rep) == t + ReplaceAll(b, pat, rep)
  {
    var inner := t[..|t| - 1];
    assert t + b == inner + ([pat[0]] + b);
    ReplaceAllFreePrefix(inner, [pat[0]] + b, pat, rep);
    ClosingCharacter(b, pat, rep);
    assert t == inner + [pat[0]];
  }

  /** The closing character of a token is copied when what follows cannot continue the pattern. */
  lemma ClosingCharacter(b: string, pat: string, rep: string)
    requires |pat| >= 2
    requires b == [] || b[0] != pat[1]
    ensures ReplaceAll([pat[0]] + b, pat, rep) == [pat[0]] + ReplaceAll(b, pat, rep)
  {
    var last := [pat[0]] + b;
    assert !(pat <= last) by {
      if |pat| <= |last| {
        assert last[1] == b[0];
      }
    }
    assert last[1..] == b;
    ReplaceAllCopiesFirst(last, pat, rep);
  }

  /** The parts joined with `sep` between neighbours (String.join). */
  function Join(parts: seq<string>, sep: string): string
    decreases |parts|
  {
    if |parts| == 0 then ""
    else if |parts| == 1 then parts[0]
    else parts[0] + sep + Join(parts[1..], sep)
  }

  /** Appending a part appends the separator and the part. */
  lemma {:induction false} JoinAppend(parts: seq<string>, p: string, sep: string)
    requires |parts| > 0
    ensures Join(parts + [p], sep) == Join(parts, sep) + sep + p
    decreases |parts|
  {
    if |parts| > 1 {
      assert (parts + [p])[1..] == parts[1..] + [p];
      JoinAppend(parts[1..], p, sep);
    }
  }

  /** Every piece between consecutive occurrences of `c`, empty pieces
      included (Java's split before trailing empty pieces are dropped). */
  function SplitAll(s: string, c: char): (r: seq<string>)
    ensures |r| >= 1
    decreases |s|
  {
    if s == [] then [""]
    else
      var rest := SplitAll(s[1..], c);
      if s[0] == c then [""] + rest
      else [[s[0]] + rest[0]] + rest[1..]
  }

  /** Every character of a piece is a character of the string other than the separator. */
  lemma {:induction false} SplitAllPieces(s: string, c: char)
    ensures forall p, ch :: p in SplitAll(s, c) && ch in p ==> ch in s && ch != c
    decreases |s|
  {
    if s != [] {
      SplitAllPieces(s[1..], c);
    }
  }

  /** Splitting and joining with the same character is the identity. */
  lemma {:induction false} SplitAllJoin(s: string, c: char)
    ensures Join(SplitAll(s, c), [c]) == s
    decreases |s|
  {
    if s != [] {
      var rest := SplitAll(s[1..], c);
      SplitAllJoin(s[1..], c);
      if s[0] != c && |rest| > 1 {
        assert rest == [rest[0]] + rest[1..];
      }
    }
  }

  /** A string without the separator is one piece. */
  lemma {:induction false} SplitAllNoSeparator(s: string, c: char)
    requires c !in s
    ensures SplitAll(s, c) == [s]
    decreases |s|
  {
    if s != [] {
      SplitAllNoSeparator(s[1..], c);
      assert s == [s[0]] + s[1..];
    }
  }

  /** A separator splits the pieces into those before and those after it. */
  lemma {:induction false} SplitAllAt(a: string, b: string, c: char)
    ensures SplitAll(a + [c] + b, c) == SplitAll(a, c) + SplitAll(b, c)
    decreases |a|
  {
    var s := a + [c] + b;
    if a == [] {
      assert s[1..] == b;
    } else {
      assert s[1..] == a[1..] + [c] + b;
      SplitAllAt(a[1..], b, c);
    }
  }

  /** The last piece is empty exactly when the string is empty or ends with the separator. */
  lemma {:induction false} SplitAllLastEmpty(s: string, c: char)
    ensures var r := SplitAll(s, c); r[|r| - 1] == "" <==> s == [] || s[|s| - 1] == c
    decreases |s|
  {
    if s != [] {
      SplitAllLastEmpty(s[1..], c);
    }
  }

  /** The pieces without their trailing empty ones. */
  function DropTrailingEmpty(ps: seq<string>): seq<string>
    decreases |ps|
  {
    if |ps| > 0 && ps[|ps| - 1] == "" then DropTrailingEmpty(ps[..|ps| - 1]) else ps
  }

  /** What is dropped is exactly the run of empty pieces at the end. */
  lemma {:induction false} DropTrailingEmptyPrefix(ps: seq<string>)
    ensures var r := DropTrailingEmpty(ps);
      && |r| <= |ps| && r == ps[..|r|]
      && (r == [] || r[|r| - 1] != "")
      && forall i :: |r| <= i < |ps| ==> ps[i] == ""
    decreases |ps|
  {
    if |ps| > 0 && ps[|ps| - 1] == "" {
      DropTrailingEmptyPrefix(ps[..|ps| - 1]);
    }
  }

  /** Java's String.split(String.valueOf(c)) for a character that is not a
      metacharacter: a string without the separator is returned whole,
      otherwise the pieces without the trailing empty ones. */
  function JavaSplit(s: string, c: char): seq<string> {
    if c !in s then [s] else DropTrailingEmpty(SplitAll(s, c))
  }

  /** Java's split drops nothing from a string that does not end with the separator. */
  lemma JavaSplitWhole(s: string, c: char)
    requires s == [] || s[|s| - 1] != c
    ensures JavaSplit(s, c) == SplitAll(s, c)
  {
    if c !in s {
      SplitAllNoSeparator(s, c);
    } else {
      SplitAllLastEmpty(s, c);
      var all := SplitAll(s, c);
      assert all[|all| - 1] != "";
    }
  }

  /** Java's split keeps every piece of a string that does not end with the
      separator: no piece holds the separator and joining them gives the string back. */
  lemma JavaSplitJoin(s: string, c: char)
    requires s == [] || s[|s| - 1] != c
    ensures JavaSplit(s, c) == SplitAll(s, c)
    ensures Join(JavaSplit(s, c), [c]) == s
    ensures forall p :: p in JavaSplit(s, c) ==> c !in p
  {
    JavaSplitWhole(s, c);
    SplitAllJoin(s, c);
    SplitAllPieces(s, c);
  }
}
