/**
 * The JavaScript string operations the worker relies on, over `seq<char>`:
 * `String.prototype.trim`, `startsWith`/`endsWith` and `split` with a
 * one-character separator.
 */
module Strings {

  /** A code point `String.prototype.trim` removes: ECMAScript's WhiteSpace
      (tab, vertical tab, form feed, space, no-break space, byte order mark and
      the Unicode category Zs) and LineTerminator (LF, CR, U+2028, U+2029). */
  predicate IsWhitespace(c: char) {
    || c == '\t' || c == '\U{000B}' || c == '\U{000C}' || c == ' '
    || c == '\U{00A0}' || c == '\U{FEFF}'
    || c == '\n' || c == '\r' || c == '\U{2028}' || c == '\U{2029}'
    || c == '\U{1680}' || ('\U{2000}' <= c <= '\U{200A}')
    || c == '\U{202F}' || c == '\U{205F}' || c == '\U{3000}'
  }

  /** Neither the first nor the last character is whitespace. */
  predicate IsTrimmed(s: string) {
    s == [] || (!IsWhitespace(s[0]) && !IsWhitespace(s[|s| - 1]))
  }

  /** `r` is `s[i..j]` with only whitespace before index `i` and from index `j` on. */
  ghost predicate TrimmedAt(r: string, s: string, i: int, j: int) {
    && 0 <= i <= j <= |s| && r == s[i..j]
    && (forall k :: 0 <= k < i ==> IsWhitespace(s[k]))
    && (forall k :: j <= k < |s| ==> IsWhitespace(s[k]))
  }

  /** `r` is what trimming `s` must give: a contiguous piece of `s`, with only
      whitespace before and after it, that itself starts and ends with a
      non-whitespace character. This defines trimming without computing it. */
  ghost predicate IsTrimOf(r: string, s: string) {
    IsTrimmed(r) && exists i, j :: TrimmedAt(r, s, i, j)
  }

  /** `s` with its leading whitespace removed. */
  function TrimStart(s: string): string
  {
    if |s| > 0 && IsWhitespace(s[0]) then TrimStart(s[1..]) else s
  }

  /** `TrimStart` removes a prefix made only of whitespace, and no more. */
  lemma {:induction false} TrimStartSpec(s: string)
    ensures var r := TrimStart(s);
            && |r| <= |s| && r == s[|s| - |r|..]
            && (forall k :: 0 <= k < |s| - |r| ==> IsWhitespace(s[k]))
            && (r == [] || !IsWhitespace(r[0]))
  {
    if |s| > 0 && IsWhitespace(s[0]) {
      TrimStartSpec(s[1..]);
    }
  }

  /** `s` with its trailing whitespace removed. */
  function TrimEnd(s: string): string
  {
    if |s| > 0 && IsWhitespace(s[|s| - 1]) then TrimEnd(s[..|s| - 1]) else s
  }

  /** `TrimEnd` removes a suffix made only of whitespace, and no more. */
  lemma {:induction false} TrimEndSpec(s: string)
    ensures var r := TrimEnd(s);
            && |r| <= |s| && r == s[..|r|]
            && (forall k :: |r| <= k < |s| ==> IsWhitespace(s[k]))
            && (r == [] || !IsWhitespace(r[|r| - 1]))
  {
    if |s| > 0 && IsWhitespace(s[|s| - 1]) {
      TrimEndSpec(s[..|s| - 1]);
    }
  }

  /** `String.prototype.trim`. */
  function Trim(s: string): (r: string)
    ensures |r| <= |s|
    ensures IsTrimmed(r)
  {
    TrimStartSpec(s);
    TrimEndSpec(TrimStart(s));
    TrimEnd(TrimStart(s))
  }

  /** `Trim` meets the declarative definition of trimming. */
  lemma TrimIsTrimOf(s: string)
    ensures IsTrimOf(Trim(s), s)
  {
    var t := TrimStart(s);
    var r := TrimEnd(t);
    TrimStartSpec(s);
    TrimEndSpec(t);
    var i := |s| - |t|;
    assert TrimmedAt(r, s, i, i + |r|);
  }

  /** A non-empty trimmed piece starts at the first non-whitespace character
      and ends after the last one, so its bounds are determined by `s`. */
  lemma TrimmedAtBounds(r: string, r': string, s: string, i: int, j: int, i': int, j': int)
    requires IsTrimmed(r) && IsTrimmed(r') && r != [] && r' != []
    requires TrimmedAt(r, s, i, j) && TrimmedAt(r', s, i', j')
    ensures i == i' && j == j'
  {
    assert s[i] == r[0] && s[i'] == r'[0];
    assert s[j - 1] == r[|r| - 1] && s[j' - 1] == r'[|r'| - 1];
  }

  /** There is only one trimmed form of a string. */
  lemma TrimOfUnique(r: string, r': string, s: string)
    requires IsTrimOf(r, s) && IsTrimOf(r', s)
    ensures r == r'
  {
    var i, j :| TrimmedAt(r, s, i, j);
    var i', j' :| TrimmedAt(r', s, i', j');
    if r != [] && r' != [] {
      TrimmedAtBounds(r, r', s, i, j, i', j');
    }
  }

  /** A string that neither starts nor ends with whitespace is its own trim. */
  lemma TrimIdentity(s: string)
    requires IsTrimmed(s)
    ensures Trim(s) == s
  {
    assert TrimmedAt(s, s, 0, |s|);
    TrimIsTrimOf(s);
    TrimOfUnique(Trim(s), s, s);
  }

  /** Trimming twice is trimming once. */
  lemma TrimIdempotent(s: string)
    ensures Trim(Trim(s)) == Trim(s)
  {
    TrimIdentity(Trim(s));
  }

  /** A string made only of whitespace trims to the empty string. */
  lemma TrimAllWhitespace(s: string)
    requires forall k :: 0 <= k < |s| ==> IsWhitespace(s[k])
    ensures Trim(s) == []
  {
    assert TrimmedAt([], s, 0, 0);
    TrimIsTrimOf(s);
    TrimOfUnique(Trim(s), [], s);
  }

  /** Every character of the trimmed string comes from the original. */
  lemma TrimChars(s: string, c: char)
    requires c in Trim(s)
    ensures c in s
  {
    var r := Trim(s);
    TrimIsTrimOf(s);
    var i, j :| TrimmedAt(r, s, i, j);
    var n :| 0 <= n < |r| && r[n] == c;
    assert s[i + n] == c;
  }

  /** `s.endsWith(suffix)`; `s.startsWith(prefix)` is Dafny's `prefix <= s`. */
  predicate EndsWith(s: string, suffix: string): (b: bool)
    ensures b ==> |suffix| <= |s|
    ensures b && suffix != [] ==> s[|s| - 1] == suffix[|suffix| - 1]
  {
    |suffix| <= |s| && s[|s| - |suffix|..] == suffix
  }

  /** `s` ends with `suffix` exactly when it is some string followed by `suffix`. */
  lemma EndsWithConcat(s: string, suffix: string)
    ensures EndsWith(s, suffix) <==> exists t :: s == t + suffix
  {
    if EndsWith(s, suffix) {
      assert s == s[..|s| - |suffix|] + suffix;
    }
    if exists t :: s == t + suffix {
      var t :| s == t + suffix;
      assert s[|s| - |suffix|..] == suffix;
    }
  }

  /** Concatenation of `parts` with `sep` between neighbours: the inverse of `Split`. */
  function Join(parts: seq<string>, sep: char): string
  {
    if |parts| == 0 then []
    else if |parts| == 1 then parts[0]
    else parts[0] + [sep] + Join(parts[1..], sep)
  }

  /** `s.split(sep)` for a one-character separator: the pieces between
      separators, including empty ones; the empty string gives `[""]`. */
  function Split(s: string, sep: char): (r: seq<string>)
    ensures |r| >= 1
    ensures forall i :: 0 <= i < |r| ==> sep !in r[i]
    ensures Join(r, sep) == s
  {
    if s == [] then [[]]
    else
      var rest := Split(s[1..], sep);
      if s[0] == sep then
        assert ([[]] + rest)[1..] == rest;
        [[]] + rest
      else
        var r := [[s[0]] + rest[0]] + rest[1..];
        assert r[1..] == rest[1..];
        r
  }

  /** Splitting a piece free of the separator, followed by the separator, peels off that piece. */
  lemma {:induction false} SplitPiece(p: string, sep: char, t: string)
    requires sep !in p
    ensures Split(p + [sep] + t, sep) == [p] + Split(t, sep)
  {
    if p != [] {
      assert (p + [sep] + t)[1..] == p[1..] + [sep] + t;
      SplitPiece(p[1..], sep, t);
      assert [p[0]] + p[1..] == p;
    } else {
      assert (p + [sep] + t)[1..] == t;
    }
  }

  /** A string without the separator splits into itself alone. */
  lemma {:induction false} SplitWithoutSeparator(s: string, sep: char)
    requires sep !in s
    ensures Split(s, sep) == [s]
  {
    if s != [] {
      SplitWithoutSeparator(s[1..], sep);
      assert [s[0]] + s[1..] == s;
    }
  }

  /** Splitting undoes joining, for at least one separator-free piece. */
  lemma {:induction false} SplitJoin(parts: seq<string>, sep: char)
    requires |parts| >= 1
    requires forall i :: 0 <= i < |parts| ==> sep !in parts[i]
    ensures Split(Join(parts, sep), sep) == parts
  {
    if |parts| == 1 {
      SplitWithoutSeparator(parts[0], sep);
    } else {
      SplitJoin(parts[1..], sep);
      SplitPiece(parts[0], sep, Join(parts[1..], sep));
      assert [parts[0]] + parts[1..] == parts;
    }
  }

  /** Every character of a part occurs in the joined string. */
  lemma {:induction false} JoinChars(parts: seq<string>, sep: char, i: int, c: char)
    requires 0 <= i < |parts| && c in parts[i]
    ensures c in Join(parts, sep)
  {
    if |parts| > 1 {
      var rest := Join(parts[1..], sep);
      assert Join(parts, sep) == parts[0] + [sep] + rest;
      if i == 0 {
        assert c in parts[0];
        var n :| 0 <= n < |parts[0]| && parts[0][n] == c;
        assert Join(parts, sep)[n] == c;
      } else {
        JoinChars(parts[1..], sep, i - 1, c);
        var n :| 0 <= n < |rest| && rest[n] == c;
        assert Join(parts, sep)[|parts[0]| + 1 + n] == c;
      }
    }
  }

  /** Every character of a piece of `split` occurs in the split string. */
  lemma SplitChars(s: string, sep: char, i: int, c: char)
    requires 0 <= i < |Split(s, sep)| && c in Split(s, sep)[i]
    ensures c in s
  {
    JoinChars(Split(s, sep), sep, i, c);
  }

  /** Number of occurrences of `c` in `s`. */
  function CountChar(s: string, c: char): nat
  {
    if s == [] then 0 else (if s[0] == c then 1 else 0) + CountChar(s[1..], c)
  }

  /** `split` yields one piece more than there are separators. */
  lemma {:induction false} SplitCount(s: string, sep: char)
    ensures |Split(s, sep)| == CountChar(s, sep) + 1
  {
    if s != [] {
      SplitCount(s[1..], sep);
    }
  }
}
