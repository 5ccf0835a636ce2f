/** Character classes and the operations of Python's `str` that the agents use:
    `isspace`, `lower`, `strip()`, `split(sep)` and `sep.join(parts)`, together with
    the literal, case-insensitive searches that their regular expressions perform. */
module Text {

  /** Python's `str.isspace()` on one character; this is also the class that `\s`
      matches in a `str` pattern. */
  predicate IsSpace(c: char) {
    var n := c as int;
    (9 <= n <= 13) || (28 <= n <= 32) || n == 0x85 || n == 0xA0 || n == 0x1680
    || (0x2000 <= n <= 0x200A) || n == 0x2028 || n == 0x2029 || n == 0x202F
    || n == 0x205F || n == 0x3000
  }

  /** `\d`, restricted to the ASCII digits. */
  predicate IsDigit(c: char) { '0' <= c <= '9' }

  predicate IsAsciiLetter(c: char) { 'a' <= c <= 'z' || 'A' <= c <= 'Z' }

  /** `\w`, restricted to ASCII letters, digits and the underscore. */
  predicate IsWordChar(c: char) { IsAsciiLetter(c) || IsDigit(c) || c == '_' }

  /** Lower-casing of one character, for the ASCII letters. */
  function LowerChar(c: char): char {
    if 'A' <= c <= 'Z' then (c as int + 32) as char else c
  }

  /** `s.lower()`, for the ASCII letters. */
  function Lower(s: string): string {
    if s == [] then [] else [LowerChar(s[0])] + Lower(s[1..])
  }

  /** `lower()` works character by character. */
  lemma {:induction false} LowerChars(s: string)
    ensures |Lower(s)| == |s| && forall k | 0 <= k < |s| :: Lower(s)[k] == LowerChar(s[k])
  {
    if s != [] {
      LowerChars(s[1..]);
      assert forall k | 1 <= k < |s| :: Lower(s)[k] == Lower(s[1..])[k - 1];
    }
  }

  predicate AllSpace(s: string) {
    forall k | 0 <= k < |s| :: IsSpace(s[k])
  }

  predicate AllSpaceIn(s: string, i: nat, j: nat)
    requires i <= j <= |s|
  {
    forall k | i <= k < j :: IsSpace(s[k])
  }

  predicate AllDigitsIn(s: string, i: nat, j: nat)
    requires i <= j <= |s|
  {
    forall k | i <= k < j :: IsDigit(s[k])
  }

  /** The pattern `w`, written in lower case, matches `s` at position `i` under
      `re.IGNORECASE`. */
  predicate MatchesAt(s: string, i: nat, w: string) {
    i + |w| <= |s| && forall k | 0 <= k < |w| :: LowerChar(s[i + k]) == w[k]
  }

  /** The same, stated with `lower()` on the text that the pattern covers. */
  lemma MatchesAtLower(s: string, i: nat, w: string)
    requires i + |w| <= |s|
    ensures MatchesAt(s, i, w) <==> Lower(s[i..i + |w|]) == w
  {
    LowerChars(s[i..i + |w|]);
  }

  /** `re.search(w, s, re.IGNORECASE)` succeeds, for a pattern `w` of literal characters
      written in lower case. */
  predicate ContainsIgnoreCase(s: string, w: string) {
    exists i: nat | i <= |s| :: MatchesAt(s, i, w)
  }

  /** `re.search(w, s[i:], re.IGNORECASE)` succeeds: the scan that tries each position
      from `i` onwards, for a pattern `w` of literal characters written in lower case. */
  predicate SearchFrom(s: string, w: string, i: nat)
    decreases |s| - i
  {
    i <= |s| && (MatchesAt(s, i, w) || (i < |s| && SearchFrom(s, w, i + 1)))
  }

  /** The scan finds the pattern exactly when it occurs at some position it tries. */
  lemma {:induction false} SearchFromIff(s: string, w: string, i: nat)
    ensures SearchFrom(s, w, i) <==> exists j: nat | i <= j <= |s| :: MatchesAt(s, j, w)
    decreases |s| - i
  {
    if i < |s| {
      SearchFromIff(s, w, i + 1);
      if exists j: nat | i <= j <= |s| :: MatchesAt(s, j, w) {
        var j: nat :| i <= j <= |s| && MatchesAt(s, j, w);
        if j > i {
          assert i + 1 <= j;
        }
      }
    }
  }

  lemma SearchIff(s: string, w: string)
    ensures SearchFrom(s, w, 0) <==> ContainsIgnoreCase(s, w)
  {
    SearchFromIff(s, w, 0);
  }

  /** The end of the run of whitespace that starts at `i`: what a greedy `\s*` consumes. */
  function SpaceEnd(s: string, i: nat): (r: nat)
    requires i <= |s|
    ensures i <= r <= |s| && AllSpaceIn(s, i, r) && (r == |s| || !IsSpace(s[r]))
    decreases |s| - i
  {
    if i < |s| && IsSpace(s[i]) then SpaceEnd(s, i + 1) else i
  }

  /** The end of the run of digits that starts at `i`: what a greedy `\d+` consumes. */
  function DigitEnd(s: string, i: nat): (r: nat)
    requires i <= |s|
    ensures i <= r <= |s| && AllDigitsIn(s, i, r) && (r == |s| || !IsDigit(s[r]))
    decreases |s| - i
  {
    if i < |s| && IsDigit(s[i]) then DigitEnd(s, i + 1) else i
  }

  /** A run of whitespace that stops at a non-space is the greedy run. */
  lemma {:induction false} SpaceEndUnique(s: string, i: nat, j: nat)
    requires i <= j <= |s| && AllSpaceIn(s, i, j) && (j == |s| || !IsSpace(s[j]))
    ensures SpaceEnd(s, i) == j
    decreases |s| - i
  {
    if i < j {
      SpaceEndUnique(s, i + 1, j);
    }
  }

  /** A run of digits that stops at a non-digit is the greedy run. */
  lemma {:induction false} DigitEndUnique(s: string, i: nat, j: nat)
    requires i <= j <= |s| && AllDigitsIn(s, i, j) && (j == |s| || !IsDigit(s[j]))
    ensures DigitEnd(s, i) == j
    decreases |s| - i
  {
    if i < j {
      DigitEndUnique(s, i + 1, j);
    }
  }

  lemma MatchesAtChar(s: string, i: nat, w: string, k: nat)
    requires MatchesAt(s, i, w) && k < |w|
    ensures LowerChar(s[i + k]) == w[k]
  {
  }

  /** A pattern that matches also matches with one more character, when the text has it. */
  lemma MatchesAtExtend(s: string, i: nat, w: string, c: char)
    requires MatchesAt(s, i, w) && i + |w| < |s| && LowerChar(s[i + |w|]) == c
    ensures MatchesAt(s, i, w + [c])
  {
  }

  /** A pattern that matches also matches without its last character. */
  lemma MatchesAtPrefix(s: string, i: nat, w: string, c: char)
    requires MatchesAt(s, i, w + [c])
    ensures MatchesAt(s, i, w) && LowerChar(s[i + |w|]) == c
  {
    assert (w + [c])[|w|] == c;
    assert forall k | 0 <= k < |w| :: (w + [c])[k] == w[k];
  }

  /** The greedy run of digits covers every run of digits that starts at the same place. */
  lemma {:induction false} DigitEndCovers(s: string, i: nat, j: nat)
    requires i <= j <= |s| && AllDigitsIn(s, i, j)
    ensures DigitEnd(s, i) >= j
    decreases |s| - i
  {
    if i < j {
      DigitEndCovers(s, i + 1, j);
    }
  }

  /** Neither end of `s` is whitespace: what `strip()` leaves. */
  predicate IsTrimmed(s: string) {
    s == [] || (!IsSpace(s[0]) && !IsSpace(s[|s| - 1]))
  }

  /** `s.lstrip()`. */
  function TrimStart(s: string): (r: string)
    ensures r == [] || !IsSpace(r[0])
  {
    if |s| > 0 && IsSpace(s[0]) then TrimStart(s[1..]) else s
  }

  /** `s.rstrip()`. */
  function TrimEnd(s: string): (r: string)
    ensures r == [] || !IsSpace(r[|r| - 1])
  {
    if |s| > 0 && IsSpace(s[|s| - 1]) then TrimEnd(s[..|s| - 1]) else s
  }

  /** `s.strip()`: what remains once whitespace is gone from both ends. */
  function Trim(s: string): (r: string)
    ensures IsTrimmed(r)
  {
    var t := TrimStart(s);
    var r := TrimEnd(t);
    assert r != [] ==> r[0] == t[0] by {
      if r != [] { TrimEndPrefix(t); }
    }
    r
  }

  /** `lstrip()` removes a prefix of whitespace. */
  lemma {:induction false} TrimStartSuffix(s: string)
    ensures |TrimStart(s)| <= |s| && TrimStart(s) == s[|s| - |TrimStart(s)|..]
    ensures AllSpace(s[..|s| - |TrimStart(s)|])
  {
    if |s| > 0 && IsSpace(s[0]) {
      TrimStartSuffix(s[1..]);
      var n := |s| - |TrimStart(s)|;
      assert forall k | 1 <= k < n :: s[..n][k] == s[1..][..n - 1][k - 1];
    }
  }

  /** `rstrip()` removes a suffix of whitespace. */
  lemma {:induction false} TrimEndPrefix(s: string)
    ensures |TrimEnd(s)| <= |s| && TrimEnd(s) == s[..|TrimEnd(s)|]
    ensures AllSpace(s[|TrimEnd(s)|..])
  {
    if |s| > 0 && IsSpace(s[|s| - 1]) {
      TrimEndPrefix(s[..|s| - 1]);
      var n := |TrimEnd(s)|;
      assert s[n..] == s[..|s| - 1][n..] + [s[|s| - 1]];
    }
  }

  /** Where `strip()` cuts: the result is a slice of `s` with only whitespace on either
      side of it. */
  lemma TrimSlice(s: string) returns (i: nat, j: nat)
    ensures i <= j <= |s| && Trim(s) == s[i..j]
    ensures AllSpace(s[..i]) && AllSpace(s[j..])
  {
    var t := TrimStart(s);
    TrimStartSuffix(s);
    TrimEndPrefix(t);
    var r := TrimEnd(t);
    i, j := |s| - |t|, |s| - |t| + |r|;
    assert r == s[i..j];
    assert s[j..] == t[|r|..];
  }

  /** `strip()` is determined by what it promises: whatever whitespace surrounds a
      trimmed core, stripping gives back that core. */
  lemma TrimUnique(a: string, m: string, b: string)
    requires AllSpace(a) && AllSpace(b) && IsTrimmed(m)
    ensures Trim(a + m + b) == m
  {
    var s := a + m + b;
    var i, j := TrimSlice(s);
    if m != [] {
      assert s[|a|] == m[0];
      assert s[|a| + |m| - 1] == m[|m| - 1];
    }
  }

  /** A text that is already trimmed is left alone. */
  lemma TrimTrimmed(s: string)
    requires IsTrimmed(s)
    ensures Trim(s) == s
  {
    assert "" + s + "" == s;
    TrimUnique("", s, "");
  }

  /** A text of only whitespace strips to nothing. */
  lemma TrimBlank(s: string)
    requires AllSpace(s)
    ensures Trim(s) == ""
  {
    var i, j := TrimSlice(s);
  }

  /** Stripping never brings in a character that was not there. */
  lemma TrimKeepsOut(s: string, c: char)
    requires c !in s
    ensures c !in Trim(s)
  {
    var i, j := TrimSlice(s);
    assert forall k | 0 <= k < j - i :: Trim(s)[k] == s[i + k];
  }

  /** `strip()` is idempotent. */
  lemma TrimIdempotent(s: string)
    ensures Trim(Trim(s)) == Trim(s)
  {
    var t := Trim(s);
    assert "" + t + "" == t;
    TrimUnique("", t, "");
  }

  /** `sep.join(parts)`. */
  function Join(parts: seq<string>, sep: string): string {
    if |parts| == 0 then ""
    else if |parts| == 1 then parts[0]
    else parts[0] + sep + Join(parts[1..], sep)
  }

  /** `s.split(sep)` for a one-character separator: the pieces between separators,
      always at least one. */
  function Split(s: string, sep: char): (r: seq<string>)
    ensures |r| >= 1
  {
    if |s| == 0 then [""]
    else
      var rest := Split(s[1..], sep);
      if s[0] == sep then [""] + rest
      else [[s[0]] + rest[0]] + rest[1..]
  }

  /** No piece holds the separator. */
  lemma {:induction false} SplitPieces(s: string, sep: char)
    ensures forall k | 0 <= k < |Split(s, sep)| :: sep !in Split(s, sep)[k]
  {
    if |s| > 0 {
      SplitPieces(s[1..], sep);
    }
  }

  /** Every character of a piece is a character of the text. */
  lemma {:induction false} SplitChars(s: string, sep: char)
    ensures forall k, i | 0 <= k < |Split(s, sep)| && 0 <= i < |Split(s, sep)[k]| :: Split(s, sep)[k][i] in s
  {
    if |s| > 0 {
      SplitChars(s[1..], sep);
      var rest := Split(s[1..], sep);
      assert forall k, i | 0 <= k < |rest| && 0 <= i < |rest[k]| :: rest[k][i] in s by {
        forall k, i | 0 <= k < |rest| && 0 <= i < |rest[k]| ensures rest[k][i] in s {
          assert rest[k][i] in s[1..];
        }
      }
    }
  }

  /** Joining the pieces of a split with the same separator gives back the text. */
  lemma {:induction false} JoinSplit(s: string, sep: char)
    ensures Join(Split(s, sep), [sep]) == s
  {
    if |s| > 0 {
      var rest := Split(s[1..], sep);
      JoinSplit(s[1..], sep);
      if s[0] != sep {
        var parts := [[s[0]] + rest[0]] + rest[1..];
        assert parts[1..] == rest[1..];
        if |rest| > 1 {
          assert Join(rest, [sep]) == rest[0] + [sep] + Join(rest[1..], [sep]);
        }
      } else {
        assert ([""] + rest)[1..] == rest;
      }
    }
  }

  /** A text with no separator splits into itself alone. */
  lemma {:induction false} SplitNoSep(s: string, sep: char)
    requires sep !in s
    ensures Split(s, sep) == [s]
  {
    if |s| > 0 {
      SplitNoSep(s[1..], sep);
      assert [s[0]] + s[1..] == s;
    }
  }

  /** Gluing a prefix onto the first of two lists of pieces. */
  lemma GlueFirst(x: string, ra: seq<string>, rb: seq<string>)
    requires |ra| >= 1
    ensures [x + (ra + rb)[0]] + (ra + rb)[1..] == ([x + ra[0]] + ra[1..]) + rb
  {
    assert (ra + rb)[1..] == ra[1..] + rb;
  }

  /** Splitting at a separator splits the two sides independently. */
  lemma {:induction false} SplitConcat(a: string, b: string, sep: char)
    ensures Split(a + [sep] + b, sep) == Split(a, sep) + Split(b, sep)
  {
    var s := a + [sep] + b;
    if |a| == 0 {
      assert s[1..] == b;
    } else {
      assert s[1..] == a[1..] + [sep] + b;
      SplitConcat(a[1..], b, sep);
      if a[0] != sep {
        GlueFirst([a[0]], Split(a[1..], sep), Split(b, sep));
      }
    }
  }

  /** The pieces of every text in `parts`, one after the other. */
  function SplitAll(parts: seq<string>, sep: char): seq<string> {
    if parts == [] then [] else Split(parts[0], sep) + SplitAll(parts[1..], sep)
  }

  /** Splitting a join gives back the pieces of the parts; for parts without the
      separator, the parts themselves. */
  lemma {:induction false} SplitJoin(parts: seq<string>, sep: char)
    requires parts != []
    ensures Split(Join(parts, [sep]), sep) == SplitAll(parts, sep)
  {
    if |parts| == 1 {
      assert SplitAll(parts[1..], sep) == [];
    } else {
      SplitJoin(parts[1..], sep);
      SplitConcat(parts[0], Join(parts[1..], [sep]), sep);
    }
  }

  lemma {:induction false} SplitAllNoSep(parts: seq<string>, sep: char)
    requires forall k | 0 <= k < |parts| :: sep !in parts[k]
    ensures SplitAll(parts, sep) == parts
  {
    if parts != [] {
      SplitNoSep(parts[0], sep);
      SplitAllNoSep(parts[1..], sep);
    }
  }

  lemma {:induction false} SplitAllAppend(a: seq<string>, b: seq<string>, sep: char)
    ensures SplitAll(a + b, sep) == SplitAll(a, sep) + SplitAll(b, sep)
  {
    if a != [] {
      assert (a + b)[1..] == a[1..] + b;
      SplitAllAppend(a[1..], b, sep);
    } else {
      assert a + b == b;
    }
  }
}
