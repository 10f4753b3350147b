/** The few operations of Python's `str` that the extractor relies on:
    `isspace`, `strip`, `startswith`, `endswith` and `split(sep)`, over
    strings as sequences of characters. */
module Text {

  /** Python's `str.isspace` for one character: the ASCII controls TAB, LF,
      VT, FF, CR, the four information separators U+001C..U+001F, SPACE,
      and the Unicode white-space characters U+0085, U+00A0, U+1680,
      U+2000..U+200A, U+2028, U+2029, U+202F, U+205F and U+3000. */
  predicate IsSpace(c: char) {
    ('\t' <= c <= '\r') || ('\U{1C}' <= c <= '\U{1F}') || c == ' ' ||
    c == '\U{85}' || c == '\U{A0}' || c == '\U{1680}' ||
    ('\U{2000}' <= c <= '\U{200A}') || c == '\U{2028}' || c == '\U{2029}' ||
    c == '\U{202F}' || c == '\U{205F}' || c == '\U{3000}'
  }

  predicate StartsWith(s: string, prefix: string) {
    |prefix| <= |s| && s[..|prefix|] == prefix
  }

  predicate EndsWith(s: string, suffix: string) {
    |suffix| <= |s| && s[|s| - |suffix|..] == suffix
  }

  /** `pat` occurs in `s` starting at index `i`. */
  predicate OccursAt(s: string, pat: string, i: int) {
    0 <= i && i + |pat| <= |s| && s[i..i + |pat|] == pat
  }

  ghost predicate Contains(s: string, pat: string) {
    exists i :: OccursAt(s, pat, i)
  }

  /** An occurrence inside an occurrence is an occurrence. */
  lemma OccursWithin(s: string, t: string, a: int, pat: string, b: int)
    requires OccursAt(s, t, a) && OccursAt(t, pat, b)
    ensures OccursAt(s, pat, a + b)
  {
    forall k | 0 <= k < |pat| ensures s[a + b..a + b + |pat|][k] == pat[k] {
      assert t[b..b + |pat|][k] == t[b + k];
      assert s[a..a + |t|][b + k] == s[a + b + k];
    }
  }

  /** Drops the longest prefix of characters satisfying `drop`. */
  function TrimStartWhere(s: string, drop: char -> bool): string
    decreases |s|
  {
    if s != [] && drop(s[0]) then TrimStartWhere(s[1..], drop) else s
  }

  /** Drops the longest suffix of characters satisfying `drop`. */
  function TrimEndWhere(s: string, drop: char -> bool): string
    decreases |s|
  {
    if s != [] && drop(s[|s| - 1]) then TrimEndWhere(s[..|s| - 1], drop) else s
  }

  /** `TrimStartWhere` keeps a suffix, drops only characters satisfying
      `drop`, and stops at the first one that does not. */
  lemma {:induction false} TrimStartWhereCuts(s: string, drop: char -> bool)
    ensures var r := TrimStartWhere(s, drop);
      |r| <= |s| && r == s[|s| - |r|..] &&
      (forall i :: 0 <= i < |s| - |r| ==> drop(s[i])) &&
      (r == [] || !drop(r[0]))
    decreases |s|
  {
    if s != [] && drop(s[0]) {
      TrimStartWhereCuts(s[1..], drop);
    }
  }

  /** `TrimEndWhere` keeps a prefix, drops only characters satisfying
      `drop`, and stops at the last one that does not. */
  lemma {:induction false} TrimEndWhereCuts(s: string, drop: char -> bool)
    ensures var r := TrimEndWhere(s, drop);
      |r| <= |s| && r == s[..|r|] &&
      (forall i :: |r| <= i < |s| ==> drop(s[i])) &&
      (r == [] || !drop(r[|r| - 1]))
    decreases |s|
  {
    if s != [] && drop(s[|s| - 1]) {
      TrimEndWhereCuts(s[..|s| - 1], drop);
    }
  }

  /** Python's `s.strip()`: white space removed from both ends. */
  function Strip(s: string): string {
    TrimEndWhere(TrimStartWhere(s, IsSpace), IsSpace)
  }

  /** The stripped string is the piece of the original starting at `a`:
      everything before it and everything after it is white space, and it
      neither starts nor ends with white space. */
  lemma StripCuts(s: string) returns (a: nat)
    ensures OccursAt(s, Strip(s), a)
    ensures Contains(s, Strip(s))
    ensures forall i :: 0 <= i < a ==> IsSpace(s[i])
    ensures forall i :: a + |Strip(s)| <= i < |s| ==> IsSpace(s[i])
    ensures Strip(s) == [] || (!IsSpace(Strip(s)[0]) && !IsSpace(Strip(s)[|Strip(s)| - 1]))
  {
    var t := TrimStartWhere(s, IsSpace);
    var r := TrimEndWhere(t, IsSpace);
    TrimStartWhereCuts(s, IsSpace);
    TrimEndWhereCuts(t, IsSpace);
    a := |s| - |t|;
    assert s[a..][..|r|] == s[a..a + |r|];
    assert OccursAt(s, r, a);
    forall i | a + |r| <= i < |s| ensures IsSpace(s[i]) {
      assert s[i] == s[a..][i - a] == t[i - a];
    }
  }

  /** Python's `s.split(sep)` for a non-empty separator: the pieces between
      the non-overlapping occurrences of `sep`, found from the left. */
  function Split(s: string, sep: string): (parts: seq<string>)
    requires sep != []
    ensures |parts| >= 1
    decreases |s|
  {
    if |s| < |sep| then [s]
    else if s[..|sep|] == sep then [[]] + Split(s[|sep|..], sep)
    else
      var rest := Split(s[1..], sep);
      [[s[0]] + rest[0]] + rest[1..]
  }

  /** Python's `sep.join(parts)`, the inverse of `Split`. */
  function Join(parts: seq<string>, sep: string): string
    requires |parts| >= 1
  {
    if |parts| == 1 then parts[0] else parts[0] + sep + Join(parts[1..], sep)
  }

  /** Joining the pieces back with the separator gives the original string. */
  lemma {:induction false} SplitJoin(s: string, sep: string)
    requires sep != []
    ensures Join(Split(s, sep), sep) == s
    decreases |s|
  {
    if |s| < |sep| {
    } else if s[..|sep|] == sep {
      SplitJoin(s[|sep|..], sep);
      JoinConsEmpty(Split(s[|sep|..], sep), sep);
      assert s == sep + s[|sep|..];
    } else {
      SplitJoin(s[1..], sep);
      JoinConsFirst(s[0], Split(s[1..], sep), sep);
      assert s == [s[0]] + s[1..];
    }
  }

  /** An empty first piece contributes only its separator. */
  lemma JoinConsEmpty(parts: seq<string>, sep: string)
    requires |parts| >= 1
    ensures Join([[]] + parts, sep) == sep + Join(parts, sep)
  {
    assert ([[]] + parts)[1..] == parts;
  }

  /** Prepending a character to the first piece prepends it to the join. */
  lemma JoinConsFirst(c: char, parts: seq<string>, sep: string)
    requires |parts| >= 1
    ensures Join([[c] + parts[0]] + parts[1..], sep) == [c] + Join(parts, sep)
  {
    var moved := [[c] + parts[0]] + parts[1..];
    if |parts| > 1 {
      assert moved[1..] == parts[1..];
    }
  }

  /** No piece produced by `Split` contains the separator. */
  lemma {:induction false} SplitPiecesAvoidSeparator(s: string, sep: string)
    requires sep != []
    ensures forall k :: 0 <= k < |Split(s, sep)| ==> !Contains(Split(s, sep)[k], sep)
    decreases |s|
  {
    var parts := Split(s, sep);
    if |s| < |sep| {
      assert parts == [s];
      forall i | OccursAt(s, sep, i) ensures false { }
    } else if s[..|sep|] == sep {
      SplitPiecesAvoidSeparator(s[|sep|..], sep);
      var rest := Split(s[|sep|..], sep);
      assert parts == [[]] + rest;
      forall k | 0 <= k < |parts| ensures !Contains(parts[k], sep) {
        if k == 0 {
          forall i | OccursAt(parts[0], sep, i) ensures false { }
        } else {
          assert parts[k] == rest[k - 1];
        }
      }
    } else {
      SplitPiecesAvoidSeparator(s[1..], sep);
      var rest := Split(s[1..], sep);
      assert parts == [[s[0]] + rest[0]] + rest[1..];
      SplitJoin(s[1..], sep);
      PieceIsPrefix(rest, sep);
      assert s == [s[0]] + s[1..];
      ConsAvoidsSeparator(s[0], rest[0], s[1..], sep);
      forall k | 1 <= k < |parts| ensures !Contains(parts[k], sep) {
        assert parts[k] == rest[k];
      }
    }
  }

  /** Prepending a character to a separator-free prefix `t` of `p` keeps it
      separator-free, provided `[c] + p` does not start with the separator. */
  lemma ConsAvoidsSeparator(c: char, t: string, p: string, sep: string)
    requires sep != [] && |t| <= |p| && t == p[..|t|]
    requires !StartsWith([c] + p, sep)
    requires !Contains(t, sep)
    ensures !Contains([c] + t, sep)
  {
    var head := [c] + t;
    forall i | OccursAt(head, sep, i) ensures false {
      if i > 0 {
        assert head[i..i + |sep|] == t[i - 1..i - 1 + |sep|];
        assert OccursAt(t, sep, i - 1);
      }
    }
  }

  /** The first piece is a prefix of the joined string. */
  lemma PieceIsPrefix(parts: seq<string>, sep: string)
    requires |parts| >= 1
    ensures |parts[0]| <= |Join(parts, sep)|
    ensures Join(parts, sep)[..|parts[0]|] == parts[0]
  {
  }

  /** `Split` cuts exactly when the separator occurs. */
  lemma SplitCutsIffContains(s: string, sep: string)
    requires sep != []
    ensures |Split(s, sep)| >= 2 <==> Contains(s, sep)
  {
    var parts := Split(s, sep);
    SplitJoin(s, sep);
    SplitPiecesAvoidSeparator(s, sep);
    if |parts| >= 2 {
      assert Join(parts, sep) == parts[0] + sep + Join(parts[1..], sep);
      assert OccursAt(s, sep, |parts[0]|);
    } else {
      assert s == parts[0];
    }
  }
}
