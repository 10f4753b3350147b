/** The fence patterns the extractor searches for in a stripped line.

    Both scripts use Python's `re.search` with three pattern shapes:
    `:::[:]*[ ]*WORD$` (anchored, for `challenge` and `solution`),
    `:::[:]*[ ]*discussion` (unanchored) and `:::$`. Because they are only
    ever applied to a stripped line, which never ends in a newline, `$`
    matches exactly at the end of the string.

    Each shape is given twice: once in the regular-expression reading
    (a witness span of the line that the pattern matches, ghost), and once
    as a computable predicate on the string; the lemmas at the end prove
    the two readings agree. */
module Patterns {
  import opened Text

  const Fence: string := ":::"

  function Repeat(c: char, n: nat): (r: string)
    ensures |r| == n
    ensures forall i :: 0 <= i < n ==> r[i] == c
  {
    if n == 0 then [] else Repeat(c, n - 1) + [c]
  }

  /** The text matched by `:::[:]*[ ]*` with `extra` further colons and
      `gap` spaces. */
  function FenceToken(extra: nat, gap: nat): string {
    Fence + Repeat(':', extra) + Repeat(' ', gap)
  }

  /** Regular-expression reading: `s[i..j]` is matched by `:::[:]*[ ]*word`. */
  ghost predicate MatchesSpan(s: string, word: string, i: int, j: int) {
    0 <= i <= j <= |s| &&
    exists extra: nat, gap: nat :: s[i..j] == FenceToken(extra, gap) + word
  }

  /** `re.search(":::[:]*[ ]*" + word + "$", s)` succeeds. */
  ghost predicate SearchAnchored(s: string, word: string) {
    exists i :: MatchesSpan(s, word, i, |s|)
  }

  /** `re.search(":::[:]*[ ]*" + word, s)` succeeds. */
  ghost predicate Search(s: string, word: string) {
    exists i, j :: MatchesSpan(s, word, i, j)
  }

  predicate IsBlank(c: char) {
    c == ' '
  }

  /** `p` ends in a fence token: after dropping trailing spaces it ends in
      three colons. */
  predicate EndsInFence(p: string) {
    EndsWith(TrimEndWhere(p, IsBlank), Fence)
  }

  /** Computable form of `:::[:]*[ ]*word$`. */
  predicate FencedWordAtEnd(s: string, word: string) {
    EndsWith(s, word) && EndsInFence(s[..|s| - |word|])
  }

  /** Computable form of `:::[:]*[ ]*word` (no anchor). */
  predicate FencedWordInside(s: string, word: string) {
    exists j | 0 <= j <= |s| - |word| :: OccursAt(s, word, j) && EndsInFence(s[..j])
  }

  /** `:::[:]*[ ]*challenge$` — opens a block in both scripts. */
  predicate OpensChallenge(s: string) {
    FencedWordAtEnd(s, "challenge")
  }

  /** `:::[:]*[ ]*discussion` — opens a block in the annotated script only. */
  predicate OpensDiscussion(s: string) {
    FencedWordInside(s, "discussion")
  }

  /** `:::$` or `:::[:]*[ ]*solution$` — closes a block. */
  predicate ClosesBlock(s: string) {
    EndsWith(s, Fence) || FencedWordAtEnd(s, "solution")
  }

  /** Trimming trailing spaces is characterised by where it cuts. */
  lemma TrimEndCut(s: string, n: nat)
    requires n <= |s|
    requires forall i :: n <= i < |s| ==> s[i] == ' '
    requires n == 0 || s[n - 1] != ' '
    ensures TrimEndWhere(s, IsBlank) == s[..n]
  {
    TrimEndWhereCuts(s, IsBlank);
  }

  /** The computable fence test agrees with the pattern `.*:::[:]*[ ]*`
      anchored at the end of `p`. */
  lemma EndsInFenceIff(p: string)
    ensures EndsInFence(p) <==>
      exists i, extra: nat, gap: nat :: 0 <= i <= |p| && p[i..] == FenceToken(extra, gap)
  {
    var t := TrimEndWhere(p, IsBlank);
    TrimEndWhereCuts(p, IsBlank);
    if EndsInFence(p) {
      var gap := |p| - |t|;
      assert p[|t|..] == Repeat(' ', gap);
      assert Repeat(':', 0) == [];
      assert p[|t| - 3..] == t[|t| - 3..] + p[|t|..];
      assert p[|t| - 3..] == FenceToken(0, gap);
    }
    if exists i, extra: nat, gap: nat :: 0 <= i <= |p| && p[i..] == FenceToken(extra, gap) {
      var i, extra: nat, gap: nat :| 0 <= i <= |p| && p[i..] == FenceToken(extra, gap);
      FenceTokenEndsInColons(p, i, extra, gap);
    }
  }

  lemma FenceTokenEndsInColons(p: string, i: int, extra: nat, gap: nat)
    requires 0 <= i <= |p| && p[i..] == FenceToken(extra, gap)
    ensures EndsInFence(p)
  {
    var n := |p| - gap;
    var tok := FenceToken(extra, gap);
    assert forall k :: 0 <= k < 3 + extra ==> tok[k] == ':';
    assert forall k :: 3 + extra <= k < |tok| ==> tok[k] == ' ';
    assert forall k :: i <= k < |p| ==> p[k] == tok[k - i];
    TrimEndCut(p, n);
    assert p[..n][n - 3..] == Fence;
  }

  /** `FencedWordAtEnd` is `re.search(":::[:]*[ ]*word$", s)`. */
  lemma FencedWordAtEndIff(s: string, word: string)
    ensures FencedWordAtEnd(s, word) <==> SearchAnchored(s, word)
  {
    if FencedWordAtEnd(s, word) {
      FencedWordAtEndMatches(s, word);
    }
    if SearchAnchored(s, word) {
      var i :| MatchesSpan(s, word, i, |s|);
      AnchoredMatchEndsInWord(s, word, i);
    }
  }

  lemma FencedWordAtEndMatches(s: string, word: string)
    requires FencedWordAtEnd(s, word)
    ensures SearchAnchored(s, word)
  {
    var p := s[..|s| - |word|];
    EndsInFenceIff(p);
    var i, extra: nat, gap: nat :| 0 <= i <= |p| && p[i..] == FenceToken(extra, gap);
    assert s == p + word;
    assert s[i..|s|] == p[i..] + word;
    assert MatchesSpan(s, word, i, |s|);
  }

  lemma AnchoredMatchEndsInWord(s: string, word: string, i: int)
    requires MatchesSpan(s, word, i, |s|)
    ensures FencedWordAtEnd(s, word)
  {
    var extra: nat, gap: nat :| s[i..|s|] == FenceToken(extra, gap) + word;
    var p := s[..|s| - |word|];
    assert s[|s| - |word|..] == s[i..|s|][|s[i..|s|]| - |word|..];
    assert p[i..] == FenceToken(extra, gap);
    FenceTokenEndsInColons(p, i, extra, gap);
  }

  /** `FencedWordInside` is `re.search(":::[:]*[ ]*word", s)`. */
  lemma FencedWordInsideIff(s: string, word: string)
    ensures FencedWordInside(s, word) <==> Search(s, word)
  {
    if FencedWordInside(s, word) {
      var j :| 0 <= j <= |s| - |word| && OccursAt(s, word, j) && EndsInFence(s[..j]);
      FencedWordInsideMatches(s, word, j);
    }
    if Search(s, word) {
      var i, j :| MatchesSpan(s, word, i, j);
      MatchFindsFencedWord(s, word, i, j);
    }
  }

  lemma FencedWordInsideMatches(s: string, word: string, j: int)
    requires 0 <= j <= |s| - |word| && OccursAt(s, word, j) && EndsInFence(s[..j])
    ensures Search(s, word)
  {
    var p := s[..j];
    EndsInFenceIff(p);
    var i, extra: nat, gap: nat :| 0 <= i <= |p| && p[i..] == FenceToken(extra, gap);
    assert s[i..j + |word|] == p[i..] + word;
    assert MatchesSpan(s, word, i, j + |word|);
  }

  lemma MatchFindsFencedWord(s: string, word: string, i: int, j: int)
    requires MatchesSpan(s, word, i, j)
    ensures FencedWordInside(s, word)
  {
    var extra: nat, gap: nat :| s[i..j] == FenceToken(extra, gap) + word;
    var k := j - |word|;
    var p := s[..k];
    assert s[k..j] == s[i..j][|s[i..j]| - |word|..];
    assert OccursAt(s, word, k);
    assert p[i..] == FenceToken(extra, gap);
    FenceTokenEndsInColons(p, i, extra, gap);
  }
}
