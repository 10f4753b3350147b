/** What the extractor promises, stated about the fold `Run` (and so, by
    their postconditions, about the loops `ExtractFile` and
    `ExtractFiles`). */
module ExtractorProperties {
  import opened Text
  import opened Patterns
  import opened Extractor

  // ---------------------------------------------------------------------
  // Title lines
  // ---------------------------------------------------------------------

  /** The line holds `': '` at two places that do not overlap. */
  ghost predicate TwoSeparators(line: string) {
    exists i, j :: i + 2 <= j && OccursAt(line, Separator, i) && OccursAt(line, Separator, j)
  }

  /** A title line always holds at least one `': '`: the one right after
      `title` in the stripped line. So `split` never yields fewer than two
      pieces for it. */
  lemma TitleLineHasSeparator(line: string)
    requires IsTitleLine(line)
    ensures Contains(line, Separator)
    ensures |Split(line, Separator)| >= 2
  {
    var r := Strip(line);
    var a := StripCuts(line);
    assert r[..7][5..7] == r[5..7];
    assert OccursAt(r, Separator, 5);
    OccursWithin(line, r, a, Separator, 5);
    SplitCutsIffContains(line, Separator);
  }

  /** In `head + ": " + rest` with no `': '` in `head` or `rest`, the only
      occurrence of the separator is the one between them. */
  lemma OnlySeparatorBetween(head: string, rest: string)
    requires !Contains(head, Separator) && !Contains(rest, Separator)
    ensures forall i :: OccursAt(head + Separator + rest, Separator, i) ==> i == |head|
  {
    var line := head + Separator + rest;
    assert line[|head|] == ':' && line[|head| + 1] == ' ';
    forall i | OccursAt(line, Separator, i) ensures i == |head| {
      if i + 2 <= |head| {
        assert head[i..i + 2] == line[i..i + 2];
        assert OccursAt(head, Separator, i);
      } else if i == |head| - 1 || i == |head| + 1 {
        assert false;
      } else if i >= |head| + 2 {
        assert rest[i - |head| - 2..i - |head|] == line[i..i + 2];
        assert OccursAt(rest, Separator, i - |head| - 2);
      }
    }
  }

  /** A title line whose only `': '` separates `head` from `rest` writes
      `## Episode: ` followed by `rest` (untrimmed, with its line
      terminator), records `rest` as the title, and leaves the exercise
      flag as it was. */
  lemma TitleLineWrites(annotate: bool, st: Scan, line: string, head: string, rest: string)
    requires IsTitleLine(line)
    requires line == head + Separator + rest
    requires !Contains(head, Separator) && !Contains(rest, Separator)
    ensures Step(annotate, st, line) == Some(Effect(Scan(rest, st.exercise), [EpisodeHeader + rest]))
  {
    TitleLineRaises(annotate, st, line);
    OnlySeparatorBetween(head, rest);
    var parts := Split(line, Separator);
    SplitJoin(line, Separator);
    assert |parts| == 2;
    assert line == parts[0] + Separator + parts[1];
    assert OccursAt(line, Separator, |parts[0]|);
    assert parts[1] == line[|parts[0]| + 2..];
    assert rest == line[|head| + 2..];
  }

  /** A title line raises exactly when it holds two or more `': '`
      (`too many values to unpack`); it never raises for having too few. */
  lemma TitleLineRaises(annotate: bool, st: Scan, line: string)
    requires IsTitleLine(line)
    ensures Step(annotate, st, line).None? <==> TwoSeparators(line)
  {
    TitleLineHasSeparator(line);
    SplitInTwoIffOneSeparator(line);
  }

  /** A line holding the separator splits into exactly two pieces unless it
      holds it twice. */
  lemma SplitInTwoIffOneSeparator(line: string)
    requires |Split(line, Separator)| >= 2
    ensures |Split(line, Separator)| == 2 <==> !TwoSeparators(line)
  {
    var parts := Split(line, Separator);
    SplitJoin(line, Separator);
    SplitPiecesAvoidSeparator(line, Separator);
    assert Join(parts, Separator) == parts[0] + Separator + Join(parts[1..], Separator);
    if |parts| == 2 {
      assert line == parts[0] + Separator + parts[1];
      OnlySeparatorBetween(parts[0], parts[1]);
    } else {
      assert Join(parts[1..], Separator) == parts[1] + Separator + Join(parts[2..], Separator);
      assert OccursAt(line, Separator, |parts[0]|);
      assert OccursAt(line, Separator, |parts[0]| + 2 + |parts[1]|);
    }
  }

  // ---------------------------------------------------------------------
  // Markers and plain lines
  // ---------------------------------------------------------------------

  /** An opening fence that is not a title line opens a block whether or
      not one is already open, and even when it also ends like a closing
      fence; the annotated script writes a blank line and the exercise
      header, the basic one writes nothing. */
  lemma OpeningLineEffect(annotate: bool, st: Scan, line: string)
    requires !IsTitleLine(line) && Opens(annotate, Strip(line))
    ensures Step(annotate, st, line) ==
      Some(Effect(Scan(st.title, true), if annotate then [Newline, ExerciseHeader] else []))
  {
  }

  /** A closing fence that is neither a title nor an opening fence leaves
      the block and writes nothing; outside a block it changes nothing. */
  lemma ClosingLineEffect(annotate: bool, st: Scan, line: string)
    requires !IsTitleLine(line) && !Opens(annotate, Strip(line)) && ClosesBlock(Strip(line))
    ensures Step(annotate, st, line) == Some(Effect(Scan(st.title, false), []))
    ensures !st.exercise ==> Step(annotate, st, line) == Some(Effect(st, []))
  {
  }

  /** Any other line is written unchanged inside a block and dropped
      outside one; it never changes the scan variables. */
  lemma PlainLineEffect(annotate: bool, st: Scan, line: string)
    requires !IsTitleLine(line) && !Opens(annotate, Strip(line)) && !ClosesBlock(Strip(line))
    ensures Step(annotate, st, line) == Some(Effect(st, if st.exercise then [line] else []))
  {
  }

  /** A `discussion` fence opens a block in the annotated script only; the
      basic script treats it as an ordinary line. */
  lemma DiscussionOnlyOpensWhenAnnotated(st: Scan, line: string)
    requires !IsTitleLine(line) && !OpensChallenge(Strip(line)) && !ClosesBlock(Strip(line))
    requires OpensDiscussion(Strip(line))
    ensures Step(true, st, line) == Some(Effect(Scan(st.title, true), [Newline, ExerciseHeader]))
    ensures Step(false, st, line) == Some(Effect(st, if st.exercise then [line] else []))
  {
  }

  /** Title beats opening beats closing: a `discussion` fence that also
      ends in a bare fence, such as `::: discussion :::`, opens a block in
      the annotated script; the basic script, which does not open on
      `discussion`, closes on it. */
  lemma DiscussionFenceBothWays(line: string)
    requires !IsTitleLine(line) && OpensDiscussion(Strip(line))
    requires !OpensChallenge(Strip(line)) && EndsWith(Strip(line), Fence)
    ensures Classify(true, line) == Opening
    ensures Classify(false, line) == Closing
  {
  }

  /** `::: discussion :::` matches `:::[:]*[ ]*discussion`. */
  lemma DiscussionFenceOpens()
    ensures OpensDiscussion("::: discussion :::")
  {
    var s := "::: discussion :::";
    assert s[4..14] == "discussion";
    assert s[..4] == "::: ";
    TrimEndCut("::: ", 3);
    assert OccursAt(s, "discussion", 4) && EndsInFence(s[..4]);
  }

  /** `::: discussion :::` does not end in `challenge` but does end in a
      bare fence. */
  lemma DiscussionFenceIsNoChallenge()
    ensures !OpensChallenge("::: discussion :::") && EndsWith("::: discussion :::", Fence)
  {
    var s := "::: discussion :::";
    assert s[|s| - 9] != "challenge"[0];
    assert s[|s| - 3..] == Fence;
  }

  /** A `solution` fence closes a block exactly like a bare `:::`. */
  lemma SolutionFenceCloses(annotate: bool, line: string)
    requires Strip(line) == "::: solution"
    ensures Classify(annotate, line) == Closing
  {
    SolutionFenceDoesNotOpen();
    SolutionFenceEndsInWord();
  }

  /** `::: solution` neither ends in `challenge` nor holds `discussion`. */
  lemma SolutionFenceDoesNotOpen()
    ensures !OpensChallenge("::: solution") && !OpensDiscussion("::: solution")
  {
    var s := "::: solution";
    assert !EndsWith(s, "challenge") by {
      assert s[3] != "challenge"[0];
    }
    forall j | 0 <= j <= |s| - |"discussion"| ensures !OccursAt(s, "discussion", j) {
      assert s[j..j + |"discussion"|][0] == s[j] != "discussion"[0];
    }
  }

  /** `::: solution` matches `:::[:]*[ ]*solution$`. */
  lemma SolutionFenceEndsInWord()
    ensures FencedWordAtEnd("::: solution", "solution")
  {
    var s := "::: solution";
    assert s[..|s| - |"solution"|] == "::: ";
    assert s[|s| - |"solution"|..] == "solution";
    TrimEndCut("::: ", 3);
  }

  // ---------------------------------------------------------------------
  // The whole scan against a reference definition
  // ---------------------------------------------------------------------

  /** Which branch each line takes. */
  ghost function Kinds(annotate: bool, lines: seq<string>): seq<Kind> {
    seq(|lines|, i requires 0 <= i < |lines| => Classify(annotate, lines[i]))
  }

  /** Reference reading of the `exercise` flag before line `i`: some earlier
      line opened a block and no closing fence came after it. */
  ghost predicate InsideAt(kinds: seq<Kind>, i: nat)
    requires i <= |kinds|
  {
    exists j :: 0 <= j < i && kinds[j] == Opening &&
      forall m :: j < m < i ==> kinds[m] != Closing
  }

  /** Reference output of line `i`, read off the line and `InsideAt`. */
  ghost function LineOutput(annotate: bool, lines: seq<string>, i: nat): seq<string>
    requires i < |lines|
  {
    match Classify(annotate, lines[i])
    case Title => (match TitleOf(lines[i]) case Some(t) => [EpisodeHeader + t] case None => [])
    case Opening => if annotate then [Newline, ExerciseHeader] else []
    case Closing => []
    case Plain => if InsideAt(Kinds(annotate, lines), i) then [lines[i]] else []
  }

  /** Reference output of the first `n` lines: their outputs in order. */
  ghost function Expected(annotate: bool, lines: seq<string>, n: nat): seq<string>
    requires n <= |lines|
  {
    if n == 0 then [] else Expected(annotate, lines, n - 1) + LineOutput(annotate, lines, n - 1)
  }

  /** Every title line among the first `n` has a single separator. */
  ghost predicate TitlesWellFormed(lines: seq<string>, n: nat)
    requires n <= |lines|
  {
    forall i :: 0 <= i < n && IsTitleLine(lines[i]) ==> TitleOf(lines[i]).Some?
  }

  /** How `InsideAt` moves past one line. */
  lemma InsideAtNext(kinds: seq<Kind>, i: nat)
    requires i < |kinds|
    ensures InsideAt(kinds, i + 1) ==
      match kinds[i]
      case Opening => true
      case Closing => false
      case _ => InsideAt(kinds, i)
  {
    if kinds[i] == Opening {
      assert 0 <= i < i + 1 && kinds[i] == Opening;
    } else if kinds[i] != Closing {
      if InsideAt(kinds, i) {
        var j :| 0 <= j < i && kinds[j] == Opening && forall m :: j < m < i ==> kinds[m] != Closing;
        assert forall m :: j < m < i + 1 ==> kinds[m] != Closing;
      }
    }
  }

  /** `o` is how the scan of the first `n` lines must end by the
      reference: it finishes exactly when every title line is well formed;
      the `exercise` flag is then true exactly when the last fence seen
      opened a block, and the output is the lines' reference outputs in
      order. Otherwise it stops at the first malformed title line, with the
      output of the lines before it. */
  ghost predicate AgreesWithReference(annotate: bool, lines: seq<string>, n: nat, o: Outcome)
    requires n <= |lines|
  {
    (o.Done? <==> TitlesWellFormed(lines, n)) &&
    (o.Done? ==>
      o.final.exercise == InsideAt(Kinds(annotate, lines), n) &&
      o.out == Expected(annotate, lines, n)) &&
    (o.Crash? ==>
      o.line < n && IsTitleLine(lines[o.line]) && TitleOf(lines[o.line]).None? &&
      TitlesWellFormed(lines, o.line) && o.out == Expected(annotate, lines, o.line))
  }

  /** Agreement survives feeding the next line to a finished scan. */
  lemma AgreesAfterStep(annotate: bool, lines: seq<string>, k: nat, st: Scan, out: seq<string>)
    requires k < |lines|
    requires AgreesWithReference(annotate, lines, k, Done(st, out))
    ensures AgreesWithReference(annotate, lines, k + 1, Advance(annotate, Done(st, out), lines[k], k))
  {
    var line := lines[k];
    InsideAtNext(Kinds(annotate, lines), k);
    assert Kinds(annotate, lines)[k] == Classify(annotate, line);
    match Step(annotate, st, line)
    case None =>
      assert !TitlesWellFormed(lines, k + 1);
    case Some(e) =>
      assert e.written == LineOutput(annotate, lines, k);
  }

  /** Agreement survives any further line once the scan has raised. */
  lemma AgreesAfterCrash(annotate: bool, lines: seq<string>, k: nat, out: seq<string>, at: nat)
    requires k < |lines|
    requires AgreesWithReference(annotate, lines, k, Crash(out, at))
    ensures AgreesWithReference(annotate, lines, k + 1, Crash(out, at))
  {
  }

  /** The scan of the first `n` lines agrees with the reference. */
  lemma {:induction false} RunMatchesReference(annotate: bool, lines: seq<string>, n: nat)
    requires n <= |lines|
    ensures AgreesWithReference(annotate, lines, n, Run(annotate, lines[..n]))
  {
    if n == 0 {
      assert lines[..0] == [];
    } else {
      var k := n - 1;
      RunMatchesReference(annotate, lines, k);
      RunLast(annotate, lines, k);
      match Run(annotate, lines[..k])
      case Crash(out, at) =>
        AgreesAfterCrash(annotate, lines, k, out, at);
      case Done(st, out) =>
        AgreesAfterStep(annotate, lines, k, st, out);
    }
  }

  /** The whole file agrees with the reference: the scan finishes exactly
      when every title line is well formed, with the reference flag and
      output, and otherwise stops at the first malformed title line. */
  lemma ExtractMatchesReference(annotate: bool, lines: seq<string>)
    ensures AgreesWithReference(annotate, lines, |lines|, Run(annotate, lines))
  {
    RunMatchesReference(annotate, lines, |lines|);
    assert lines[..|lines|] == lines;
  }

  /** A block that is never closed runs to the end of the file: the scan
      does not leave it on its own. */
  lemma UnclosedBlockRunsToEnd(annotate: bool, lines: seq<string>, j: nat)
    requires j < |lines| && Classify(annotate, lines[j]) == Opening
    requires forall m :: j < m < |lines| ==> Classify(annotate, lines[m]) != Closing
    ensures forall i :: j < i <= |lines| ==> InsideAt(Kinds(annotate, lines), i)
    ensures Run(annotate, lines).Done? ==> Run(annotate, lines).final.exercise
  {
    var kinds := Kinds(annotate, lines);
    forall i | j < i <= |lines| ensures InsideAt(kinds, i) {
      assert kinds[j] == Opening;
      assert forall m :: j < m < i ==> kinds[m] != Closing;
    }
    ExtractMatchesReference(annotate, lines);
  }

  /** A file with no title line and no opening fence writes nothing and
      ends as it started. */
  lemma {:induction false} QuietFile(annotate: bool, lines: seq<string>)
    requires forall i :: 0 <= i < |lines| ==>
      Classify(annotate, lines[i]) != Title && Classify(annotate, lines[i]) != Opening
    ensures Run(annotate, lines) == Done(Fresh, [])
    decreases |lines|
  {
    if lines != [] {
      var k := |lines| - 1;
      QuietFile(annotate, lines[..k]);
    }
  }

  // ---------------------------------------------------------------------
  // Episode headers
  // ---------------------------------------------------------------------

  /** The number of output chunks that are episode headers. */
  function CountHeaders(out: seq<string>): nat
    decreases |out|
  {
    if out == [] then 0
    else CountHeaders(out[..|out| - 1]) + if StartsWith(out[|out| - 1], EpisodeHeader) then 1 else 0
  }

  /** The number of title lines. */
  function CountTitleLines(lines: seq<string>): nat
    decreases |lines|
  {
    if lines == [] then 0
    else CountTitleLines(lines[..|lines| - 1]) + if IsTitleLine(lines[|lines| - 1]) then 1 else 0
  }

  lemma {:induction false} CountHeadersAppend(a: seq<string>, b: seq<string>)
    ensures CountHeaders(a + b) == CountHeaders(a) + CountHeaders(b)
    decreases |b|
  {
    if b == [] {
      assert a + b == a;
    } else {
      var k := |b| - 1;
      CountHeadersAppend(a, b[..k]);
      assert (a + b)[..|a + b| - 1] == a + b[..k];
    }
  }

  /** A line that does not itself start like an episode header writes
      one episode header if it is a title line and none otherwise. */
  lemma HeadersOfOneLine(annotate: bool, st: Scan, line: string)
    requires !StartsWith(line, EpisodeHeader) && Step(annotate, st, line).Some?
    ensures CountHeaders(Step(annotate, st, line).value.written) == if IsTitleLine(line) then 1 else 0
  {
    var w := Step(annotate, st, line).value.written;
    if IsTitleLine(line) {
      var t := TitleOf(line).value;
      assert (EpisodeHeader + t)[..|EpisodeHeader|] == EpisodeHeader;
      assert w == [] + [EpisodeHeader + t];
    } else if Classify(annotate, line) == Opening && annotate {
      assert !StartsWith(ExerciseHeader, EpisodeHeader) by {
        assert ExerciseHeader[2] != EpisodeHeader[2];
      }
      assert w[..1] == [Newline] && w[..1][..0] == [];
      assert CountHeaders(w[..1]) == 0;
    } else if w != [] {
      assert w == [] + [line];
    }
  }

  /** When no line of the file itself starts like an episode header, the
      output holds one episode header per title line. */
  lemma {:induction false} EpisodeHeaderPerTitleLine(annotate: bool, lines: seq<string>)
    requires forall i :: 0 <= i < |lines| ==> !StartsWith(lines[i], EpisodeHeader)
    ensures Run(annotate, lines).Done? ==> CountHeaders(Run(annotate, lines).out) == CountTitleLines(lines)
    decreases |lines|
  {
    if lines != [] && Run(annotate, lines).Done? {
      var k := |lines| - 1;
      var line := lines[k];
      EpisodeHeaderPerTitleLine(annotate, lines[..k]);
      var sofar := Run(annotate, lines[..k]);
      assert sofar.Done?;
      var e := Step(annotate, sofar.final, line).value;
      HeadersOfOneLine(annotate, sofar.final, line);
      CountHeadersAppend(sofar.out, e.written);
    }
  }

  // ---------------------------------------------------------------------
  // Files are scanned independently
  // ---------------------------------------------------------------------

  /** `r` as it reads after `out` was written by `shift` earlier files. */
  function After(out: seq<string>, shift: nat, r: RunResult): RunResult {
    match r
    case Finished(more) => Finished(out + more)
    case Failed(more, f, l) => Failed(out + more, f + shift, l)
  }

  /** Shifting a run past earlier finished files commutes with adding
      the next file's scan. */
  lemma AfterNextFile(out: seq<string>, shift: nat, sofar: RunResult, scan: Outcome, k: nat)
    ensures NextFile(After(out, shift, sofar), scan, k + shift) == After(out, shift, NextFile(sofar, scan, k))
  {
    match sofar
    case Failed(_, _, _) =>
    case Finished(more) =>
      match scan
      case Done(_, last) =>
        assert out + more + last == out + (more + last);
      case Crash(last, l) =>
        assert out + more + last == out + (more + last);
  }

  /** The run over `before + later` unrolled at its last file. */
  lemma RunFilesSplitLast(annotate: bool, before: seq<seq<string>>, later: seq<seq<string>>)
    requires later != []
    ensures RunFiles(annotate, before + later) ==
      NextFile(RunFiles(annotate, before + later[..|later| - 1]), Run(annotate, later[|later| - 1]), |before| + |later| - 1)
  {
    var k := |later| - 1;
    var files := before + later;
    assert files[..|files| - 1] == before + later[..k];
    assert files[|files| - 1] == later[k];
    RunFilesLast(annotate, files);
  }

  /** The run over the files unrolled at its last file. */
  lemma RunFilesLast(annotate: bool, files: seq<seq<string>>)
    requires files != []
    ensures RunFiles(annotate, files) ==
      NextFile(RunFiles(annotate, files[..|files| - 1]), Run(annotate, files[|files| - 1]), |files| - 1)
  {
  }

  /** Each file's scan starts from `Fresh`: once the earlier files have
      finished, the later files write exactly what they would write on
      their own, so a block left open in one file never leaks into the
      next. */
  lemma {:induction false} FilesAreIndependent(annotate: bool, before: seq<seq<string>>, later: seq<seq<string>>)
    requires RunFiles(annotate, before).Finished?
    ensures RunFiles(annotate, before + later) ==
      After(RunFiles(annotate, before).out, |before|, RunFiles(annotate, later))
    decreases |later|
  {
    var out := RunFiles(annotate, before).out;
    if later == [] {
      assert before + later == before;
      assert out + [] == out;
    } else {
      var k := |later| - 1;
      FilesAreIndependent(annotate, before, later[..k]);
      RunFilesSplitLast(annotate, before, later);
      AfterNextFile(out, |before|, RunFiles(annotate, later[..k]), Run(annotate, later[k]), k);
    }
  }

  // ---------------------------------------------------------------------
  // The two scripts
  // ---------------------------------------------------------------------

  /** The output with every blank-line chunk that is immediately followed
      by an exercise-header chunk removed together with that header. */
  function DropExerciseHeaders(out: seq<string>): seq<string>
    decreases |out|
  {
    var n := |out|;
    if out == [] then []
    else if n >= 2 && out[n - 2] == Newline && out[n - 1] == ExerciseHeader then DropExerciseHeaders(out[..n - 2])
    else DropExerciseHeaders(out[..n - 1]) + [out[n - 1]]
  }

  function WithoutExerciseHeaders(o: Outcome): Outcome {
    match o
    case Done(st, out) => Done(st, DropExerciseHeaders(out))
    case Crash(out, k) => Crash(DropExerciseHeaders(out), k)
  }

  /** Away from opening fences the two scripts take the same step, and it
      writes at most one chunk, never the bare exercise header. */
  lemma NonOpeningStepsAgree(st: Scan, line: string)
    requires Classify(true, line) != Opening && Classify(false, line) != Opening
    requires line != ExerciseHeader
    ensures Step(true, st, line) == Step(false, st, line)
    ensures Step(true, st, line).Some? ==>
      var w := Step(true, st, line).value.written;
      w == [] || (|w| == 1 && w[0] != ExerciseHeader)
  {
    match Step(true, st, line)
    case None =>
    case Some(e) =>
      var w := e.written;
      if w != [] {
        assert |w| == 1;
        if Classify(true, line) == Title {
          assert w[0][2] == ' ' != ExerciseHeader[2];
        }
      }
  }

  /** One line, with no `discussion` fence and not itself the exercise
      header, moves the two scripts' scans alike, up to the headers. */
  lemma VariantsAgreeOnLine(st: Scan, out: seq<string>, line: string, k: nat)
    requires !OpensDiscussion(Strip(line)) && line != ExerciseHeader
    ensures Advance(false, Done(st, DropExerciseHeaders(out)), line, k) ==
      WithoutExerciseHeaders(Advance(true, Done(st, out), line, k))
  {
    if Classify(true, line) == Opening {
      assert OpensChallenge(Strip(line));
      OpeningLineEffect(true, st, line);
      OpeningLineEffect(false, st, line);
      var more := out + [Newline, ExerciseHeader];
      assert more[..|more| - 2] == out;
      assert DropExerciseHeaders(out) + [] == DropExerciseHeaders(out);
    } else {
      assert Classify(false, line) != Opening;
      NonOpeningStepsAgree(st, line);
      match Step(true, st, line)
      case None =>
      case Some(e) =>
        if e.written == [] {
          assert out + [] == out;
        } else {
          var more := out + e.written;
          assert more[..|more| - 1] == out;
        }
    }
  }

  /** On a file with no `discussion` fence (and no line that is exactly the
      exercise header), the basic script's run is the annotated script's
      run with the blank line and header written at each opening removed:
      the same final variables, the same stopping line, the rest of the
      output the same. */
  lemma {:induction false} VariantsAgree(lines: seq<string>)
    requires forall i :: 0 <= i < |lines| ==> !OpensDiscussion(Strip(lines[i]))
    requires forall i :: 0 <= i < |lines| ==> lines[i] != ExerciseHeader
    ensures Run(false, lines) == WithoutExerciseHeaders(Run(true, lines))
    decreases |lines|
  {
    if lines != [] {
      var k := |lines| - 1;
      VariantsAgree(lines[..k]);
      match Run(true, lines[..k])
      case Crash(out, at) =>
      case Done(st, out) =>
        VariantsAgreeOnLine(st, out, lines[k], k);
    }
  }
}
