/** The exercise extractor: a scan over the lines of each lesson file with
    two variables, the current episode title and whether the scan is inside
    an exercise block, writing episode headers and the lines of exercise
    blocks to the output.

    `annotate` selects the script: `true` is the top-level script, which
    also opens a block on a `discussion` fence and writes a blank line and
    an `### Exercise: ` header when a block opens; `false` is the script in
    the episodes folder, which opens only on `challenge` and writes nothing
    when a block opens.

    The output stream is the sequence of chunks passed to `write`, in order.
    A title line that holds more than one `': '` makes the two-name
    unpacking raise; that ends the whole run, and what was written before
    it stays written. */
module Extractor {
  import opened Text
  import opened Patterns

  const TitleKey: string := "title: "
  const Separator: string := ": "
  const EpisodeHeader: string := "## Episode: "
  const ExerciseHeader: string := "### Exercise: "
  const Newline: string := "\n"

  datatype Option<T> = None | Some(value: T)

  /** The variables of one file's scan. */
  datatype Scan = Scan(title: string, exercise: bool)

  /** Each file's scan starts with an empty title, outside any block. */
  const Fresh: Scan := Scan("", false)

  /** Which branch of the per-line `if`/`elif`/`else` a line takes. */
  datatype Kind = Title | Opening | Closing | Plain

  /** `line.strip().startswith('title: ')` */
  predicate IsTitleLine(line: string) {
    StartsWith(Strip(line), TitleKey)
  }

  /** The opening test of the `elif`, on the stripped line. */
  predicate Opens(annotate: bool, s: string) {
    OpensChallenge(s) || (annotate && OpensDiscussion(s))
  }

  function Classify(annotate: bool, line: string): Kind {
    var s := Strip(line);
    if StartsWith(s, TitleKey) then Title
    else if Opens(annotate, s) then Opening
    else if ClosesBlock(s) then Closing
    else Plain
  }

  /** `_, title = line.split(': ')`: the second piece when there are exactly
      two, and no value when the unpacking fails. */
  function TitleOf(line: string): Option<string> {
    var parts := Split(line, Separator);
    if |parts| == 2 then Some(parts[1]) else None
  }

  /** What one line does: the new scan variables and the chunks written. */
  datatype Effect = Effect(next: Scan, written: seq<string>)

  /** One iteration of the per-line loop; `None` when the title unpacking
      fails. */
  function Step(annotate: bool, st: Scan, line: string): Option<Effect> {
    match Classify(annotate, line)
    case Title =>
      (match TitleOf(line)
       case None => None
       case Some(t) => Some(Effect(st.(title := t), [EpisodeHeader + t])))
    case Opening =>
      Some(Effect(st.(exercise := true), if annotate then [Newline, ExerciseHeader] else []))
    case Closing =>
      Some(Effect(st.(exercise := false), []))
    case Plain =>
      Some(Effect(st, if st.exercise then [line] else []))
  }

  /** How one file's scan ends: normally, with its final variables and its
      output, or at the index of the title line that raised, with the output
      written before it. */
  datatype Outcome = Done(final: Scan, out: seq<string>) | Crash(out: seq<string>, line: nat)

  /** Feeds line number `k` to a scan that has got this far. */
  function Advance(annotate: bool, sofar: Outcome, line: string, k: nat): Outcome {
    match sofar
    case Crash(out, at) => Crash(out, at)
    case Done(st, out) =>
      match Step(annotate, st, line)
      case None => Crash(out, k)
      case Some(e) => Done(e.next, out + e.written)
  }

  /** The scan of one file from `Fresh`, as a fold over its lines. */
  function Run(annotate: bool, lines: seq<string>): Outcome
    decreases |lines|
  {
    if lines == [] then Done(Fresh, [])
    else
      var k := |lines| - 1;
      Advance(annotate, Run(annotate, lines[..k]), lines[k], k)
  }

  /** How the whole run over the files ends. */
  datatype RunResult = Finished(out: seq<string>) | Failed(out: seq<string>, file: nat, line: nat)

  /** Adds the scan of file number `k` to a run that has got this far. */
  function NextFile(sofar: RunResult, scan: Outcome, k: nat): RunResult {
    match sofar
    case Failed(out, f, l) => Failed(out, f, l)
    case Finished(out) =>
      match scan
      case Done(_, more) => Finished(out + more)
      case Crash(more, l) => Failed(out + more, k, l)
  }

  /** The run over all files in argument order, each scanned from `Fresh`,
      the output accumulating across files. */
  function RunFiles(annotate: bool, files: seq<seq<string>>): RunResult
    decreases |files|
  {
    if files == [] then Finished([])
    else
      var k := |files| - 1;
      NextFile(RunFiles(annotate, files[..k]), Run(annotate, files[k]), k)
  }

  /** The fold unrolled at its last line. */
  lemma RunLast(annotate: bool, lines: seq<string>, i: nat)
    requires i < |lines|
    ensures Run(annotate, lines[..i + 1]) == Advance(annotate, Run(annotate, lines[..i]), lines[i], i)
  {
    assert lines[..i + 1][..i] == lines[..i];
  }

  /** Once a scan has raised, later lines change nothing. */
  lemma {:induction false} CrashPersists(annotate: bool, lines: seq<string>, n: nat)
    requires n <= |lines| && Run(annotate, lines[..n]).Crash?
    ensures Run(annotate, lines) == Run(annotate, lines[..n])
    decreases |lines| - n
  {
    if n < |lines| {
      assert lines[..n + 1][..n] == lines[..n];
      CrashPersists(annotate, lines, n + 1);
    } else {
      assert lines[..n] == lines;
    }
  }

  /** Once a file has raised, later files change nothing. */
  lemma {:induction false} FailurePersists(annotate: bool, files: seq<seq<string>>, n: nat)
    requires n <= |files| && RunFiles(annotate, files[..n]).Failed?
    ensures RunFiles(annotate, files) == RunFiles(annotate, files[..n])
    decreases |files| - n
  {
    if n < |files| {
      assert files[..n + 1][..n] == files[..n];
      FailurePersists(annotate, files, n + 1);
    } else {
      assert files[..n] == files;
    }
  }

  /** One pass of the per-line loop body: the `if`/`elif`/`else` on the
      stripped line. Reports whether the line went through (`false` when
      the title unpacking raises), the new scan variables and the chunks
      the line writes, in the order the script writes them. */
  method ScanLine(annotate: bool, title: string, exercise: bool, line: string)
    returns (ok: bool, newTitle: string, nowExercise: bool, written: seq<string>)
    ensures Step(annotate, Scan(title, exercise), line) ==
      if ok then Some(Effect(Scan(newTitle, nowExercise), written)) else None
  {
    newTitle, nowExercise, written := title, exercise, [];
    ok := true;
    var s := Strip(line);
    if StartsWith(s, TitleKey) {
      var parts := Split(line, Separator);
      if |parts| != 2 {
        ok := false;
        return;
      }
      newTitle := parts[1];
      written := [EpisodeHeader + newTitle];
    } else if OpensChallenge(s) || (annotate && OpensDiscussion(s)) {
      nowExercise := true;
      if annotate {
        written := [Newline, ExerciseHeader];
      }
    } else if ClosesBlock(s) {
      nowExercise := false;
    } else if exercise {
      written := [line];
    }
  }

  /** The per-line loop of one file (the body of the `with` block): the
      variables start fresh, and each line's chunks are appended to the
      output until a title line raises. */
  method ExtractFile(annotate: bool, lines: seq<string>) returns (result: Outcome)
    ensures result == Run(annotate, lines)
  {
    var title := "";
    var exercise := false;
    var out: seq<string> := [];
    var i := 0;
    assert lines[..0] == [];
    while i < |lines|
      invariant 0 <= i <= |lines|
      invariant Run(annotate, lines[..i]) == Done(Scan(title, exercise), out)
    {
      RunLast(annotate, lines, i);
      var ok, written;
      ok, title, exercise, written := ScanLine(annotate, title, exercise, lines[i]);
      if !ok {
        result := Crash(out, i);
        CrashPersists(annotate, lines, i + 1);
        return;
      }
      out := out + written;
      i := i + 1;
    }
    assert lines[..i] == lines;
    result := Done(Scan(title, exercise), out);
  }

  /** The loop over the files named on the command line. */
  method ExtractFiles(annotate: bool, files: seq<seq<string>>) returns (result: RunResult)
    ensures result == RunFiles(annotate, files)
  {
    var out: seq<string> := [];
    var f := 0;
    while f < |files|
      invariant 0 <= f <= |files|
      invariant RunFiles(annotate, files[..f]) == Finished(out)
    {
      assert files[..f + 1][..f] == files[..f];
      var scan := ExtractFile(annotate, files[f]);
      match scan
      case Crash(more, l) =>
        result := Failed(out + more, f, l);
        FailurePersists(annotate, files, f + 1);
        return;
      case Done(_, more) =>
        out := out + more;
      f := f + 1;
    }
    assert files[..f] == files;
    result := Finished(out);
  }
}
