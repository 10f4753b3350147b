# Exercise extractor, modelled in Dafny

The repository holds two versions of one script. The script reads lesson
files in Markdown and copies the exercise blocks to standard output,
preceded by an episode header for each lesson title.

- `extract_exercises.py` is the annotated script. A block opens on a
  `challenge` fence or a `discussion` fence. Each opening writes a blank
  line and an `### Exercise: ` header.
- `episodes/extract_exercises.py` is the basic script. Only a `challenge`
  fence opens a block, and nothing is written when it opens.

Both scripts loop over the files. Each file's scan starts with an empty
title and outside any block. For each line the scan does one of four
things:

- it writes an episode header for a `title: ` line;
- it enters a block on an opening fence;
- it leaves the block on a closing fence (a bare `:::` or a `solution`
  fence);
- it echoes any other line while inside a block.

The model has four modules:

- `Text` (`text.dfy`): the parts of Python's `str` the scripts use.
  - `strip` uses the full `str.isspace` set.
  - `split(': ')` is proved to be the inverse of `join` and to cut exactly
    where the separator occurs.
- `Patterns` (`patterns.dfy`): the three regular expressions as computable
  predicates on the stripped line. Each predicate is proved equivalent to a
  reading of its pattern over spans of the line.
- `Extractor` (`extractor.dfy`): the scan itself.
  - `Classify` decides which branch of the `if`/`elif`/`else` a line
    takes. `Step` is one pass of the loop body.
  - `Run` folds `Step` over one file's lines. `RunFiles` folds `Run` over
    the files.
  - `ScanLine` is the loop body. `ExtractFile` and `ExtractFiles` are the
    loops, written the way the scripts are. Each method is proved equal to
    its function.
  - One `annotate` flag selects the script: `true` for the annotated one,
    `false` for the basic one.
- `ExtractorProperties` (`properties.dfy`): what the scripts promise.
  - What each kind of line does, and the precedence between branches.
  - The whole scan against an independent reference definition.
  - The count of episode headers.
  - That files are scanned independently.
  - How the two scripts relate.

The output is the sequence of chunks passed to `stdout.write`, in order.

A title line holding `': '` twice makes `_, title = line.split(': ')`
raise. The scan then ends as `Crash` (and the whole run as `Failed`),
carrying the index of that line and the output written before it.

Three details of the code are easy to misread:

- **Colons in a fence.** A fence needs at least three colons: every pattern
  starts with `:::[:]*`.
- **Trimming.** `strip()` trims both ends of a line. So an indented fence
  or title line still counts, and a line's leading white space does not
  stop a match.
- **Title failures.** A title line fails only when it holds `': '` two or
  more times (`TitleLineRaises`). It never fails for having too few: it
  always holds the separator right after `title` in the stripped line
  (`TitleLineHasSeparator`).

## Model

| member | source | states |
|---|---|---|
| Extractor.ScanLine | extract_exercises.py:15-28 | one pass of the loop body (title split, opening, closing, echo) has exactly the effect `Step` gives: the new `title` and `exercise` and the chunks written, or a failure when the title unpacking raises |
| Extractor.ExtractFile | extract_exercises.py:11-28 | the loop over one file's lines, starting from an empty title outside any block, returns the fold `Run`: the final variables and the output, or the index of the title line that raised with the output before it |
| Extractor.ExtractFiles | extract_exercises.py:10-28 | the loop over the files returns the fold `RunFiles`: the output accumulates across files, and the first failing file ends the run with its index and line |
| Extractor.RunLast | extract_exercises.py:14 | the scan of `i + 1` lines is the scan of `i` lines followed by line `i` |
| Extractor.CrashPersists | extract_exercises.py:16 | once a title line has raised, later lines change nothing: the run stops there |
| Extractor.FailurePersists | extract_exercises.py:10 | once a file has raised, later files change nothing |
| Text.StripCuts | extract_exercises.py:15 | `strip()` yields the piece of the line at the returned index: everything cut off before and after it is white space, and the piece neither starts nor ends with white space |
| Text.TrimStartWhereCuts | extract_exercises.py:15 | trimming the front keeps a suffix, drops only white space, and stops at the first character that is not white space |
| Text.TrimEndWhereCuts | extract_exercises.py:15 | trimming the end keeps a prefix, drops only white space, and stops at the last character that is not white space |
| Text.SplitJoin | extract_exercises.py:16 | joining the pieces of `split(': ')` with `': '` gives back the line |
| Text.SplitPiecesAvoidSeparator | extract_exercises.py:16 | no piece of `split(': ')` contains `': '` |
| Text.SplitCutsIffContains | extract_exercises.py:16 | `split` yields two or more pieces exactly when the separator occurs in the line |
| Patterns.Repeat | extract_exercises.py:19 | `n` copies of a character, as in `[:]*` and `[ ]*` |
| Patterns.EndsInFenceIff | extract_exercises.py:19 | the computable fence test holds exactly when the text ends in `:::` plus further colons plus spaces |
| Patterns.FencedWordAtEndIff | extract_exercises.py:19 | the computable `challenge`/`solution` test holds exactly when `re.search(":::[:]*[ ]*word$", s)` matches |
| Patterns.FencedWordAtEndMatches | extract_exercises.py:19 | the computable anchored test implies a regex match |
| Patterns.AnchoredMatchEndsInWord | extract_exercises.py:25 | an anchored regex match implies the computable test |
| Patterns.FencedWordInsideIff | extract_exercises.py:19 | the computable `discussion` test holds exactly when the unanchored `re.search(":::[:]*[ ]*discussion", s)` matches |
| Patterns.FencedWordInsideMatches | extract_exercises.py:19 | the computable unanchored test implies a regex match |
| Patterns.MatchFindsFencedWord | extract_exercises.py:19 | an unanchored regex match implies the computable test |
| ExtractorProperties.TitleLineHasSeparator | extract_exercises.py:15-16 | a line whose stripped form starts with `title: ` always contains `': '`, so `split` never gives fewer than two pieces |
| ExtractorProperties.OnlySeparatorBetween | extract_exercises.py:16 | in `head + ': ' + rest` with no separator in `head` or `rest`, the only separator is the one between them |
| ExtractorProperties.TitleLineWrites | extract_exercises.py:15-17 | a title line with a single separator writes `## Episode: ` plus the text after it (untrimmed, with its newline), records that text as the title, and leaves `exercise` unchanged, in both scripts |
| ExtractorProperties.TitleLineRaises | extract_exercises.py:16 | a title line raises exactly when it holds two non-overlapping `': '`, never for having too few |
| ExtractorProperties.SplitInTwoIffOneSeparator | episodes/extract_exercises.py:13 | a line that splits at all splits into exactly two pieces exactly when it does not hold the separator twice |
| ExtractorProperties.OpeningLineEffect | extract_exercises.py:19-22 | an opening fence sets `exercise` whether or not a block is open, even when it also looks like a closing fence; the annotated script writes `"\n"` then `"### Exercise: "`, the basic one nothing |
| ExtractorProperties.ClosingLineEffect | extract_exercises.py:25-26 | a closing fence clears `exercise` and writes nothing; outside a block it changes nothing |
| ExtractorProperties.PlainLineEffect | extract_exercises.py:27-28 | any other line is written unchanged exactly when inside a block, and never changes the variables |
| ExtractorProperties.DiscussionOnlyOpensWhenAnnotated | episodes/extract_exercises.py:16-23 | a `discussion` fence opens a block in the annotated script; in the basic one it is an ordinary line, echoed inside a block and dropped outside |
| ExtractorProperties.DiscussionFenceBothWays | extract_exercises.py:19-25 | precedence: a `discussion` fence ending in `:::` opens a block in the annotated script and closes one in the basic script |
| ExtractorProperties.DiscussionFenceOpens | extract_exercises.py:19 | `::: discussion :::` matches the `discussion` pattern |
| ExtractorProperties.DiscussionFenceIsNoChallenge | episodes/extract_exercises.py:16-20 | `::: discussion :::` does not end in `challenge` but does end in `:::` |
| ExtractorProperties.SolutionFenceCloses | episodes/extract_exercises.py:20-21 | a line stripping to `::: solution` takes the closing branch in both scripts |
| ExtractorProperties.SolutionFenceDoesNotOpen | extract_exercises.py:19 | `::: solution` matches neither opening pattern |
| ExtractorProperties.SolutionFenceEndsInWord | extract_exercises.py:25 | `::: solution` matches `:::[:]*[ ]*solution$` |
| ExtractorProperties.InsideAtNext | extract_exercises.py:19-26 | the reference "inside a block" reading becomes true after an opening fence, false after a closing fence, and is unchanged by other lines |
| ExtractorProperties.AgreesAfterStep | extract_exercises.py:15-28 | feeding one more line to a finished scan keeps it equal to the reference |
| ExtractorProperties.AgreesAfterCrash | extract_exercises.py:16 | a scan that raised stays equal to the reference |
| ExtractorProperties.RunMatchesReference | extract_exercises.py:14-28 | the scan of any prefix finishes exactly when its title lines are well formed; `exercise` is then true exactly when an opening fence came after the last closing fence, and the output is each line's reference output in order; otherwise it stops at the first malformed title line with the output of the lines before it |
| ExtractorProperties.ExtractMatchesReference | extract_exercises.py:14-28 | the statement of `RunMatchesReference` for a whole file: the scan finishes exactly when every title line is well formed, with the reference `exercise` flag and output; otherwise it stops at the first title line whose split fails, all earlier title lines well formed, with the output of the lines before it |
| ExtractorProperties.UnclosedBlockRunsToEnd | extract_exercises.py:20-28 | a block that is never closed stays open to the end of the file: the reference reading is inside at every later line, and a scan that finishes ends with `exercise` set |
| ExtractorProperties.QuietFile | episodes/extract_exercises.py:8-23 | a file with no title line and no opening fence writes nothing and ends as it started |
| ExtractorProperties.HeadersOfOneLine | extract_exercises.py:15-28 | a line that does not itself start like a header writes one episode header if it is a title line, none otherwise |
| ExtractorProperties.EpisodeHeaderPerTitleLine | extract_exercises.py:14-17 | when no line starts like an episode header, a finished scan writes exactly one episode header per title line |
| ExtractorProperties.FilesAreIndependent | extract_exercises.py:10-12 | after files that finished, later files write exactly what they would write on their own, and a failure is reported at its shifted index: state never leaks from one file into the next |
| ExtractorProperties.NonOpeningStepsAgree | episodes/extract_exercises.py:12-23 | away from opening fences both scripts take the same step, which writes at most one chunk and never the bare exercise header |
| ExtractorProperties.VariantsAgreeOnLine | episodes/extract_exercises.py:16-17 | one line without a `discussion` fence moves both scripts alike, up to the removed header pair |
| ExtractorProperties.VariantsAgree | episodes/extract_exercises.py:16-17 | on a file with no `discussion` fence and no line equal to `### Exercise: `, the basic script's run is the annotated script's run with each `"\n"` + `"### Exercise: "` pair removed: the same final variables, the same failing line, the rest of the output the same |

## Left out

- Command line and files: `argv[:]`, `open`, the `with` block and `readlines`. Each file is given as its sequence of lines, line terminators included. `argv[:]` also contains `argv[0]`, so the real scripts scan themselves first; the model takes whatever file list it is given.
- Standard output is not modelled as a stream. The output is the sequence of chunks passed to `write`. `ScanLine` returns the two chunks an opening writes as one list, in the order the script writes them.
- Python's exception mechanism is not modelled. The `ValueError` of the title unpacking is the `Crash`/`Failed` outcome, which keeps the output written before it.
- Python's regular-expression engine is not modelled. Each pattern is a string predicate. `Patterns` proves each predicate equal to a span-based reading of the pattern on a stripped line, where `$` can only match at the end.
- Text encoding is not modelled. Lines are sequences of Unicode characters, as Python's text-mode `open` gives them.
- ExtractorProperties.VariantsAgree: requires that no line equals `### Exercise: `. Without it the statement fails on chunks: a file that echoes a blank line and then a line that is exactly `### Exercise: ` makes the annotated output contain a pair that does not come from an opening.
- ExtractorProperties.EpisodeHeaderPerTitleLine: requires that no line starts with `## Episode: `. An echoed line of that form would count as a header.
