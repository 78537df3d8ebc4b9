# vtrim: removing the silent parts of a video

`vtrim.py` cuts the silences out of a video in four steps:

1. It runs ffmpeg's `silencedetect` filter and scans the filter's log for
   `silence_end: <t>` and `silence_start: <t>` tokens. Each `silence_end`
   opens a non-silent span and the next `silence_start` closes it.
2. Each span of at least 0.01 seconds becomes a `VidSegment`. A class-level
   counter numbers the segments, and the number names the artifact
   `vtemp/NNNNN.mkv`.
3. It extracts the segments in parallel.
4. It writes `segmentlist.txt`, a concat list with one line per file of
   `vtemp` in sorted order, and merges the files.

Before any of this, the script checks the input, the output, the list file
and the temporary directory.

The model covers:

- the scanner, as a state machine with its properties (module `SilenceLog`),
  and as the loop that drives the counter (`VideoSegments.GetVideoSegment`);
- the regular-expression search it uses (`Matcher`);
- the zero-padded names and their order (`Naming`);
- the segment record and its extraction command (`VideoSegments`);
- the concat list (`Manifest`);
- the startup guard (`Startup`).

The Python string operations these rely on are modelled in `Text`:

- code-point order;
- `sorted`;
- `'\n'.join`, and `str.split` as its inverse.

A log can end inside a non-silent span: a `silence_end` with no closing
`silence_start`. One might expect a final open-ended segment there, but the
code emits nothing. Whether that is intended is an open question. The model
drops the span, as the code does, and states this as
`SilenceLog.TrailingLinesWithoutStartIgnored`.

The output and `segmentlist.txt` checks use `not is_file()`. So a
*directory* of that name passes the guard, and `Startup.Facts` records only
whether a regular file exists.

## Model

| member | source | states |
|---|---|---|
| Text.LexLessIrreflexive | vtrim.py:85 | no string sorts strictly before itself in the code-point order `sorted` uses |
| Text.LexLessAsymmetric | vtrim.py:85 | when a sorts before b, b does not sort before a |
| Text.LexLessTransitive | vtrim.py:85 | the order is transitive |
| Text.LexLessTotal | vtrim.py:85 | of two different strings, one sorts before the other |
| Text.LexLessCommonPrefix | vtrim.py:85 | a shared leading part, such as the directory `vtemp/`, does not change the order of two strings |
| Text.LexLessCommonSuffix | vtrim.py:85 | behind two strings of equal length, a shared trailing part, such as `.mkv`, does not change their order |
| Text.Sort | vtrim.py:85 | `sorted` returns a list in non-decreasing order with exactly the same elements and multiplicities |
| Text.SortedUnique | vtrim.py:85 | two sorted lists with the same elements are equal, so any correct sort gives this result |
| Text.SortIgnoresOrder | vtrim.py:85 | the sorted list depends only on the multiset of its argument |
| Text.SplitJoin | vtrim.py:85 | given at least one piece and no separator inside any piece, splitting the `'\n'.join` text at the separator gives the pieces back |
| Text.JoinEmptyAmbiguous | vtrim.py:85 | joining no entries and joining one empty entry both give the empty text |
| Matcher.RunEnd | vtrim.py:56-57 | the `\S+` run starting at j ends between j and the end of the line |
| Matcher.RunEndMaximal | vtrim.py:56-57 | the run holds no whitespace and stops at whitespace or at the end of the line |
| Matcher.SearchFrom | vtrim.py:60 | a reported match lies at or after the start position and leaves room for the literal and one more character |
| Matcher.SearchFromLeftmost | vtrim.py:60 | the search reports the leftmost match position, or none exactly when no position matches |
| Matcher.FindTokenLeftmost | vtrim.py:56-64 | `search` finds nothing exactly when `key\S` matches nowhere; otherwise the token kept equals the maximal non-empty non-whitespace run after the leftmost literal |
| Matcher.FindTokenTagged | vtrim.py:56-64 | a line that is the literal followed by a whitespace-free token yields exactly that token |
| SilenceLog.ScanAppend | vtrim.py:58-69 | scanning two blocks of lines is scanning the first, then the second from the pending end the first leaves (unless the first stopped on a bad number) |
| SilenceLog.LinesWithoutEndIgnoredWhenIdle | vtrim.py:59-63 | with no end pending, lines without a `silence_end` match change nothing, even if they hold a `silence_start` |
| SilenceLog.NoEndNoSegments | vtrim.py:58-60 | empty detector output, or output with no `silence_end`, yields no segment and no error |
| SilenceLog.PendingEndKept | vtrim.py:59-62 | while an end is pending, lines without `silence_start` change nothing, so a later `silence_end` does not replace it |
| SilenceLog.NoStartNoSegments | vtrim.py:61-63 | without any `silence_start` match, nothing is emitted and nothing fails, whatever is pending |
| SilenceLog.TrailingLinesWithoutStartIgnored | vtrim.py:58-63 | adding lines with no `silence_start` after a log does not change its result, so a trailing unmatched `silence_end` yields no segment |
| SilenceLog.AtMostOnePairPerStart | vtrim.py:63-69 | there are at most as many pairs as lines with a `silence_start` (the reset itself is `ClosingLineResets`) |
| SilenceLog.StepFacts | vtrim.py:59-68 | on one line, a pending end is replaced only when none was pending, and an emitted pair is long enough, is closed by the line's `silence_start`, and starts at the pending or newly found end token |
| SilenceLog.ClosingLineResets | vtrim.py:59-69 | a line whose `silence_start` meets a captured end (pending, or found on the same line) resolves exactly that pair, and unless `float` fails both captures are cleared, whether the pair was kept or dropped |
| SilenceLog.ScanAfterClosingLine | vtrim.py:58-69 | after such a line, the rest of the log is scanned from the idle state, behind the line's output |
| SilenceLog.EmittedPairsJustified | vtrim.py:58-67 | every pair of a scan is long enough and is closed on some line, with its start token either pending at the outset or found as a `silence_end` on the same or an earlier line |
| SilenceLog.EmissionRule | vtrim.py:58-67 | every emitted pair starts at a `silence_end` token taken verbatim from line i, is closed by the `silence_start` of line j >= i with duration start minus end, and lasts at least 0.01 |
| SilenceLog.EndLineHasNoStart | vtrim.py:56-57 | a `silence_end: <tok>` line holds no `silence_start` match |
| SilenceLog.StartLineHasNoEnd | vtrim.py:56-57 | a `silence_start: <tok>` line holds no `silence_end` match |
| SilenceLog.OneSpanOnLines | vtrim.py:58-69 | from the idle state, any line holding the `silence_end` token e and no `silence_start`, followed by any line holding the `silence_start` token s, emits the span exactly when it is long enough, then returns to idle |
| SilenceLog.OneSpanStep | vtrim.py:58-69 | from the idle state, an end line followed by a start line emits that span exactly when it is long enough, then returns to idle |
| SilenceLog.RenderedLogScan | vtrim.py:58-69 | a log of alternating end and start lines yields exactly the spans of at least 0.01 seconds, in log order, with their start tokens as written |
| SilenceLog.LeadingStartIgnored | vtrim.py:59-63 | a `silence_start` before the first `silence_end` (silence at the very beginning) is ignored |
| SilenceLog.ThresholdOnOneSpan | vtrim.py:66-67 | one span is kept exactly when its duration is at least 0.01, so a duration of exactly 0.01 is kept |
| SilenceLog.WorkedExample | vtrim.py:64-67 | a 3 s span is kept, a 5 ms span is dropped and the span from 0.01 to 0.02 (exactly 0.01 s, also in double precision) is kept, with the raw start tokens |
| Naming.Digits | vtrim.py:38 | the decimal form of an ordinal is a non-empty string of digits |
| Naming.ValueOfDigits | vtrim.py:38 | the decimal form denotes the ordinal |
| Naming.ValueOfLeadingZeros | vtrim.py:38 | zero padding does not change the value denoted |
| Naming.FileNameRoundTrip | vtrim.py:38 | the name `{id:05d}.mkv` reads back to its ordinal |
| Naming.FileNameInjective | vtrim.py:38 | different ordinals give different names |
| Naming.DigitsLength | vtrim.py:38 | an ordinal below 10^k has at most k digits |
| Naming.PaddedDigits | vtrim.py:38 | up to 99999, the padded form is exactly five digits denoting the ordinal |
| Naming.DigitOrder | vtrim.py:38 | for digit strings of equal length, code-point order is numeric order and equality is equality of values |
| Naming.FileNameOrder | vtrim.py:38 | for ordinals up to 99999, one name sorts before another exactly when its ordinal is smaller |
| Naming.FileNameShape | vtrim.py:38 | up to 99999, a name is five digits followed by `.mkv` |
| Naming.OutPathOrder | vtrim.py:38 | the same order holds for the full paths inside `vtemp` |
| Naming.OrderBreaksBeyondFiveDigits | vtrim.py:38 | name 100000 sorts before name 99999, so the order holds only within five digits |
| VideoSegments.SplitCommandRoundTrip | vtrim.py:39 | every extraction command has the fixed 19-element shape, with input, start, duration and output at positions 5, 7, 9 and 18 |
| VideoSegments.SplitCommandDecoded | vtrim.py:39 | only lists of that shape are recognised: each equals the command built from its four arguments |
| VideoSegments.SegmentCounter.constructor | vtrim.py:33 | the counter starts at 0 |
| VideoSegments.SegmentCounter.NewSegment | vtrim.py:34-38 | creating a segment raises the counter by one and names the artifact after the new value, keeping the raw start token and the duration |
| VideoSegments.Segments | vtrim.py:33-38 | one segment per kept pair |
| VideoSegments.SegmentsNamed | vtrim.py:33-38 | segment k carries pair k's start token and duration and is named after ordinal base + k + 1, so the ordinals are consecutive in log order |
| VideoSegments.SegmentPathsSorted | vtrim.py:38 | while the counter stays within 99999, the segments' paths are distinct and already in sorted order |
| VideoSegments.ReadLine | vtrim.py:59-69 | one loop pass computes the line's step of the scanner: end captured only when none is pending, start searched while one is, `float` of start then of end, threshold and reset |
| VideoSegments.GetVideoSegment | vtrim.py:53-69 | the generator yields exactly the scanner's pairs, in order, as segments numbered on from the counter; the counter advances by the number yielded; a token `float` rejects is reported |
| Manifest.ListEntryShape | vtrim.py:74-81 | an entry is `file '<resolved path>'` when the prober accepts the file and empty otherwise, and holds a line break only if the resolved path does |
| Manifest.SegmentListLines | vtrim.py:84-86 | for a non-empty directory whose resolved paths hold no line break, the list has one line per file, in sorted order, and a rejected file leaves a blank line |
| Manifest.SegmentListIgnoresListingOrder | vtrim.py:85 | the list does not depend on the order in which `glob` returns the files |
| Manifest.EmptyListAmbiguous | vtrim.py:85 | an empty directory and a directory holding one rejected file give the same empty list |
| Manifest.SegmentListOfSegments | vtrim.py:85 | when `vtemp` holds exactly the segments' artifacts and the counter stays within 99999, the list names them in creation order, which is log order |
| Startup.Start | vtrim.py:15-28 | the run goes on exactly when the input is a file, neither the output nor `segmentlist.txt` is a file, and `vtemp` is absent, empty or non-empty with `--ignore-temp`; `vtemp` is created exactly when absent; the error reported is the first guard that fails |
| Startup.IgnoreTempOnlyRelaxes | vtrim.py:25-26 | `--ignore-temp` never stops a run, and the only run it lets through is one with a non-empty `vtemp` |

## Left out

- External tools are not modelled, only what they return: `silencedetect`, the segment extraction, `ffprobe` and the concat merge (vtrim.py:42-50, 77-80, 88-91). The detector's output is the input `lines`, and ffprobe's verdict is the `Prober` parameter.
- `VidSegment.start`, `callFFmpeg` and the `multiprocessing.Pool` extraction (vtrim.py:41-44, 71-72, 94-95) are not modelled. They run external commands concurrently, and segment names are fixed before any of them runs.
- argparse (vtrim.py:7-13) is not modelled. Its results appear only as `Facts.ignoreTemp` and as the input path of the split command.
- The threshold and gap arguments and the detector command (vtrim.py:48) are not modelled, since they only configure the external tool.
- Filesystem operations (`is_file`, `is_dir`, `iterdir`, `mkdir`, `glob`, `resolve`, `write_text`) are abstracted:
  - their results are inputs (`Startup.Facts`, the listing, the `Resolver`);
  - the written text is the result of `Manifest.SegmentList`;
  - `mkdir` failing for any reason other than an existing non-directory (permissions, races) is not modelled.
- `float` is an abstract `NumberParser` and durations are exact reals. This leaves out IEEE rounding, NaN and infinity, and the `{:.4f}` formatting of the duration (vtrim.py:65, 67). `VidSegment.SplitCmd` takes the formatted duration text as a parameter.
- SilenceLog.ThresholdOnOneSpan: the 0.01 boundary is stated over exact reals. Python subtracts doubles, so a span whose exact length is 0.01 can come out just below it and be dropped. For example, `float("12.51") - float("12.50")` is 0.009999999999999787. The model keeps such a span.
- `VideoSegments.GetVideoSegment` returns all segments at once, not lazily. A `float` failure is reported as the rejected token, where the generator raises `ValueError`.
- `str.splitlines` (vtrim.py:58) is not modelled. The log arrives already split into lines.
- The ASCII decoding (vtrim.py:50) is not modelled either, so whitespace is ASCII `\s`.
- `sorted` on `Path` objects compares their parts. Since every file lies in the same directory, this is modelled as code-point order on the path text.
- A failing `assert` stops the script, and the model treats it that way. Running under `python -O`, which disables those asserts, is not modelled.
- Printing (vtrim.py:72, 97) is not modelled.
