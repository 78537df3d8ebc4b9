/** The meaning of `getVideoSegment` (vtrim.py:53-69) as a state machine over
    the lines of the silence detector's log.

    The only state that survives from one line to the next is the pending
    `silence_end` token: `silence_start` is searched for afresh on every line
    while an end is pending and is reset together with it. A pending end is
    the START of a non-silent span, and the `silence_start` that follows is
    its END. */
module SilenceLog {
  import opened Wrappers
  import opened Text
  import opened Matcher

  const EndKey: string := "silence_end: "
  const StartKey: string := "silence_start: "

  /** Shorter spans are discarded; a span of exactly this length is kept. */
  const MinDuration: real := 0.01

  /** Python's `float(token)`: a number, or None where `float` raises ValueError. */
  type NumberParser = string -> Option<real>

  /** A kept span: its start offset as the raw log token, and its duration. */
  datatype Pair = Pair(ss: string, t: real)

  /** Emitting `a` and then `b` is emitting `a + b`. */
  lemma PrependTwice(a: seq<Pair>, b: seq<Pair>, s: Scan)
    ensures Prepend(a, Prepend(b, s)) == Prepend(a + b, s)
  {
    assert a + (b + s.pairs) == (a + b) + s.pairs;
  }

  /** What one line does: the next pending end and the pairs emitted, or a
      token that `float` cannot read, which ends the scan. */
  datatype Step = Stuck(badToken: string) | Moved(next: Option<string>, out: seq<Pair>)

  /** The pairs emitted, in order, and the token that stopped the scan, if any. */
  datatype Scan = Scan(pairs: seq<Pair>, failure: Option<string>)

  function Prepend(ps: seq<Pair>, s: Scan): Scan {
    Scan(ps + s.pairs, s.failure)
  }

  /** The `silence_start` token s closes the pending end e: `float(s)` is
      evaluated first, then `float(e)`; the pair is kept when long enough. */
  function Resolve(e: string, s: string, parse: NumberParser): Step {
    match parse(s)
    case None => Stuck(s)
    case Some(vs) =>
      match parse(e)
      case None => Stuck(e)
      case Some(ve) =>
        var t := vs - ve;
        Moved(None, if t >= MinDuration then [Pair(e, t)] else [])
  }

  /** The first `if` of the loop body: capture an end only when none is pending. */
  function CaptureEnd(pending: Option<string>, line: string): Option<string> {
    if pending.None? then FindToken(line, EndKey) else pending
  }

  function StepLine(pending: Option<string>, line: string, parse: NumberParser): Step {
    match CaptureEnd(pending, line)
    case None => Moved(None, [])
    case Some(e) =>
      match FindToken(line, StartKey)
      case None => Moved(Some(e), [])
      case Some(s) => Resolve(e, s, parse)
  }

  function ScanFrom(lines: seq<string>, pending: Option<string>, parse: NumberParser): Scan
    decreases |lines|
  {
    if lines == [] then Scan([], None)
    else
      match StepLine(pending, lines[0], parse)
      case Stuck(tok) => Scan([], Some(tok))
      case Moved(next, out) => Prepend(out, ScanFrom(lines[1..], next, parse))
  }

  /** The pending end after all lines, when no token stopped the scan. */
  function FinalPending(lines: seq<string>, pending: Option<string>, parse: NumberParser): Option<string>
    decreases |lines|
  {
    if lines == [] then pending
    else
      match StepLine(pending, lines[0], parse)
      case Stuck(_) => pending
      case Moved(next, _) => FinalPending(lines[1..], next, parse)
  }

  /** The whole scan of a log, starting with nothing pending. */
  function ScanLog(lines: seq<string>, parse: NumberParser): Scan {
    ScanFrom(lines, None, parse)
  }

  /** How the scan resumes at line i, after the pairs `done` of the lines
      before it: that line's step, then the lines after it. A line emits at
      most one pair. */
  lemma ScanResume(lines: seq<string>, i: nat, pending: Option<string>, done: seq<Pair>, step: Step, parse: NumberParser)
    requires i < |lines| && step == StepLine(pending, lines[i], parse)
    ensures step.Stuck? ==>
      Prepend(done, ScanFrom(lines[i..], pending, parse)) == Scan(done, Some(step.badToken))
    ensures step.Moved? && step.out == [] ==>
      Prepend(done, ScanFrom(lines[i..], pending, parse)) == Prepend(done, ScanFrom(lines[i + 1..], step.next, parse))
    ensures step.Moved? && step.out != [] ==>
      && step.out == [step.out[0]]
      && Prepend(done, ScanFrom(lines[i..], pending, parse))
           == Prepend(done + [step.out[0]], ScanFrom(lines[i + 1..], step.next, parse))
  {
    assert lines[i..][0] == lines[i] && lines[i..][1..] == lines[i + 1..];
    if step.Stuck? {
      assert done + [] == done;
    } else {
      PrependTwice(done, step.out, ScanFrom(lines[i + 1..], step.next, parse));
      if step.out == [] {
        assert done + step.out == done;
      }
    }
  }

  predicate HasEnd(line: string) {
    FindToken(line, EndKey).Some?
  }

  predicate HasStart(line: string) {
    FindToken(line, StartKey).Some?
  }

  // ---------------------------------------------------------------------------
  // Composition

  /** Scanning a log in two halves: the second half starts from the pending end
      the first half leaves, unless the first half already stopped. */
  lemma {:induction false} ScanAppend(a: seq<string>, b: seq<string>, pending: Option<string>, parse: NumberParser)
    ensures var sa := ScanFrom(a, pending, parse);
            ScanFrom(a + b, pending, parse) ==
              if sa.failure.Some? then sa
              else Prepend(sa.pairs, ScanFrom(b, FinalPending(a, pending, parse), parse))
    decreases |a|
  {
    if a == [] {
      assert a + b == b;
    } else {
      assert (a + b)[0] == a[0] && (a + b)[1..] == a[1..] + b;
      match StepLine(pending, a[0], parse)
      case Stuck(_) =>
      case Moved(next, out) =>
        ScanAppend(a[1..], b, next, parse);
        var rb := ScanFrom(b, FinalPending(a[1..], next, parse), parse);
        assert out + (ScanFrom(a[1..], next, parse).pairs + rb.pairs)
            == (out + ScanFrom(a[1..], next, parse).pairs) + rb.pairs;
    }
  }

  // ---------------------------------------------------------------------------
  // Lines that are ignored

  /** With nothing pending, lines without a `silence_end` match change nothing,
      whatever `silence_start` they contain. */
  lemma {:induction false} LinesWithoutEndIgnoredWhenIdle(pre: seq<string>, rest: seq<string>, parse: NumberParser)
    requires forall k | 0 <= k < |pre| :: !HasEnd(pre[k])
    ensures ScanFrom(pre + rest, None, parse) == ScanFrom(rest, None, parse)
    decreases |pre|
  {
    if pre == [] {
      assert pre + rest == rest;
    } else {
      assert (pre + rest)[0] == pre[0] && (pre + rest)[1..] == pre[1..] + rest;
      assert StepLine(None, pre[0], parse) == Moved(None, []);
      LinesWithoutEndIgnoredWhenIdle(pre[1..], rest, parse);
    }
  }

  /** Empty or unmatched detector output yields no segment and no failure. */
  lemma NoEndNoSegments(lines: seq<string>, parse: NumberParser)
    requires forall k | 0 <= k < |lines| :: !HasEnd(lines[k])
    ensures ScanLog(lines, parse) == Scan([], None)
  {
    LinesWithoutEndIgnoredWhenIdle(lines, [], parse);
    assert lines + [] == lines;
  }

  /** While an end is pending, lines without a `silence_start` match change
      nothing: in particular a later `silence_end` does not replace it. */
  lemma {:induction false} PendingEndKept(e: string, mid: seq<string>, rest: seq<string>, parse: NumberParser)
    requires forall k | 0 <= k < |mid| :: !HasStart(mid[k])
    ensures ScanFrom(mid + rest, Some(e), parse) == ScanFrom(rest, Some(e), parse)
    decreases |mid|
  {
    if mid == [] {
      assert mid + rest == rest;
    } else {
      assert (mid + rest)[0] == mid[0] && (mid + rest)[1..] == mid[1..] + rest;
      assert StepLine(Some(e), mid[0], parse) == Moved(Some(e), []);
      PendingEndKept(e, mid[1..], rest, parse);
    }
  }

  /** Without any `silence_start` match nothing is emitted, whatever is pending. */
  lemma {:induction false} NoStartNoSegments(lines: seq<string>, pending: Option<string>, parse: NumberParser)
    requires forall k | 0 <= k < |lines| :: !HasStart(lines[k])
    ensures ScanFrom(lines, pending, parse) == Scan([], None)
    decreases |lines|
  {
    if lines != [] {
      assert !HasStart(lines[0]);
      match StepLine(pending, lines[0], parse)
      case Stuck(_) =>
        assert false;
      case Moved(next, out) =>
        assert out == [];
        NoStartNoSegments(lines[1..], next, parse);
    }
  }

  /** A log that runs on without a closing `silence_start` emits nothing more:
      a trailing unmatched `silence_end` is dropped. */
  lemma TrailingLinesWithoutStartIgnored(lines: seq<string>, tail: seq<string>, parse: NumberParser)
    requires forall k | 0 <= k < |tail| :: !HasStart(tail[k])
    ensures ScanLog(lines + tail, parse) == ScanLog(lines, parse)
  {
    ScanAppend(lines, tail, None, parse);
    NoStartNoSegments(tail, FinalPending(lines, None, parse), parse);
    assert ScanLog(lines, parse).pairs + [] == ScanLog(lines, parse).pairs;
  }

  // ---------------------------------------------------------------------------
  // Reset after each pair

  function CountStarts(lines: seq<string>): nat {
    if lines == [] then 0 else (if HasStart(lines[0]) then 1 else 0) + CountStarts(lines[1..])
  }

  /** Each `silence_start` closes at most one pending end. */
  lemma {:induction false} AtMostOnePairPerStart(lines: seq<string>, pending: Option<string>, parse: NumberParser)
    ensures |ScanFrom(lines, pending, parse).pairs| <= CountStarts(lines)
    decreases |lines|
  {
    if lines != [] {
      match StepLine(pending, lines[0], parse)
      case Stuck(_) =>
      case Moved(next, out) =>
        assert |out| <= (if HasStart(lines[0]) then 1 else 0);
        AtMostOnePairPerStart(lines[1..], next, parse);
    }
  }

  // ---------------------------------------------------------------------------
  // Emission rule

  /** The `silence_start` token on `line` closes the span that starts at `p.ss`
      and the duration is the difference of the two values. */
  predicate Closes(line: string, p: Pair, parse: NumberParser) {
    match FindToken(line, StartKey)
    case None => false
    case Some(s) => parse(s).Some? && parse(p.ss).Some? && p.t == parse(s).value - parse(p.ss).value
  }

  /** p is a pair that the log accounts for: long enough, closed on some line
      j, and its start is a `silence_end` token found on some line i <= j (or is
      the end already pending when the lines begin). */
  ghost predicate Justified(lines: seq<string>, pending: Option<string>, p: Pair, parse: NumberParser) {
    && p.t >= MinDuration
    && exists j | 0 <= j < |lines| ::
         && Closes(lines[j], p, parse)
         && (pending == Some(p.ss) || exists i | 0 <= i <= j :: FindToken(lines[i], EndKey) == Some(p.ss))
  }

  lemma StepFacts(pending: Option<string>, line: string, parse: NumberParser)
    ensures StepLine(pending, line, parse).Moved? ==>
      var next := StepLine(pending, line, parse).next;
      var out := StepLine(pending, line, parse).out;
      && (next.Some? ==> next == pending || (pending.None? && FindToken(line, EndKey) == next))
      && forall p | p in out ::
           p.t >= MinDuration && Closes(line, p, parse)
           && (pending == Some(p.ss) || FindToken(line, EndKey) == Some(p.ss))
  {
  }

  /** A line whose `silence_start` meets a captured end (pending before the
      line or found on it) resolves that pair and, unless `float` rejects a
      token, clears both captures, whether or not the pair was kept. */
  lemma ClosingLineResets(pending: Option<string>, line: string, parse: NumberParser)
    requires CaptureEnd(pending, line).Some? && HasStart(line)
    ensures StepLine(pending, line, parse)
         == Resolve(CaptureEnd(pending, line).value, FindToken(line, StartKey).value, parse)
    ensures StepLine(pending, line, parse).Moved? ==> StepLine(pending, line, parse).next == None
  {
  }

  /** After a closing line the rest of the log is scanned from the idle state. */
  lemma ScanAfterClosingLine(pending: Option<string>, line: string, rest: seq<string>, parse: NumberParser)
    requires CaptureEnd(pending, line).Some? && HasStart(line)
    requires StepLine(pending, line, parse).Moved?
    ensures ScanFrom([line] + rest, pending, parse)
         == Prepend(StepLine(pending, line, parse).out, ScanFrom(rest, None, parse))
  {
    ClosingLineResets(pending, line, parse);
    assert ([line] + rest)[0] == line && ([line] + rest)[1..] == rest;
  }

  lemma {:induction false} EmittedPairsJustified(lines: seq<string>, pending: Option<string>, parse: NumberParser)
    ensures forall p | p in ScanFrom(lines, pending, parse).pairs :: Justified(lines, pending, p, parse)
    decreases |lines|
  {
    if lines != [] {
      StepFacts(pending, lines[0], parse);
      match StepLine(pending, lines[0], parse)
      case Stuck(_) =>
      case Moved(next, out) =>
        EmittedPairsJustified(lines[1..], next, parse);
        var rest := ScanFrom(lines[1..], next, parse).pairs;
        forall p | p in out + rest ensures Justified(lines, pending, p, parse) {
          if p in out {
            assert Closes(lines[0], p, parse);
            if pending != Some(p.ss) {
              assert FindToken(lines[0], EndKey) == Some(p.ss);
            }
          } else {
            assert Justified(lines[1..], next, p, parse);
            var j :| 0 <= j < |lines[1..]| && Closes(lines[1..][j], p, parse)
              && (next == Some(p.ss) || exists i | 0 <= i <= j :: FindToken(lines[1..][i], EndKey) == Some(p.ss));
            assert lines[j + 1] == lines[1..][j];
            if next == Some(p.ss) {
              if pending != Some(p.ss) {
                assert FindToken(lines[0], EndKey) == Some(p.ss);
              }
            } else {
              var i :| 0 <= i <= j && FindToken(lines[1..][i], EndKey) == Some(p.ss);
              assert lines[i + 1] == lines[1..][i];
            }
          }
        }
    }
  }

  /** Every emitted segment starts at a `silence_end` token, verbatim, found on
      a line at or before the line whose `silence_start` closes it; its
      duration is the start value minus the end value, and at least 0.01. */
  lemma EmissionRule(lines: seq<string>, parse: NumberParser)
    ensures forall p | p in ScanLog(lines, parse).pairs ::
      && p.t >= MinDuration
      && exists i, j | 0 <= i <= j < |lines| ::
           FindToken(lines[i], EndKey) == Some(p.ss) && Closes(lines[j], p, parse)
  {
    EmittedPairsJustified(lines, None, parse);
    forall p | p in ScanLog(lines, parse).pairs
      ensures exists i, j | 0 <= i <= j < |lines| ::
        FindToken(lines[i], EndKey) == Some(p.ss) && Closes(lines[j], p, parse)
    {
      assert Justified(lines, None, p, parse);
      var j :| 0 <= j < |lines| && Closes(lines[j], p, parse)
        && exists i | 0 <= i <= j :: FindToken(lines[i], EndKey) == Some(p.ss);
      var i :| 0 <= i <= j && FindToken(lines[i], EndKey) == Some(p.ss);
    }
  }

  // ---------------------------------------------------------------------------
  // A log as the detector writes it

  /** A non-silent span as the log reports it: the `silence_end` token that
      opens it and the `silence_start` token that closes it. */
  datatype Span = Span(endTok: string, startTok: string)

  function EndLine(tok: string): string { EndKey + tok }
  function StartLine(tok: string): string { StartKey + tok }

  function Render(spans: seq<Span>): seq<string> {
    if spans == [] then []
    else [EndLine(spans[0].endTok), StartLine(spans[0].startTok)] + Render(spans[1..])
  }

  predicate ValidToken(tok: string) {
    tok != [] && NoSpace(tok)
  }

  /** Both tokens of every span are well formed and read as numbers. */
  predicate Readable(spans: seq<Span>, parse: NumberParser) {
    spans == [] ||
      (&& ValidToken(spans[0].endTok) && ValidToken(spans[0].startTok)
       && parse(spans[0].endTok).Some? && parse(spans[0].startTok).Some?
       && Readable(spans[1..], parse))
  }

  /** The pair a readable span yields: itself when long enough, else nothing. */
  function KeptOne(sp: Span, parse: NumberParser): seq<Pair>
    requires parse(sp.endTok).Some? && parse(sp.startTok).Some?
  {
    var t := parse(sp.startTok).value - parse(sp.endTok).value;
    if t >= MinDuration then [Pair(sp.endTok, t)] else []
  }

  /** The spans that are long enough, in log order. */
  function Kept(spans: seq<Span>, parse: NumberParser): seq<Pair>
    requires Readable(spans, parse)
  {
    if spans == [] then [] else KeptOne(spans[0], parse) + Kept(spans[1..], parse)
  }

  /** A `silence_end` line holds no `silence_start` match: the space of that
      literal would have to fall inside the token. */
  lemma EndLineHasNoStart(tok: string)
    requires ValidToken(tok)
    ensures FindToken(EndLine(tok), StartKey) == None
  {
    var line := EndLine(tok);
    assert forall k | |EndKey| <= k < |line| :: line[k] == tok[k - |EndKey|];
    assert StartKey[14] == ' ';
    NoMatchPastSpace(line, StartKey, 14, 0);
    FindTokenLeftmost(line, StartKey);
  }

  /** A `silence_start` line holds no `silence_end` match: past position 2
      the space of that literal would fall inside the token, and before it
      the characters differ. */
  lemma StartLineHasNoEnd(tok: string)
    requires ValidToken(tok)
    ensures FindToken(StartLine(tok), EndKey) == None
  {
    var line := StartLine(tok);
    assert forall k | |StartKey| <= k < |line| :: line[k] == tok[k - |StartKey|];
    assert EndKey[12] == ' ';
    NoMatchPastSpace(line, EndKey, 12, 3);
    assert line[..|StartKey|] == StartKey;
    assert line[12] == 't' && line[13] == ':' && line[14] == ' ' && line[2] == 'l';
    forall i: nat | i < 3 ensures !MatchAt(line, EndKey, i) {
      LiteralAtSlice(line, EndKey, i);
      assert line[i..i + |EndKey|][12] == line[i + 12];
      assert line[i..i + |EndKey|][0] == line[i];
    }
    FindTokenLeftmost(line, EndKey);
  }

  /** One span on any two lines, read from an idle state: the first line
      holds the `silence_end` token e and no `silence_start`, the second the
      `silence_start` token s (detector lines carry more text around the
      tokens). The span is kept exactly when long enough, and the scan goes on
      from the idle state either way. */
  lemma OneSpanOnLines(l1: string, l2: string, rest: seq<string>, e: string, s: string, parse: NumberParser)
    requires FindToken(l1, EndKey) == Some(e) && !HasStart(l1)
    requires FindToken(l2, StartKey) == Some(s)
    requires parse(e).Some? && parse(s).Some?
    ensures ScanFrom([l1, l2] + rest, None, parse)
              == Prepend(KeptOne(Span(e, s), parse), ScanFrom(rest, None, parse))
  {
    assert StepLine(None, l1, parse) == Moved(Some(e), []);
    assert StepLine(Some(e), l2, parse) == Moved(None, KeptOne(Span(e, s), parse));
    TwoLineScan(l1, l2, rest, e, KeptOne(Span(e, s), parse), parse);
  }

  /** One rendered span, read from an idle state. */
  lemma OneSpanStep(e: string, s: string, rest: seq<string>, parse: NumberParser)
    requires ValidToken(e) && ValidToken(s) && parse(e).Some? && parse(s).Some?
    ensures ScanFrom([EndLine(e), StartLine(s)] + rest, None, parse)
              == Prepend(KeptOne(Span(e, s), parse), ScanFrom(rest, None, parse))
  {
    FindTokenTagged(EndKey, e);
    EndLineHasNoStart(e);
    FindTokenTagged(StartKey, s);
    OneSpanOnLines(EndLine(e), StartLine(s), rest, e, s, parse);
  }

  /** Two lines that open and then close a pair, followed by the rest of the log. */
  lemma TwoLineScan(l1: string, l2: string, rest: seq<string>, e: string, out: seq<Pair>, parse: NumberParser)
    requires StepLine(None, l1, parse) == Moved(Some(e), [])
    requires StepLine(Some(e), l2, parse) == Moved(None, out)
    ensures ScanFrom([l1, l2] + rest, None, parse) == Prepend(out, ScanFrom(rest, None, parse))
  {
    var lines := [l1, l2] + rest;
    assert lines[0] == l1 && lines[1..] == [l2] + rest;
    assert ([l2] + rest)[0] == l2 && ([l2] + rest)[1..] == rest;
    assert [] + out == out;
  }

  lemma FirstSpanStep(spans: seq<Span>, parse: NumberParser)
    requires spans != [] && Readable(spans, parse)
    ensures ScanFrom(Render(spans), None, parse)
              == Prepend(KeptOne(spans[0], parse), ScanFrom(Render(spans[1..]), None, parse))
  {
    assert Render(spans) == [EndLine(spans[0].endTok), StartLine(spans[0].startTok)] + Render(spans[1..]);
    OneSpanStep(spans[0].endTok, spans[0].startTok, Render(spans[1..]), parse);
  }

  /** A log of N opened-and-closed spans yields exactly the spans of at least
      0.01 seconds, in order, with their offsets as written. */
  lemma {:induction false} RenderedLogScan(spans: seq<Span>, parse: NumberParser)
    requires Readable(spans, parse)
    ensures ScanLog(Render(spans), parse) == Scan(Kept(spans, parse), None)
    decreases |spans|
  {
    if spans != [] {
      RenderedLogScan(spans[1..], parse);
      FirstSpanStep(spans, parse);
    }
  }

  /** The detector usually reports a `silence_start` before the first
      `silence_end` (silence at the very beginning); that line is ignored. */
  lemma LeadingStartIgnored(s0: string, spans: seq<Span>, parse: NumberParser)
    requires ValidToken(s0) && Readable(spans, parse)
    ensures ScanLog([StartLine(s0)] + Render(spans), parse) == Scan(Kept(spans, parse), None)
  {
    StartLineHasNoEnd(s0);
    LinesWithoutEndIgnoredWhenIdle([StartLine(s0)], Render(spans), parse);
    RenderedLogScan(spans, parse);
  }

  /** Duration threshold on a single span: kept exactly when at least 0.01. */
  lemma ThresholdOnOneSpan(e: string, s: string, parse: NumberParser)
    requires ValidToken(e) && ValidToken(s) && parse(e).Some? && parse(s).Some?
    ensures var t := parse(s).value - parse(e).value;
            ScanLog([EndLine(e), StartLine(s)], parse).pairs == if t >= 0.01 then [Pair(e, t)] else []
  {
    RenderedLogScan([Span(e, s)], parse);
    assert Render([Span(e, s)]) == [EndLine(e), StartLine(s)];
  }

  /** A worked log: a 3-second span is kept, a 5-millisecond span is dropped,
      a span of exactly 0.01 seconds is kept (0.02 - 0.01 is also exactly 0.01
      in double precision, so `float` agrees on this one). */
  lemma WorkedExample(parse: NumberParser)
    requires parse("2.000") == Some(2.0) && parse("5.000") == Some(5.0)
    requires parse("9.000") == Some(9.0) && parse("9.005") == Some(9.005)
    requires parse("0.01") == Some(0.01) && parse("0.02") == Some(0.02)
    ensures ScanLog(Render([Span("2.000", "5.000"), Span("9.000", "9.005"), Span("0.01", "0.02")]), parse)
         == Scan([Pair("2.000", 3.0), Pair("0.01", 0.01)], None)
  {
    var spans := [Span("2.000", "5.000"), Span("9.000", "9.005"), Span("0.01", "0.02")];
    assert forall k | 0 <= k < |spans| :: ValidToken(spans[k].endTok) && ValidToken(spans[k].startTok);
    RenderedLogScan(spans, parse);
    assert spans[1..] == [Span("9.000", "9.005"), Span("0.01", "0.02")];
    assert spans[1..][1..] == [Span("0.01", "0.02")];
  }
}
