/** `VidSegment` (vtrim.py:32-39) and the generator `getVideoSegment`
    (vtrim.py:53-69) that creates one per kept span of the log. */
module VideoSegments {
  import opened Wrappers
  import opened Matcher
  import opened SilenceLog
  import opened Naming
  import opened Text

  /** One span to extract: the raw `silence_end` token it starts at
      (`ffmpeg_ss`), its duration (`ffmpeg_t`, before formatting) and
      `outpath`. A value: nothing changes it after construction. */
  datatype VidSegment = VidSegment(ss: string, t: real, outPath: string)
  {
    /** `ffmpegSplitCmd`; `tText` is the duration as `f"{t:.4f}"` writes it. */
    function SplitCmd(input: string, tText: string): seq<string> {
      SplitCommand(SplitArgs(input, ss, tText, outPath))
    }
  }

  /** The four places of the split command that vary between segments. */
  datatype SplitArgs = SplitArgs(input: string, ss: string, t: string, outPath: string)

  /** The argument list of the extraction command (vtrim.py:39). */
  function SplitCommand(a: SplitArgs): seq<string> {
    ["ffmpeg", "-nostdin", "-c:v", "h264_cuvid", "-i", a.input, "-ss", a.ss, "-t", a.t,
     "-v", "warning", "-c:a", "copy", "-c:v", "libx264", "-preset", "ultrafast", a.outPath]
  }

  predicate IsArgSlot(k: nat) {
    k == 5 || k == 7 || k == 9 || k == 18
  }

  /** Recognises an extraction command and reads back its four arguments. */
  function DecodeSplitCommand(cmd: seq<string>): Option<SplitArgs> {
    var shape := SplitCommand(SplitArgs("", "", "", ""));
    if |cmd| == |shape| && forall k | 0 <= k < |shape| && !IsArgSlot(k) :: cmd[k] == shape[k]
    then Some(SplitArgs(cmd[5], cmd[7], cmd[9], cmd[18]))
    else None
  }

  /** Every segment's command has the same fixed shape and carries its four
      arguments in their places. */
  lemma SplitCommandRoundTrip(a: SplitArgs)
    ensures DecodeSplitCommand(SplitCommand(a)) == Some(a)
  {
    var shape := SplitCommand(SplitArgs("", "", "", ""));
    assert forall k | 0 <= k < |shape| && !IsArgSlot(k) :: SplitCommand(a)[k] == shape[k];
  }

  /** Only commands of that shape are recognised: decoding then re-encoding
      gives the same list. */
  lemma SplitCommandDecoded(cmd: seq<string>)
    requires DecodeSplitCommand(cmd).Some?
    ensures SplitCommand(DecodeSplitCommand(cmd).value) == cmd
  {
    var shape := SplitCommand(SplitArgs("", "", "", ""));
    var c := SplitCommand(DecodeSplitCommand(cmd).value);
    assert |c| == |cmd|;
    forall k | 0 <= k < |cmd| ensures c[k] == cmd[k] {
      if !IsArgSlot(k) {
        assert cmd[k] == shape[k];
      }
    }
  }

  /** The class attribute `VidSegment.fileID`: the number of segments created
      so far in this run. */
  class SegmentCounter {
    var fileID: nat

    constructor ()
      ensures fileID == 0
    {
      fileID := 0;
    }

    /** `VidSegment.__init__`: bumps the counter, then names the artifact after it. */
    method NewSegment(ss: string, t: real) returns (seg: VidSegment)
      modifies this
      ensures fileID == old(fileID) + 1
      ensures seg == VidSegment(ss, t, OutPath(fileID))
    {
      fileID := fileID + 1;
      seg := VidSegment(ss, t, OutPath(fileID));
    }
  }

  /** The segments created for the kept pairs `ps` by a counter that stood
      at `base`: the k-th is named after ordinal base + k + 1. */
  function Segments(ps: seq<Pair>, base: nat): (r: seq<VidSegment>)
    ensures |r| == |ps|
  {
    if ps == [] then []
    else
      var last := ps[|ps| - 1];
      Segments(ps[..|ps| - 1], base) + [VidSegment(last.ss, last.t, OutPath(base + |ps|))]
  }

  lemma {:induction false} SegmentsNamed(ps: seq<Pair>, base: nat)
    ensures forall k | 0 <= k < |ps| ::
      Segments(ps, base)[k] == VidSegment(ps[k].ss, ps[k].t, OutPath(base + k + 1))
  {
    if ps != [] {
      var init := ps[..|ps| - 1];
      SegmentsNamed(init, base);
      assert forall k | 0 <= k < |init| :: ps[k] == init[k];
    }
  }

  /** One more kept pair adds one segment, named after the next ordinal. */
  lemma SegmentsSnoc(ps: seq<Pair>, p: Pair, base: nat)
    ensures Segments(ps + [p], base) == Segments(ps, base) + [VidSegment(p.ss, p.t, OutPath(base + |ps| + 1))]
  {
    assert (ps + [p])[..|ps|] == ps;
  }

  /** The artifact paths of a list of segments, in the same order. */
  function OutPaths(segs: seq<VidSegment>): seq<string> {
    seq(|segs|, k requires 0 <= k < |segs| => segs[k].outPath)
  }

  /** While the counter stays within five digits, the segments' paths are
      distinct and already in sorted order. */
  lemma SegmentPathsSorted(ps: seq<Pair>, base: nat)
    requires base + |ps| <= 99999
    ensures StrictlySorted(OutPaths(Segments(ps, base)))
  {
    SegmentsNamed(ps, base);
    var paths := OutPaths(Segments(ps, base));
    forall i, j | 0 <= i < j < |paths| ensures LexLess(paths[i], paths[j]) {
      OutPathOrder(base + i + 1, base + j + 1);
    }
  }

  /** One pass of the loop body of `getVideoSegment` (vtrim.py:55-69), from
      the pending end before the line to what the line does. */
  method ReadLine(pending: Option<string>, line: string, parse: NumberParser) returns (step: Step)
    ensures step == StepLine(pending, line, parse)
  {
    var silenceEnd := pending;
    if silenceEnd.None? {
      silenceEnd := FindToken(line, EndKey);
    }
    if silenceEnd.Some? {
      var silenceStart := FindToken(line, StartKey);
      if silenceStart.Some? {
        var ss := silenceEnd.value;
        var startValue := parse(silenceStart.value);
        if startValue.None? {
          return Stuck(silenceStart.value);
        }
        var endValue := parse(ss);
        if endValue.None? {
          return Stuck(ss);
        }
        var t := startValue.value - endValue.value;
        if t >= MinDuration {
          return Moved(None, [Pair(ss, t)]);
        }
        return Moved(None, []);
      }
    }
    return Moved(silenceEnd, []);
  }

  /** `getVideoSegment` over the detector's output split into lines. It
      returns the segments in the order it yields them and, when `float`
      rejects a token, that token (the generator then raises and yields no
      more). Each kept pair becomes one segment, named by the counter. */
  method GetVideoSegment(lines: seq<string>, parse: NumberParser, counter: SegmentCounter)
    returns (segs: seq<VidSegment>, failure: Option<string>)
    modifies counter
    ensures failure == ScanLog(lines, parse).failure
    ensures segs == Segments(ScanLog(lines, parse).pairs, old(counter.fileID))
    ensures counter.fileID == old(counter.fileID) + |segs|
  {
    ghost var base := counter.fileID;
    var silenceEnd: Option<string> := None;
    ghost var pairs: seq<Pair> := [];
    segs, failure := [], None;
    var i := 0;
    while i < |lines|
      invariant 0 <= i <= |lines|
      invariant ScanLog(lines, parse) == Prepend(pairs, ScanFrom(lines[i..], silenceEnd, parse))
      invariant segs == Segments(pairs, base)
      invariant counter.fileID == base + |pairs|
    {
      var step := ReadLine(silenceEnd, lines[i], parse);
      ScanResume(lines, i, silenceEnd, pairs, step, parse);
      if step.Stuck? {
        failure := Some(step.badToken);
        return;
      }
      if step.out != [] {
        var p := step.out[0];
        var seg := counter.NewSegment(p.ss, p.t);
        SegmentsSnoc(pairs, p, base);
        segs := segs + [seg];
        pairs := pairs + [p];
      }
      silenceEnd := step.next;
      i := i + 1;
    }
    assert pairs + [] == pairs;
  }
}
