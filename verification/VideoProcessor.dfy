/**
 * The video pipeline of backend/services/videoProcessor.js: split a video
 * into PNG frames, send every frame through background removal, and
 * reassemble the processed frames into output.mp4, reporting progress on the
 * way; and the recursive directory removal the job queue uses to clean up.
 *
 * The collaborators the pipeline awaits (ffmpeg's extraction and
 * composition, the background-removal client) are a `Gateways` object whose
 * outcomes are fixed when it is built and which logs every call, so a run is
 * a deterministic function of the disk, the gateways and the clock.
 */
module VideoProcessor {
  import opened Wrappers
  import opened Text
  import opened FileSystem
  import opened FfmpegWrapper

  const FramesDirName: Name := "frames"
  const ProcessedDirName: Name := "processed_frames"
  const OutputVideoName: Name := "output.mp4"
  const PngSuffix: string := ".png"

  const ExtractingMessage: string := "Extracting video frames..."
  const RemovingMessage: string := "Removing background from frames..."
  const ReassemblingMessage: string := "Reassembling video..."
  const CompleteMessage: string := "Video processing complete!"

  /**
   * A stand-in for the message of the error mkdir throws when a file stands
   * where a directory is needed. Node's message also names the path, and
   * reads EEXIST rather than ENOTDIR when the path itself is the file.
   */
  const MkdirFailure: string := "ENOTDIR: not a directory, mkdir"
  /**
   * A stand-in for the message ffmpeg's failure carries when the frame
   * directory it writes into is not a directory; the real text depends on
   * ffmpeg's output.
   */
  const FramesDirMissing: string := "ffmpeg exited with code 1: No such file or directory"

  function FrameDir(outputDir: Path): Path { JoinPath(outputDir, FramesDirName) }
  function ProcessedFrameDir(outputDir: Path): Path { JoinPath(outputDir, ProcessedDirName) }
  function OutputVideoPath(outputDir: Path): Path { JoinPath(outputDir, OutputVideoName) }

  // ---------------------------------------------------------------------------
  // Progress
  // ---------------------------------------------------------------------------

  datatype Progress = Progress(percent: int, message: string)

  /** The progress callback: every report it receives, in order. */
  class ProgressSink {
    var reports: seq<Progress>

    constructor ()
      ensures reports == []
    {
      reports := [];
    }

    method Report(percent: int, message: string)
      modifies this
      ensures reports == old(reports) + [Progress(percent, message)]
    {
      reports := reports + [Progress(percent, message)];
    }
  }

  /**
   * The percentage reported after frame `i` (counted from 0) of `n`:
   * Math.round(20 + (i / n) * 60), computed exactly.
   */
  function FrameProgress(i: nat, n: nat): (p: int)
    requires i < n
    ensures 20 <= p <= 80
  {
    DivBelow(120 * i + n, 2 * n, 61);
    20 + (120 * i + n) / (2 * n)
  }

  lemma DivBelow(a: nat, b: nat, k: nat)
    requires b > 0 && a < k * b
    ensures a / b < k
  {
    assert a == (a / b) * b + a % b;
    if a / b >= k {
      MulMonotone(k, a / b, b);
    }
  }

  lemma MulMonotone(x: nat, y: nat, b: nat)
    requires x <= y
    ensures x * b <= y * b
  {
  }

  function FrameMessage(i: nat, n: nat): string {
    "Processed frame " + DecimalDigits(i + 1) + "/" + DecimalDigits(n)
  }

  /** The reports after each of the first `m` of `n` frames. */
  function FrameReports(m: nat, n: nat): (r: seq<Progress>)
    requires m <= n
    ensures |r| == m
  {
    if m == 0 then []
    else FrameReports(m - 1, n) + [Progress(FrameProgress(m - 1, n), FrameMessage(m - 1, n))]
  }

  /** The report after frame `j` carries that frame's percentage and message. */
  lemma {:induction false} FrameReportsAt(m: nat, n: nat, j: nat)
    requires j < m <= n
    ensures FrameReports(m, n)[j] == Progress(FrameProgress(j, n), FrameMessage(j, n))
    decreases m
  {
    if j < m - 1 {
      FrameReportsAt(m - 1, n, j);
    }
  }

  /**
   * The integer formula is JavaScript's Math.round of 20 + (i / n) * 60, read
   * in exact arithmetic: Math.round(x) is the p with p - 1/2 <= x < p + 1/2,
   * here multiplied through by 2n.
   */
  lemma FrameProgressRounds(i: nat, n: nat)
    requires i < n
    ensures var p := FrameProgress(i, n);
      (2 * p - 1) * n <= 40 * n + 120 * i < (2 * p + 1) * n
  {
    var q := (120 * i + n) / (2 * n);
    var rem := (120 * i + n) % (2 * n);
    assert 120 * i + n == 2 * n * q + rem && 0 <= rem < 2 * n;
    var p := FrameProgress(i, n);
    assert p == 20 + q;
    assert (2 * p - 1) * n == 39 * n + 2 * n * q;
    assert (2 * p + 1) * n == 41 * n + 2 * n * q;
  }

  /** Progress never goes back as frames complete. */
  lemma FrameProgressMonotone(i: nat, j: nat, n: nat)
    requires i <= j < n
    ensures FrameProgress(i, n) <= FrameProgress(j, n)
  {
    DivMonotone(120 * i + n, 120 * j + n, 2 * n);
  }

  lemma DivMonotone(a: nat, b: nat, c: nat)
    requires a <= b && c > 0
    ensures a / c <= b / c
  {
    assert b == (b / c) * c + b % c;
    assert (b / c + 1) * c == (b / c) * c + c;
    DivBelow(a, c, b / c + 1);
  }

  lemma DivAtLeast(a: nat, b: nat, k: nat)
    requires b > 0 && k * b <= a
    ensures k <= a / b
  {
    assert a == (a / b) * b + a % b;
    assert (a / b + 1) * b == (a / b) * b + b;
    if a / b < k {
      MulMonotone(a / b + 1, k, b);
    }
  }

  /** A frame report reads 80 exactly when at most 1/120 of the frames remain unfinished. */
  lemma FrameProgressEighty(i: nat, n: nat)
    requires i < n
    ensures FrameProgress(i, n) == 80 <==> 120 * (n - i) <= n
  {
    var a := 120 * i + n;
    if 120 * (n - i) <= n {
      DivAtLeast(a, 2 * n, 60);
    } else {
      DivBelow(a, 2 * n, 60);
    }
  }

  /** The report after the last frame reaches 80 only for videos of at least 120 frames. */
  lemma LastFrameProgress(n: nat)
    requires n > 0
    ensures FrameProgress(n - 1, n) == 80 <==> n >= 120
  {
    FrameProgressEighty(n - 1, n);
  }

  // ---------------------------------------------------------------------------
  // The collaborators
  // ---------------------------------------------------------------------------

  /**
   * How a background removal that does not resolve ends: its promise
   * rejects with a message, or it never settles (the upload has no timeout,
   * and an error on the response stream leaves the promise on the file
   * writer pending).
   */
  datatype Failure = Rejects(message: string) | NeverSettles

  /** The settlement a failed removal passes on to whoever awaits it. */
  function FailureOutcome<T>(f: Failure): (r: Settlement<T>)
    ensures r.Rejected? <==> f.Rejects?
    ensures r.Unsettled? <==> f.NeverSettles?
    ensures f.Rejects? ==> r.message == f.message
  {
    match f
    case Rejects(m) => Rejected(m)
    case NeverSettles => Unsettled
  }

  /** One call the pipeline made to a collaborator. */
  datatype Call =
    | ExtractCall(extract: ExtractCommand)
    | RemovalCall(input: Path, output: Path)
    | ComposeCall(compose: ComposeCommand)

  /**
   * ffmpeg and the background-removal client as the pipeline sees them.
   * Extraction replays `extractEvents` and, when it ends, writes
   * `extractWrites` into the frame directory; background removal fails,
   * by rejecting or by never settling, exactly for the inputs
   * `removalFailures` names; composition settles as `composeOutcome` says.
   */
  class Gateways {
    const extractEvents: seq<FfmpegEvent>
    const extractWrites: seq<Name>
    const removalFailures: map<Path, Failure>
    const composeOutcome: Settlement<()>
    var calls: seq<Call>

    constructor (extractEvents: seq<FfmpegEvent>, extractWrites: seq<Name>,
                 removalFailures: map<Path, Failure>, composeOutcome: Settlement<()>)
      ensures this.extractEvents == extractEvents && this.extractWrites == extractWrites
      ensures this.removalFailures == removalFailures && this.composeOutcome == composeOutcome
      ensures calls == []
    {
      this.extractEvents := extractEvents;
      this.extractWrites := extractWrites;
      this.removalFailures := removalFailures;
      this.composeOutcome := composeOutcome;
      calls := [];
    }

    /** How extraction into `frameDir` settles on a disk in state `nodes`. */
    function ExtractionOn(nodes: map<Path, Node>, frameDir: Path): Settlement<Extraction> {
      if frameDir in nodes && nodes[frameDir].Dir? then ExtractionOutcome(extractEvents)
      else Rejected(FramesDirMissing)
    }

    /** ffmpeg.extractFrames(videoPath, frameDir). */
    method ExtractFrames(videoPath: Path, frameDir: Path, disk: Disk, now: int) returns (r: Settlement<Extraction>)
      requires disk.Valid()
      modifies this, disk
      ensures disk.Valid()
      ensures calls == old(calls) + [ExtractCall(ExtractFramesCommand(videoPath, frameDir))]
      ensures r == ExtractionOn(old(disk.nodes), frameDir)
      ensures disk.nodes == if r.Resolved? then WithFiles(old(disk.nodes), frameDir, extractWrites, now) else old(disk.nodes)
      ensures r.Resolved? ==> frameDir in disk.nodes && disk.nodes[frameDir].Dir?
    {
      calls := calls + [ExtractCall(ExtractFramesCommand(videoPath, frameDir))];
      if !(frameDir in disk.nodes && disk.nodes[frameDir].Dir?) {
        r := Rejected(FramesDirMissing);
        return;
      }
      r := FfmpegWrapper.ExtractFrames(extractEvents);
      if r.Resolved? {
        WithFilesWellFormed(disk.nodes, frameDir, extractWrites, now);
        disk.nodes := WithFiles(disk.nodes, frameDir, extractWrites, now);
      }
    }

    /**
     * removeBackground(input, output): resolves with `output` unless the
     * input is one that fails, in which case it rejects or never settles.
     */
    method RemoveBackground(input: Path, output: Path) returns (r: Settlement<Path>)
      modifies this
      ensures calls == old(calls) + [RemovalCall(input, output)]
      ensures r.Resolved? <==> input !in removalFailures
      ensures r.Resolved? ==> r.value == output
      ensures input in removalFailures ==> r == FailureOutcome(removalFailures[input])
    {
      calls := calls + [RemovalCall(input, output)];
      if input in removalFailures {
        r := FailureOutcome(removalFailures[input]);
      } else {
        r := Resolved(output);
      }
    }

    /** ffmpeg.createVideoFromFrames(framesDir, outputPath, fps). */
    method CreateVideoFromFrames(framesDir: Path, outputPath: Path, fps: Fps) returns (r: Settlement<()>)
      modifies this
      ensures calls == old(calls) + [ComposeCall(CreateVideoCommand(framesDir, outputPath, Some(fps)))]
      ensures r == composeOutcome
    {
      calls := calls + [ComposeCall(CreateVideoCommand(framesDir, outputPath, Some(fps)))];
      r := composeOutcome;
    }
  }

  // ---------------------------------------------------------------------------
  // processVideo
  // ---------------------------------------------------------------------------

  /**
   * The disk once the frame and processed-frame directories are ensured:
   * each is created with its missing parents unless something already
   * exists at its path. None when mkdir throws.
   */
  function PreparedDirs(nodes: map<Path, Node>, outputDir: Path, now: int): Option<map<Path, Node>> {
    var frameDir := FrameDir(outputDir);
    var processedDir := ProcessedFrameDir(outputDir);
    if frameDir !in nodes && !NoFileOnPath(nodes, frameDir) then None
    else
      var withFrames := if frameDir in nodes then nodes else WithDirs(nodes, frameDir, now);
      Some(if processedDir in withFrames then withFrames else WithDirs(withFrames, processedDir, now))
  }

  /** `frames` lists every PNG entry of `dir` once, in lexical order. */
  ghost predicate FrameList(frames: seq<Name>, nodes: map<Path, Node>, dir: Path) {
    && LexSorted(frames)
    && Distinct(frames)
    && forall n :: n in frames <==> n in ChildNames(nodes, dir) && EndsWith(n, PngSuffix)
  }

  /** Sorting the PNG entries of a complete listing gives the frame list, whatever order the listing came in. */
  lemma SortedPngListing(entries: seq<Name>, nodes: map<Path, Node>, dir: Path)
    requires Distinct(entries)
    requires forall n :: n in entries <==> n in ChildNames(nodes, dir)
    ensures FrameList(SortLex(PngNames(entries)), nodes, dir)
  {
    var pngs := PngNames(entries);
    var sorted := SortLex(pngs);
    DistinctPermutation(pngs, sorted);
    assert forall n :: n in sorted <==> n in multiset(pngs);
  }

  /** `(await readdir(frameDir)).filter(f => f.endsWith('.png')).sort()`. */
  method ListFrames(disk: Disk, frameDir: Path) returns (frames: seq<Name>)
    requires frameDir in disk.nodes && disk.nodes[frameDir].Dir?
    ensures FrameList(frames, disk.nodes, frameDir)
  {
    var entries := disk.ReadDir(frameDir);
    frames := SortLex(PngNames(entries));
    SortedPngListing(entries, disk.nodes, frameDir);
  }

  /** The frame list of a directory is unique: the order readdir returns entries in does not matter. */
  lemma {:induction false} FrameListUnique(a: seq<Name>, b: seq<Name>, nodes: map<Path, Node>, dir: Path)
    requires FrameList(a, nodes, dir) && FrameList(b, nodes, dir)
    ensures a == b
  {
    SortedDistinctUnique(a, b);
  }

  /** `.filter(f => f.endsWith('.png'))`. */
  function PngNames(names: seq<Name>): (r: seq<Name>)
    ensures forall n :: n in r <==> n in names && EndsWith(n, PngSuffix)
    ensures Distinct(names) ==> Distinct(r)
  {
    if names == [] then []
    else
      var rest := PngNames(names[1..]);
      assert forall n :: n in names <==> n == names[0] || n in names[1..];
      if EndsWith(names[0], PngSuffix) then [names[0]] + rest else rest
  }

  /** The index of the first frame whose background removal fails, or the frame count. */
  function FirstFailing(outputDir: Path, frames: seq<Name>, failures: map<Path, Failure>): (k: nat)
    ensures k <= |frames|
    ensures forall j :: 0 <= j < k ==> JoinPath(FrameDir(outputDir), frames[j]) !in failures
    ensures k < |frames| ==> JoinPath(FrameDir(outputDir), frames[k]) in failures
  {
    if frames == [] then 0
    else if JoinPath(FrameDir(outputDir), frames[0]) in failures then 0
    else 1 + FirstFailing(outputDir, frames[1..], failures)
  }

  /** A frame at or before the first failure that does not fail moves the first failure past it. */
  lemma FirstFailingPast(outputDir: Path, frames: seq<Name>, failures: map<Path, Failure>, i: nat)
    requires i < |frames| && i <= FirstFailing(outputDir, frames, failures)
    requires JoinPath(FrameDir(outputDir), frames[i]) !in failures
    ensures i + 1 <= FirstFailing(outputDir, frames, failures)
  {
  }

  /** The background-removal calls for the given frames, each into processed_frames under its own name. */
  function RemovalCalls(outputDir: Path, frames: seq<Name>): (r: seq<Call>)
    ensures |r| == |frames|
    ensures forall j :: 0 <= j < |frames| ==>
      r[j] == RemovalCall(JoinPath(FrameDir(outputDir), frames[j]), JoinPath(ProcessedFrameDir(outputDir), frames[j]))
  {
    if frames == [] then []
    else
      var last := frames[|frames| - 1];
      RemovalCalls(outputDir, frames[..|frames| - 1])
        + [RemovalCall(JoinPath(FrameDir(outputDir), last), JoinPath(ProcessedFrameDir(outputDir), last))]
  }

  lemma RemovalCallsStep(outputDir: Path, frames: seq<Name>, i: nat)
    requires i < |frames|
    ensures RemovalCalls(outputDir, frames[..i + 1])
      == RemovalCalls(outputDir, frames[..i])
        + [RemovalCall(JoinPath(FrameDir(outputDir), frames[i]), JoinPath(ProcessedFrameDir(outputDir), frames[i]))]
  {
    assert frames[..i + 1][..i] == frames[..i];
  }

  /** What a run does: how it settles, the collaborator calls it makes and the progress it reports. */
  datatype Run = Run(result: Settlement<Path>, calls: seq<Call>, reports: seq<Progress>)

  /**
   * A run once the directories exist: extraction settles as `extraction`;
   * when it resolves, the frame stages follow.
   */
  function Pipeline(videoPath: Path, outputDir: Path, extraction: Settlement<Extraction>, frames: seq<Name>,
                    failures: map<Path, Failure>, compose: Settlement<()>): Run
  {
    var begin := [ExtractCall(ExtractFramesCommand(videoPath, FrameDir(outputDir)))];
    var started := [Progress(10, ExtractingMessage)];
    match extraction
    case Unsettled => Run(Unsettled, begin, started)
    case Rejected(m) => Run(Rejected(m), begin, started)
    case Resolved(x) =>
      var rest := FrameStages(outputDir, x.fps, frames, failures, compose);
      Run(rest.result, begin + rest.calls, started + rest.reports)
  }

  /**
   * The stages after extraction: the sorted PNG frames `frames` go through
   * background removal one after another, stopping at the first failure;
   * then the processed frames are composed at the extracted `fps`.
   */
  function FrameStages(outputDir: Path, fps: Fps, frames: seq<Name>, failures: map<Path, Failure>,
                       compose: Settlement<()>): Run
  {
    var n := |frames|;
    var k := FirstFailing(outputDir, frames, failures);
    if k < n then
      Run(FailureOutcome(failures[JoinPath(FrameDir(outputDir), frames[k])]),
          RemovalCalls(outputDir, frames[..k + 1]),
          [Progress(20, RemovingMessage)] + FrameReports(k, n))
    else
      var calls := RemovalCalls(outputDir, frames)
        + [ComposeCall(CreateVideoCommand(ProcessedFrameDir(outputDir), OutputVideoPath(outputDir), Some(fps)))];
      var reports := [Progress(20, RemovingMessage)] + FrameReports(n, n) + [Progress(85, ReassemblingMessage)];
      match compose
      case Resolved(_) => Run(Resolved(OutputVideoPath(outputDir)), calls, reports + [Progress(100, CompleteMessage)])
      case Rejected(m) => Run(Rejected(m), calls, reports)
      case Unsettled => Run(Unsettled, calls, reports)
  }

  /** Percentages never decrease along `reports`. */
  ghost predicate Ascending(reports: seq<Progress>) {
    forall i, j :: 0 <= i < j < |reports| ==> reports[i].percent <= reports[j].percent
  }

  ghost predicate PercentsIn(reports: seq<Progress>, lo: int, hi: int) {
    forall j :: 0 <= j < |reports| ==> lo <= reports[j].percent <= hi
  }

  lemma AscendingConcat(a: seq<Progress>, b: seq<Progress>, mid: int)
    requires Ascending(a) && Ascending(b)
    requires forall j :: 0 <= j < |a| ==> a[j].percent <= mid
    requires forall j :: 0 <= j < |b| ==> mid <= b[j].percent
    ensures Ascending(a + b)
  {
  }

  /** The per-frame reports climb from 20 towards 80 and never go back. */
  lemma FrameReportsAscend(m: nat, n: nat)
    requires m <= n
    ensures Ascending(FrameReports(m, n)) && PercentsIn(FrameReports(m, n), 20, 80)
  {
    var r := FrameReports(m, n);
    forall i, j | 0 <= i < j < |r| ensures r[i].percent <= r[j].percent {
      FrameReportsAt(m, n, i);
      FrameReportsAt(m, n, j);
      FrameProgressMonotone(i, j, n);
    }
    forall j | 0 <= j < |r| ensures 20 <= r[j].percent <= 80 {
      FrameReportsAt(m, n, j);
    }
  }

  lemma PercentsConcat(a: seq<Progress>, b: seq<Progress>, lo: int, hi: int)
    requires PercentsIn(a, lo, hi) && PercentsIn(b, lo, hi)
    ensures PercentsIn(a + b, lo, hi)
  {
  }

  /** The removal phase reports 20, then one climbing report per frame, all within 20..80. */
  lemma RemovingProgress(k: nat, n: nat)
    requires k <= n
    ensures var removing := [Progress(20, RemovingMessage)] + FrameReports(k, n);
      && removing[0] == Progress(20, RemovingMessage)
      && PercentsIn(removing, 20, 80)
      && Ascending(removing)
  {
    FrameReportsAscend(k, n);
    AscendingConcat([Progress(20, RemovingMessage)], FrameReports(k, n), 20);
    PercentsConcat([Progress(20, RemovingMessage)], FrameReports(k, n), 20, 80);
  }

  /** After a failed frame the reports stop below 100. */
  lemma RejectedProgress(k: nat, n: nat)
    requires k < n
    ensures var reports := [Progress(20, RemovingMessage)] + FrameReports(k, n);
      && PercentsIn(reports, 20, 100)
      && Ascending(reports)
      && reports[|reports| - 1].percent != 100
  {
    RemovingProgress(k, n);
    var reports := [Progress(20, RemovingMessage)] + FrameReports(k, n);
    assert reports[|reports| - 1].percent <= 80;
  }

  /** Once every frame succeeded the reports climb to 85 and reach 100 exactly when composition resolves. */
  lemma ComposedProgress(n: nat, resolved: bool)
    ensures var reports := [Progress(20, RemovingMessage)] + FrameReports(n, n) + [Progress(85, ReassemblingMessage)]
                             + (if resolved then [Progress(100, CompleteMessage)] else []);
      && reports[0] == Progress(20, RemovingMessage)
      && PercentsIn(reports, 20, 100)
      && Ascending(reports)
      && (resolved <==> reports[|reports| - 1].percent == 100)
  {
    RemovingProgress(n, n);
    var removing := [Progress(20, RemovingMessage)] + FrameReports(n, n);
    var reassembling := [Progress(85, ReassemblingMessage)];
    var completed := if resolved then [Progress(100, CompleteMessage)] else [];
    AscendingConcat(removing, reassembling, 80);
    PercentsConcat(removing, reassembling, 20, 100);
    AscendingConcat(removing + reassembling, completed, 85);
    PercentsConcat(removing + reassembling, completed, 20, 100);
  }

  /** The stages after extraction report 20 first, then climb, ending on 100 exactly when they resolve. */
  lemma FrameStagesProgress(outputDir: Path, fps: Fps, frames: seq<Name>, failures: map<Path, Failure>, compose: Settlement<()>)
    ensures var stages := FrameStages(outputDir, fps, frames, failures, compose);
      && |stages.reports| >= 1 && stages.reports[0] == Progress(20, RemovingMessage)
      && PercentsIn(stages.reports, 20, 100)
      && Ascending(stages.reports)
      && (stages.result.Resolved? <==> stages.reports[|stages.reports| - 1].percent == 100)
  {
    var n := |frames|;
    var k := FirstFailing(outputDir, frames, failures);
    if k < n {
      FrameStagesRejects(outputDir, fps, frames, failures, compose, [], []);
      RejectedProgress(k, n);
    } else {
      FrameStagesComposes(outputDir, fps, frames, failures, compose, [], []);
      ComposedProgress(n, compose.Resolved?);
    }
  }

  /**
   * Every run reports 10 first; its percentages stay between 10 and 100 and
   * never decrease; and it ends on 100 exactly when it resolves.
   */
  lemma PipelineProgress(videoPath: Path, outputDir: Path, extraction: Settlement<Extraction>, frames: seq<Name>,
                         failures: map<Path, Failure>, compose: Settlement<()>)
    ensures var run := Pipeline(videoPath, outputDir, extraction, frames, failures, compose);
      && |run.reports| >= 1 && run.reports[0] == Progress(10, ExtractingMessage)
      && PercentsIn(run.reports, 10, 100)
      && Ascending(run.reports)
      && (run.result.Resolved? <==> run.reports[|run.reports| - 1].percent == 100)
  {
    if extraction.Resolved? {
      var stages := FrameStages(outputDir, extraction.value.fps, frames, failures, compose);
      FrameStagesProgress(outputDir, extraction.value.fps, frames, failures, compose);
      AscendingConcat([Progress(10, ExtractingMessage)], stages.reports, 10);
    }
  }

  /** Composition is called exactly when extraction resolved and every frame's background removal resolved. */
  lemma PipelineComposesOnlyAfterEveryFrame(videoPath: Path, outputDir: Path, extraction: Settlement<Extraction>,
                                            frames: seq<Name>, failures: map<Path, Failure>, compose: Settlement<()>)
    ensures var calls := Pipeline(videoPath, outputDir, extraction, frames, failures, compose).calls;
      (exists j :: 0 <= j < |calls| && calls[j].ComposeCall?)
        <==> extraction.Resolved? && forall j :: 0 <= j < |frames| ==> JoinPath(FrameDir(outputDir), frames[j]) !in failures
  {
    var run := Pipeline(videoPath, outputDir, extraction, frames, failures, compose);
    if extraction.Resolved? {
      var k := FirstFailing(outputDir, frames, failures);
      var stages := FrameStages(outputDir, extraction.value.fps, frames, failures, compose);
      if k < |frames| {
        FrameStagesRejects(outputDir, extraction.value.fps, frames, failures, compose, [], []);
        assert !forall j :: 0 <= j < |frames| ==> JoinPath(FrameDir(outputDir), frames[j]) !in failures;
        forall j | 0 <= j < |run.calls| ensures !run.calls[j].ComposeCall? {
          if j > 0 {
            assert run.calls[j] == stages.calls[j - 1];
          }
        }
      } else {
        FrameStagesComposes(outputDir, extraction.value.fps, frames, failures, compose, [], []);
        assert run.calls[|run.calls| - 1].ComposeCall?;
      }
    }
  }

  /**
   * A run that resolves extracted once, removed the background of every
   * frame in order into processed_frames under the frame's own name,
   * composed once from processed_frames at the extracted fps, and resolves
   * with outputDir/output.mp4.
   */
  lemma PipelineResolves(videoPath: Path, outputDir: Path, extraction: Settlement<Extraction>, frames: seq<Name>,
                         failures: map<Path, Failure>, compose: Settlement<()>)
    requires Pipeline(videoPath, outputDir, extraction, frames, failures, compose).result.Resolved?
    ensures extraction.Resolved? && compose.Resolved?
    ensures var run := Pipeline(videoPath, outputDir, extraction, frames, failures, compose);
      && run.result.value == OutputVideoPath(outputDir)
      && |run.calls| == |frames| + 2
      && run.calls[0] == ExtractCall(ExtractCommand(videoPath, JoinPath(FrameDir(outputDir), FramePattern)))
      && (forall j :: 0 <= j < |frames| ==>
            run.calls[j + 1] == RemovalCall(JoinPath(FrameDir(outputDir), frames[j]), JoinPath(ProcessedFrameDir(outputDir), frames[j])))
      && run.calls[|frames| + 1]
           == ComposeCall(ComposeCommand(JoinPath(ProcessedFrameDir(outputDir), FramePattern), extraction.value.fps, OutputVideoPath(outputDir)))
  {
    var run := Pipeline(videoPath, outputDir, extraction, frames, failures, compose);
    var stages := FrameStages(outputDir, extraction.value.fps, frames, failures, compose);
    var k := FirstFailing(outputDir, frames, failures);
    assert k == |frames|;
    forall j | 0 <= j < |frames|
      ensures run.calls[j + 1] == RemovalCall(JoinPath(FrameDir(outputDir), frames[j]), JoinPath(ProcessedFrameDir(outputDir), frames[j]))
    {
      assert run.calls[j + 1] == stages.calls[j];
    }
  }

  /**
   * When the background removal of some frame fails, the run settles as the
   * first failing frame's removal does (it rejects with that frame's error,
   * or never settles), after removal calls for exactly the
   * frames up to and including it, without composing and without reporting 85.
   */
  lemma PipelineStopsAtFirstFailure(videoPath: Path, outputDir: Path, x: Extraction, frames: seq<Name>,
                                    failures: map<Path, Failure>, compose: Settlement<()>, k: nat)
    requires k < |frames| && JoinPath(FrameDir(outputDir), frames[k]) in failures
    requires forall j :: 0 <= j < k ==> JoinPath(FrameDir(outputDir), frames[j]) !in failures
    ensures var run := Pipeline(videoPath, outputDir, Resolved(x), frames, failures, compose);
      && run.result == FailureOutcome(failures[JoinPath(FrameDir(outputDir), frames[k])])
      && |run.calls| == k + 2
      && (forall j :: 0 <= j < |run.calls| ==> !run.calls[j].ComposeCall?)
      && (forall j :: 0 <= j < |run.reports| ==> run.reports[j].percent <= 80)
  {
    var run := Pipeline(videoPath, outputDir, Resolved(x), frames, failures, compose);
    var stages := FrameStages(outputDir, x.fps, frames, failures, compose);
    assert FirstFailing(outputDir, frames, failures) == k;
    FrameStagesRejects(outputDir, x.fps, frames, failures, compose, [], []);
    forall j | 0 <= j < |run.calls| ensures !run.calls[j].ComposeCall? {
      if j > 0 {
        assert run.calls[j] == stages.calls[j - 1];
      }
    }
    RemovingProgress(k, |frames|);
    forall j | 0 <= j < |run.reports| ensures run.reports[j].percent <= 80 {
      if j > 0 {
        assert run.reports[j] == stages.reports[j - 1];
      }
    }
  }

  /** A video whose frame directory holds no PNG is still composed, from an empty processed_frames. */
  lemma PipelineNoFrames(videoPath: Path, outputDir: Path, x: Extraction, failures: map<Path, Failure>, compose: Settlement<()>)
    ensures var run := Pipeline(videoPath, outputDir, Resolved(x), [], failures, compose);
      && |run.calls| == 2 && run.calls[1].ComposeCall?
      && run.reports[..3] == [Progress(10, ExtractingMessage), Progress(20, RemovingMessage), Progress(85, ReassemblingMessage)]
  {
    var run := Pipeline(videoPath, outputDir, Resolved(x), [], failures, compose);
    assert FrameReports(0, 0) == [];
    assert run.reports[..3] == [run.reports[0], run.reports[1], run.reports[2]];
  }

  /** The frame count extraction reports plays no part in a run. */
  lemma PipelineIgnoresFrameCount(videoPath: Path, outputDir: Path, count1: nat, count2: nat, fps: Fps,
                                  frames: seq<Name>, failures: map<Path, Failure>, compose: Settlement<()>)
    ensures Pipeline(videoPath, outputDir, Resolved(Extraction(count1, fps)), frames, failures, compose)
         == Pipeline(videoPath, outputDir, Resolved(Extraction(count2, fps)), frames, failures, compose)
  {
  }

  lemma AppendAssoc<T>(a: seq<T>, b: seq<T>, c: seq<T>)
    ensures a + b + c == a + (b + c)
  {
  }

  /** Once the frame directory exists, creating its sibling cannot meet a file on the way. */
  lemma ProcessedDirCreatable(nodes: map<Path, Node>, outputDir: Path)
    requires WellFormed(nodes) && FrameDir(outputDir) in nodes && ProcessedFrameDir(outputDir) !in nodes
    ensures NoFileOnPath(nodes, ProcessedFrameDir(outputDir))
  {
    var frameDir := FrameDir(outputDir);
    var processedDir := ProcessedFrameDir(outputDir);
    forall r | r != [] && r <= processedDir && r in nodes ensures nodes[r].Dir? {
      assert processedDir[..|processedDir|] == processedDir;
      assert r == processedDir[..|r|] && r != processedDir;
      assert |r| <= |outputDir|;
      assert r == frameDir[..|r|];
      AncestorIsDir(nodes, frameDir, |r|);
    }
  }

  /** Creates the frame and processed-frame directories where nothing exists at their paths. */
  method EnsureWorkDirs(disk: Disk, outputDir: Path, now: int) returns (ok: bool)
    requires disk.Valid()
    modifies disk
    ensures disk.Valid()
    ensures ok <==> PreparedDirs(old(disk.nodes), outputDir, now).Some?
    ensures disk.nodes == if ok then PreparedDirs(old(disk.nodes), outputDir, now).value else old(disk.nodes)
  {
    var frameDir := FrameDir(outputDir);
    var processedDir := ProcessedFrameDir(outputDir);
    if frameDir !in disk.nodes {
      ok := disk.MkdirAll(frameDir, now);
      if !ok {
        return;
      }
    }
    if processedDir !in disk.nodes {
      ProcessedDirCreatable(disk.nodes, outputDir);
      ok := disk.MkdirAll(processedDir, now);
    }
    ok := true;
  }

  /**
   * The frame loop of processVideo: background removal of each frame in
   * turn into processed_frames under the same name, with a progress report
   * after each; the first rejection ends the loop and is returned.
   */
  method RemoveFrameBackgrounds(outputDir: Path, frames: seq<Name>, tools: Gateways, sink: ProgressSink)
    returns (failure: Option<Failure>)
    modifies tools, sink
    ensures var k := FirstFailing(outputDir, frames, tools.removalFailures);
      && (failure.None? <==> k == |frames|)
      && (failure.Some? ==> failure.value == tools.removalFailures[JoinPath(FrameDir(outputDir), frames[k])])
      && tools.calls == old(tools.calls) + RemovalCalls(outputDir, frames[..if k < |frames| then k + 1 else k])
      && sink.reports == old(sink.reports) + FrameReports(k, |frames|)
  {
    ghost var calls0 := tools.calls;
    ghost var reports0 := sink.reports;
    var i := 0;
    while i < |frames|
      invariant 0 <= i <= |frames|
      invariant i <= FirstFailing(outputDir, frames, tools.removalFailures)
      invariant tools.calls == calls0 + RemovalCalls(outputDir, frames[..i])
      invariant sink.reports == reports0 + FrameReports(i, |frames|)
    {
      failure := RemoveFrameBackground(outputDir, frames, i, tools, sink);
      RemovalCallsStep(outputDir, frames, i);
      AppendAssoc(calls0, RemovalCalls(outputDir, frames[..i]), [tools.calls[|tools.calls| - 1]]);
      if failure.Some? {
        return;
      }
      FirstFailingPast(outputDir, frames, tools.removalFailures, i);
      AppendAssoc(reports0, FrameReports(i, |frames|), [sink.reports[|sink.reports| - 1]]);
      i := i + 1;
    }
    assert frames[..i] == frames;
    return None;
  }

  /** One iteration of the frame loop: remove the background of frame `i`, reporting progress if that resolves. */
  method RemoveFrameBackground(outputDir: Path, frames: seq<Name>, i: nat, tools: Gateways, sink: ProgressSink)
    returns (failure: Option<Failure>)
    requires i < |frames|
    modifies tools, sink
    ensures var input := JoinPath(FrameDir(outputDir), frames[i]);
      && (failure.Some? <==> input in tools.removalFailures)
      && (failure.Some? ==> failure.value == tools.removalFailures[input])
      && tools.calls == old(tools.calls) + [RemovalCall(input, JoinPath(ProcessedFrameDir(outputDir), frames[i]))]
      && sink.reports == old(sink.reports)
        + if failure.Some? then [] else [Progress(FrameProgress(i, |frames|), FrameMessage(i, |frames|))]
  {
    var input := JoinPath(FrameDir(outputDir), frames[i]);
    var removed := tools.RemoveBackground(input, JoinPath(ProcessedFrameDir(outputDir), frames[i]));
    if !removed.Resolved? {
      assert sink.reports == old(sink.reports) + [];
      return Some(tools.removalFailures[input]);
    }
    sink.Report(FrameProgress(i, |frames|), FrameMessage(i, |frames|));
    failure := None;
  }

  /**
   * The part of processVideo after extraction resolved: list the frames,
   * remove their backgrounds, compose the processed frames at `fps`.
   */
  method ProcessFrames(outputDir: Path, fps: Fps, disk: Disk, tools: Gateways, sink: ProgressSink)
    returns (result: Settlement<Path>, ghost frames: seq<Name>)
    requires FrameDir(outputDir) in disk.nodes && disk.nodes[FrameDir(outputDir)].Dir?
    modifies tools, sink
    ensures FrameList(frames, disk.nodes, FrameDir(outputDir))
    ensures var stages := FrameStages(outputDir, fps, frames, tools.removalFailures, tools.composeOutcome);
      && result == stages.result
      && tools.calls == old(tools.calls) + stages.calls
      && sink.reports == old(sink.reports) + stages.reports
  {
    var frameDir := FrameDir(outputDir);
    sink.Report(20, RemovingMessage);
    var sorted := ListFrames(disk, frameDir);
    frames := sorted;

    ghost var k := FirstFailing(outputDir, frames, tools.removalFailures);
    var failure := RemoveFrameBackgrounds(outputDir, sorted, tools, sink);
    if failure.Some? {
      result := FailureOutcome(failure.value);
      FrameStagesRejects(outputDir, fps, frames, tools.removalFailures, tools.composeOutcome, old(tools.calls), old(sink.reports));
      return;
    }
    assert frames[..k] == frames;

    sink.Report(85, ReassemblingMessage);
    var composed := tools.CreateVideoFromFrames(ProcessedFrameDir(outputDir), OutputVideoPath(outputDir), fps);
    if composed.Resolved? {
      sink.Report(100, CompleteMessage);
      result := Resolved(OutputVideoPath(outputDir));
    } else {
      result := if composed.Rejected? then Rejected(composed.message) else Unsettled;
    }
    FrameStagesComposes(outputDir, fps, frames, tools.removalFailures, tools.composeOutcome, old(tools.calls), old(sink.reports));
  }

  /** The frame stages when frame `k` is the first to fail: its rejection, the calls up to it, the reports before it. */
  lemma FrameStagesRejects(outputDir: Path, fps: Fps, frames: seq<Name>, failures: map<Path, Failure>, compose: Settlement<()>,
                           calls0: seq<Call>, reports0: seq<Progress>)
    requires FirstFailing(outputDir, frames, failures) < |frames|
    ensures var k := FirstFailing(outputDir, frames, failures);
      var stages := FrameStages(outputDir, fps, frames, failures, compose);
      && stages.result == FailureOutcome(failures[JoinPath(FrameDir(outputDir), frames[k])])
      && stages.calls == RemovalCalls(outputDir, frames[..k + 1])
      && calls0 + stages.calls == calls0 + RemovalCalls(outputDir, frames[..k + 1])
      && stages.reports == [Progress(20, RemovingMessage)] + FrameReports(k, |frames|)
      && reports0 + stages.reports == reports0 + [Progress(20, RemovingMessage)] + FrameReports(k, |frames|)
  {
    var k := FirstFailing(outputDir, frames, failures);
    AppendAssoc(reports0, [Progress(20, RemovingMessage)], FrameReports(k, |frames|));
  }

  /** The frame stages when every frame succeeds: all removals, then composition, reported at 85 and, on success, 100. */
  lemma FrameStagesComposes(outputDir: Path, fps: Fps, frames: seq<Name>, failures: map<Path, Failure>, compose: Settlement<()>,
                            calls0: seq<Call>, reports0: seq<Progress>)
    requires FirstFailing(outputDir, frames, failures) == |frames|
    ensures var stages := FrameStages(outputDir, fps, frames, failures, compose);
      && stages.result == (match compose
                           case Resolved(_) => Resolved(OutputVideoPath(outputDir))
                           case Rejected(m) => Rejected(m)
                           case Unsettled => Unsettled)
      && stages.calls
        == RemovalCalls(outputDir, frames)
          + [ComposeCall(CreateVideoCommand(ProcessedFrameDir(outputDir), OutputVideoPath(outputDir), Some(fps)))]
      && calls0 + stages.calls
        == calls0 + RemovalCalls(outputDir, frames)
          + [ComposeCall(CreateVideoCommand(ProcessedFrameDir(outputDir), OutputVideoPath(outputDir), Some(fps)))]
      && stages.reports
        == [Progress(20, RemovingMessage)] + FrameReports(|frames|, |frames|) + [Progress(85, ReassemblingMessage)]
          + (if compose.Resolved? then [Progress(100, CompleteMessage)] else [])
      && reports0 + stages.reports
        == reports0 + [Progress(20, RemovingMessage)] + FrameReports(|frames|, |frames|)
          + [Progress(85, ReassemblingMessage)]
          + (if compose.Resolved? then [Progress(100, CompleteMessage)] else [])
  {
    var removing := [Progress(20, RemovingMessage)];
    var progressed := FrameReports(|frames|, |frames|);
    var reassembling := [Progress(85, ReassemblingMessage)];
    var completed := if compose.Resolved? then [Progress(100, CompleteMessage)] else [];
    var removed := RemovalCalls(outputDir, frames);
    var composing := [ComposeCall(CreateVideoCommand(ProcessedFrameDir(outputDir), OutputVideoPath(outputDir), Some(fps)))];
    AppendAssoc(calls0, removed, composing);
    AppendAssoc(reports0, removing, progressed);
    AppendAssoc(reports0, removing + progressed, reassembling);
    AppendAssoc(reports0, removing + progressed + reassembling, completed);
    assert removing + progressed + reassembling + completed == FrameStages(outputDir, fps, frames, failures, compose).reports;
  }

  /**
   * processVideo(videoPath, outputDir, progressCallback). `frames` is the
   * sorted PNG listing of the frame directory the run worked through.
   */
  method ProcessVideo(videoPath: Path, outputDir: Path, disk: Disk, tools: Gateways, sink: ProgressSink, now: int)
    returns (result: Settlement<Path>, ghost frames: seq<Name>)
    requires disk.Valid()
    modifies disk, tools, sink
    ensures disk.Valid()
    ensures PreparedDirs(old(disk.nodes), outputDir, now).None? ==>
      && result == Rejected(MkdirFailure) && frames == []
      && disk.nodes == old(disk.nodes) && tools.calls == old(tools.calls) && sink.reports == old(sink.reports)
    ensures PreparedDirs(old(disk.nodes), outputDir, now).Some? ==>
      var prepared := PreparedDirs(old(disk.nodes), outputDir, now).value;
      var extraction := tools.ExtractionOn(prepared, FrameDir(outputDir));
      var run := Pipeline(videoPath, outputDir, extraction, frames, tools.removalFailures, tools.composeOutcome);
      && disk.nodes == (if extraction.Resolved? then WithFiles(prepared, FrameDir(outputDir), tools.extractWrites, now) else prepared)
      && (if extraction.Resolved? then FrameList(frames, disk.nodes, FrameDir(outputDir)) else frames == [])
      && result == run.result
      && tools.calls == old(tools.calls) + run.calls
      && sink.reports == old(sink.reports) + run.reports
  {
    var frameDir := FrameDir(outputDir);
    frames := [];
    var ok := EnsureWorkDirs(disk, outputDir, now);
    if !ok {
      result := Rejected(MkdirFailure);
      return;
    }
    ghost var prepared := disk.nodes;

    sink.Report(10, ExtractingMessage);
    var extraction := tools.ExtractFrames(videoPath, frameDir, disk, now);
    assert extraction == tools.ExtractionOn(prepared, frameDir);
    if !extraction.Resolved? {
      result := if extraction.Rejected? then Rejected(extraction.message) else Unsettled;
      assert result == Pipeline(videoPath, outputDir, extraction, frames, tools.removalFailures, tools.composeOutcome).result;
      return;
    }
    var fps := extraction.value.fps;

    result, frames := ProcessFrames(outputDir, fps, disk, tools, sink);
    AppendAssoc(old(tools.calls), [ExtractCall(ExtractFramesCommand(videoPath, frameDir))],
                FrameStages(outputDir, fps, frames, tools.removalFailures, tools.composeOutcome).calls);
    AppendAssoc(old(sink.reports), [Progress(10, ExtractingMessage)],
                FrameStages(outputDir, fps, frames, tools.removalFailures, tools.composeOutcome).reports);
  }

  // ---------------------------------------------------------------------------
  // cleanupDirectory
  // ---------------------------------------------------------------------------

  /** `p` lies below `d`, inside one of the entries `done` of `d`. */
  predicate BelowOneOf(p: Path, d: Path, done: seq<Name>) {
    |p| > |d| && d <= p && p[|d|] in done
  }

  /** A listed name is an entry of the directory. */
  lemma ListedChildExists(nodes: map<Path, Node>, d: Path, n: Name)
    requires n in ChildNames(nodes, d)
    ensures JoinPath(d, n) in nodes
  {
    var p :| p in nodes && IsChild(p, d) && p[|d|] == n;
    assert p[..|d|] == d;
    assert p == p[..|d|] + [p[|d|]];
  }

  /** Whatever lies below a directory lies inside one of the entries readdir lists for it. */
  lemma BelowIsListed(nodes: map<Path, Node>, d: Path, p: Path)
    requires WellFormed(nodes) && p in nodes && |p| > |d| && d <= p
    ensures p[|d|] in ChildNames(nodes, d)
  {
    var c := p[..|d| + 1];
    if |c| < |p| {
      AncestorIsDir(nodes, p, |d| + 1);
    } else {
      assert c == p;
    }
    assert c in nodes && IsChild(c, d) && c[|d|] == p[|d|];
  }

  /**
   * cleanupDirectory(dirPath): a directory goes with everything below it,
   * subdirectories first; a missing path is left alone; a file makes readdir
   * reject, changing nothing.
   */
  method CleanupDirectory(disk: Disk, d: Path) returns (r: Result<()>)
    requires disk.Valid()
    modifies disk
    ensures disk.Valid()
    ensures d !in old(disk.nodes) ==> r.Ok? && disk.nodes == old(disk.nodes)
    ensures d in old(disk.nodes) && old(disk.nodes)[d].File? ==> r == Err(NotADirectory) && disk.nodes == old(disk.nodes)
    ensures d in old(disk.nodes) && old(disk.nodes)[d].Dir? ==> r.Ok? && disk.nodes == RemoveTree(old(disk.nodes), d)
    decreases |Tree(disk.nodes, d)|
  {
    if d !in disk.nodes {
      return Ok(());
    }
    if disk.nodes[d].File? {
      return Err(NotADirectory);
    }
    var names := disk.ReadDir(d);
    ghost var start := disk.nodes;
    var i := 0;
    while i < |names|
      invariant 0 <= i <= |names|
      invariant disk.Valid()
      invariant disk.nodes == Remaining(start, d, names[..i])
    {
      var child := JoinPath(d, names[i]);
      ListedChildExists(start, d, names[i]);
      assert names[i] !in names[..i];
      assert names[..i + 1] == names[..i] + [names[i]];
      if disk.nodes[child].Dir? {
        assert Tree(disk.nodes, child) <= Tree(start, d) - {d};
        SubsetSmaller(Tree(disk.nodes, child), Tree(start, d), d);
        var _ := CleanupDirectory(disk, child);
        RemainingAfterSubtree(start, d, names[..i], names[i]);
      } else {
        var _ := disk.Unlink(child);
        RemainingAfterFile(start, d, names[..i], names[i]);
      }
      i := i + 1;
    }
    assert names[..i] == names;
    RemainingAfterAll(start, d, names);
    var removed := disk.Rmdir(d);
    assert removed;
    r := Ok(());
  }

  /** The disk once the entries `done` of `d` have been removed with everything below them. */
  function Remaining(start: map<Path, Node>, d: Path, done: seq<Name>): map<Path, Node> {
    map p | p in start && !BelowOneOf(p, d, done) :: start[p]
  }

  lemma RemainingAfterSubtree(start: map<Path, Node>, d: Path, done: seq<Name>, n: Name)
    ensures RemoveTree(Remaining(start, d, done), JoinPath(d, n)) == Remaining(start, d, done + [n])
  {
    var child := JoinPath(d, n);
    forall p ensures Within(p, child) <==> |p| > |d| && d <= p && p[|d|] == n {
      if |p| > |d| && d <= p && p[|d|] == n {
        assert p[..|d|] == d;
        assert p[..|child|] == p[..|d|] + [p[|d|]];
      }
    }
  }

  lemma RemainingAfterFile(start: map<Path, Node>, d: Path, done: seq<Name>, n: Name)
    requires WellFormed(start) && JoinPath(d, n) in start && start[JoinPath(d, n)].File?
    requires n !in done
    ensures Remaining(start, d, done) - {JoinPath(d, n)} == Remaining(start, d, done + [n])
  {
    var child := JoinPath(d, n);
    forall p | p in start && |p| > |d| && d <= p && p[|d|] == n ensures p == child {
      assert p[..|d|] == d;
      assert p[..|child|] == p[..|d|] + [p[|d|]];
      FileIsLeaf(start, child, p);
    }
  }

  /** Once every listed entry is gone, the directory itself is all that remains of its tree. */
  lemma RemainingAfterAll(start: map<Path, Node>, d: Path, names: seq<Name>)
    requires WellFormed(start) && d in start && start[d].Dir?
    requires forall n :: n in names <==> n in ChildNames(start, d)
    ensures IsEmptyDir(Remaining(start, d, names), d)
    ensures Remaining(start, d, names) - {d} == RemoveTree(start, d)
  {
    var rest := Remaining(start, d, names);
    forall q | q in rest ensures !IsChild(q, d) {
      if IsChild(q, d) {
        BelowIsListed(start, d, q);
      }
    }
    forall p | p in start && Within(p, d) && p != d ensures BelowOneOf(p, d, names) {
      assert |p| > |d|;
      BelowIsListed(start, d, p);
    }
  }
}
