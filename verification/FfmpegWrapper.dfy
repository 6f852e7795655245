/**
 * backend/ffmpeg/ffmpeg-wrapper.js: what the core relies on from the ffmpeg
 * wrapper. The decoding and encoding themselves are ffmpeg's; the model keeps
 * the frame naming contract shared by extraction and composition, the fps
 * defaults, how extraction turns ffmpeg's events into its result, and how the
 * metadata probe picks its stream and writes the resolution.
 */
module FfmpegWrapper {
  import opened Wrappers
  import opened Text
  import opened FileSystem

  /** Frame rates pass through unchanged; JavaScript treats 0 as falsy. */
  type Fps = real

  const DefaultFps: Fps := 30.0

  /** The printf-style pattern given to ffmpeg for writing and for reading frames. */
  const FramePattern: Name := "frame_%06d.png"

  const FrameNameWidth: nat := 6

  /** The file ffmpeg writes under FramePattern for frame number i: `%06d` pads with zeros to six digits. */
  function FrameName(i: nat): Name {
    "frame_" + ZeroPad(i, FrameNameWidth) + ".png"
  }

  /** Reads a frame number back from a name of FramePattern's shape. */
  function FrameIndex(name: Name): (r: Option<nat>)
    ensures r.Some? ==> StartsWith(name, "frame_") && EndsWith(name, ".png")
  {
    if |name| >= 10 && name[..6] == "frame_" && name[|name| - 4..] == ".png" && AllDigits(name[6..|name| - 4])
    then Some(DigitsValue(name[6..|name| - 4]))
    else None
  }

  /** Every frame name reads back as its own number. */
  lemma FrameNameIndex(i: nat)
    ensures FrameIndex(FrameName(i)) == Some(i)
  {
    var digits := ZeroPad(i, FrameNameWidth);
    var name := FrameName(i);
    assert |digits| >= 6;
    assert name[..6] == "frame_";
    assert name[|name| - 4..] == ".png";
    assert name[6..|name| - 4] == digits;
    ZeroPadValue(i, FrameNameWidth);
  }

  /** Distinct frame numbers give distinct file names. */
  lemma FrameNameInjective(i: nat, j: nat)
    requires FrameName(i) == FrameName(j)
    ensures i == j
  {
    FrameNameIndex(i);
    FrameNameIndex(j);
  }

  /** Frame names pass the pipeline's ".png" filter. */
  lemma FrameNameIsPng(i: nat)
    ensures EndsWith(FrameName(i), ".png")
  {
    var name := FrameName(i);
    assert name[|name| - 4..] == ".png";
  }

  /**
   * Below a million frames, the lexical order of frame names (the order of
   * JavaScript's default sort) is the numeric order of the frames.
   */
  lemma FrameNameOrder(i: nat, j: nat)
    requires i < 1000000 && j < 1000000
    ensures LexLess(FrameName(i), FrameName(j)) <==> i < j
  {
    assert Pow10(6) == 1000000;
    ZeroPadLength(i, FrameNameWidth);
    ZeroPadLength(j, FrameNameWidth);
    var a, b := ZeroPad(i, FrameNameWidth), ZeroPad(j, FrameNameWidth);
    ZeroPadValue(i, FrameNameWidth);
    ZeroPadValue(j, FrameNameWidth);
    assert FrameName(i) == "frame_" + (a + ".png");
    assert FrameName(j) == "frame_" + (b + ".png");
    LexLessCommonPrefix("frame_", a + ".png", b + ".png");
    if a == b {
      LexLessIrreflexive(a + ".png");
    } else {
      LexLessAppend(a, b, ".png", ".png");
      DigitsOrder(a, b);
    }
  }

  /** A lexically sorted list of frame names lists the frames in ascending order. */
  lemma SortedFramesAscend(names: seq<Name>, frames: seq<nat>)
    requires |names| == |frames| && LexSorted(names)
    requires forall k :: 0 <= k < |frames| ==> frames[k] < 1000000 && names[k] == FrameName(frames[k])
    ensures forall k, l :: 0 <= k < l < |frames| ==> frames[k] <= frames[l]
  {
    forall k, l | 0 <= k < l < |frames| ensures frames[k] <= frames[l] {
      assert LexLessEq(names[k], names[l]);
      FrameNameOrder(frames[k], frames[l]);
      FrameNameOrder(frames[l], frames[k]);
      if names[k] == names[l] {
        FrameNameInjective(frames[k], frames[l]);
      }
    }
  }

  // ---------------------------------------------------------------------------
  // extractFrames
  // ---------------------------------------------------------------------------

  /** The events fluent-ffmpeg emits while extracting. */
  datatype FfmpegEvent =
    | CodecData(videoFps: Option<Fps>)
    | Filenames(names: seq<Name>)
    | End
    | Error(message: string)

  /** How a promise ended: resolved, rejected, or never settled. */
  datatype Settlement<T> = Resolved(value: T) | Rejected(message: string) | Unsettled

  datatype Extraction = Extraction(frameCount: nat, fps: Fps)

  predicate Truthy(v: Option<Fps>) {
    v.Some? && v.value != 0.0
  }

  predicate Settles(e: FfmpegEvent) {
    e.End? || e.Error?
  }

  /** `data.video_fps || 30`. */
  function FpsOrDefault(v: Option<Fps>): Fps {
    if Truthy(v) then v.value else DefaultFps
  }

  /** The fps variable after the given events: 30 until a codecData event sets it. */
  function FpsAfter(events: seq<FfmpegEvent>): Fps {
    if events == [] then DefaultFps
    else match events[|events| - 1]
      case CodecData(v) => FpsOrDefault(v)
      case _ => FpsAfter(events[..|events| - 1])
  }

  /** The frameCount variable after the given events: 0 until a filenames event sets it. */
  function CountAfter(events: seq<FfmpegEvent>): nat {
    if events == [] then 0
    else match events[|events| - 1]
      case Filenames(names) => |names|
      case _ => CountAfter(events[..|events| - 1])
  }

  /** The position of the first 'end' or 'error' event, the one that settles the promise. */
  function FirstSettle(events: seq<FfmpegEvent>): (r: Option<nat>)
    ensures r.Some? ==> r.value < |events| && Settles(events[r.value])
    ensures r.Some? ==> forall k :: 0 <= k < r.value ==> !Settles(events[k])
    ensures r.None? ==> forall k :: 0 <= k < |events| ==> !Settles(events[k])
  {
    if events == [] then None
    else if Settles(events[0]) then Some(0)
    else match FirstSettle(events[1..])
      case None => None
      case Some(k) => Some(k + 1)
  }

  /**
   * How the extraction promise settles: never, when no 'end' or 'error'
   * arrives; otherwise as the first of them decides, with the frame count
   * and fps the events before it left behind.
   */
  function ExtractionOutcome(events: seq<FfmpegEvent>): Settlement<Extraction> {
    match FirstSettle(events)
    case None => Unsettled
    case Some(k) =>
      match events[k]
      case Error(m) => Rejected(m)
      case _ => Resolved(Extraction(CountAfter(events[..k]), FpsAfter(events[..k])))
  }

  /**
   * extractFrames: the 'codecData' and 'filenames' handlers update fps and
   * frameCount; the first 'end' resolves with both, the first 'error' rejects.
   */
  method ExtractFrames(events: seq<FfmpegEvent>) returns (outcome: Settlement<Extraction>)
    ensures outcome == ExtractionOutcome(events)
  {
    var frameCount: nat := 0;
    var fps := DefaultFps;
    outcome := Unsettled;
    var i := 0;
    while i < |events| && outcome.Unsettled?
      invariant 0 <= i <= |events|
      invariant forall k :: 0 <= k < i - 1 ==> !Settles(events[k])
      invariant outcome.Unsettled? ==> forall k :: 0 <= k < i ==> !Settles(events[k])
      invariant outcome.Unsettled? ==> fps == FpsAfter(events[..i]) && frameCount == CountAfter(events[..i])
      invariant !outcome.Unsettled? ==> i >= 1 && Settles(events[i - 1]) && outcome == match events[i - 1]
        case Error(m) => Rejected(m)
        case _ => Resolved(Extraction(CountAfter(events[..i - 1]), FpsAfter(events[..i - 1])))
    {
      assert events[..i + 1][..i] == events[..i];
      match events[i] {
        case CodecData(v) =>
          fps := FpsOrDefault(v);
        case Filenames(names) =>
          frameCount := |names|;
        case End =>
          outcome := Resolved(Extraction(frameCount, fps));
        case Error(m) =>
          outcome := Rejected(m);
      }
      i := i + 1;
    }
  }

  /** Extraction's fps is never falsy: 30 unless a codecData event supplied a truthy video_fps. */
  lemma {:induction false} ExtractedFpsSource(events: seq<FfmpegEvent>)
    ensures FpsAfter(events) != 0.0
    ensures FpsAfter(events) == DefaultFps
      || exists k :: 0 <= k < |events| && events[k] == CodecData(Some(FpsAfter(events)))
  {
    if events != [] {
      var init := events[..|events| - 1];
      ExtractedFpsSource(init);
      if !events[|events| - 1].CodecData? && FpsAfter(init) != DefaultFps {
        var k :| 0 <= k < |init| && init[k] == CodecData(Some(FpsAfter(init)));
        assert events[k] == init[k];
      }
    }
  }

  /** Without a codecData event carrying a truthy video_fps, extraction reports 30 fps. */
  lemma {:induction false} ExtractedFpsDefault(events: seq<FfmpegEvent>)
    requires forall k :: 0 <= k < |events| && events[k].CodecData? ==> !Truthy(events[k].videoFps)
    ensures FpsAfter(events) == DefaultFps
  {
    if events != [] {
      ExtractedFpsDefault(events[..|events| - 1]);
    }
  }

  /** frameCount is the length of a reported filename list, and 0 when none is reported. */
  lemma {:induction false} ExtractedCountSource(events: seq<FfmpegEvent>)
    ensures (forall k :: 0 <= k < |events| ==> !events[k].Filenames?) ==> CountAfter(events) == 0
    ensures (exists k :: 0 <= k < |events| && events[k].Filenames?) ==>
      exists k :: 0 <= k < |events| && events[k].Filenames? && |events[k].names| == CountAfter(events)
  {
    if events != [] {
      var init := events[..|events| - 1];
      ExtractedCountSource(init);
      if !events[|events| - 1].Filenames? {
        if exists k :: 0 <= k < |events| && events[k].Filenames? {
          var k :| 0 <= k < |events| && events[k].Filenames?;
          assert init[k] == events[k];
          var k' :| 0 <= k' < |init| && init[k'].Filenames? && |init[k'].names| == CountAfter(init);
          assert events[k'] == init[k'];
        } else {
          forall k | 0 <= k < |init| ensures !init[k].Filenames? {
            assert init[k] == events[k];
          }
        }
      }
    }
  }

  // ---------------------------------------------------------------------------
  // createVideoFromFrames
  // ---------------------------------------------------------------------------

  /** The ffmpeg invocation createVideoFromFrames builds. */
  datatype ComposeCommand = ComposeCommand(input: Path, inputFps: Fps, output: Path)

  /** The ffmpeg invocation extractFrames builds. */
  datatype ExtractCommand = ExtractCommand(input: Path, output: Path)

  function ExtractFramesCommand(videoPath: Path, outputDir: Path): ExtractCommand {
    ExtractCommand(videoPath, JoinPath(outputDir, FramePattern))
  }

  /** createVideoFromFrames(framesDir, outputPath, fps = 30): the default applies only when fps is not given. */
  function CreateVideoCommand(framesDir: Path, outputPath: Path, fps: Option<Fps>): (c: ComposeCommand)
    ensures fps.None? ==> c.inputFps == DefaultFps
    ensures fps.Some? ==> c.inputFps == fps.value
    ensures c.output == outputPath
  {
    ComposeCommand(JoinPath(framesDir, FramePattern), if fps.Some? then fps.value else DefaultFps, outputPath)
  }

  /** Composition reads a directory with the very pattern extraction writes with. */
  lemma ComposeReadsExtractPattern(videoPath: Path, dir: Path, outputPath: Path, fps: Option<Fps>)
    ensures CreateVideoCommand(dir, outputPath, fps).input == ExtractFramesCommand(videoPath, dir).output
    ensures CreateVideoCommand(dir, outputPath, fps).input[|dir|] == FramePattern
  {
  }

  // ---------------------------------------------------------------------------
  // getVideoMetadata
  // ---------------------------------------------------------------------------

  datatype Stream = Stream(codecType: string, width: nat, height: nat, frameRate: string)

  datatype ProbeData = ProbeData(streams: seq<Stream>, duration: real)

  datatype Metadata = Metadata(duration: real, fps: string, resolution: string)

  /** `streams.find(s => s.codec_type === 'video')`, as an index. */
  function FirstVideoStream(streams: seq<Stream>): (r: Option<nat>)
    ensures r.Some? ==> r.value < |streams| && streams[r.value].codecType == "video"
    ensures r.Some? ==> forall k :: 0 <= k < r.value ==> streams[k].codecType != "video"
    ensures r.None? ==> forall k :: 0 <= k < |streams| ==> streams[k].codecType != "video"
  {
    if streams == [] then None
    else if streams[0].codecType == "video" then Some(0)
    else match FirstVideoStream(streams[1..])
      case None => None
      case Some(k) => Some(k + 1)
  }

  /** `${width}x${height}`. */
  function Resolution(width: nat, height: nat): string {
    DecimalDigits(width) + "x" + DecimalDigits(height)
  }

  /** The resolution string splits at its one 'x' back into the width and the height. */
  lemma ResolutionRoundTrip(width: nat, height: nat)
    ensures Split(Resolution(width, height), 'x') == [DecimalDigits(width), DecimalDigits(height)]
    ensures DigitsValue(DecimalDigits(width)) == width && DigitsValue(DecimalDigits(height)) == height
  {
    var w, h := DecimalDigits(width), DecimalDigits(height);
    assert 'x' !in w && 'x' !in h by {
      assert forall i :: 0 <= i < |w| ==> IsDigit(w[i]);
      assert forall i :: 0 <= i < |h| ==> IsDigit(h[i]);
    }
    SplitJoin([w, h], 'x');
    assert Join([w, h], 'x') == w + ['x'] + Join([h], 'x');
    DecimalDigitsValue(width);
    DecimalDigitsValue(height);
  }

  /**
   * getVideoMetadata: a probe error rejects; otherwise the first video stream
   * gives fps and resolution. With no video stream the TypeError escapes the
   * ffprobe callback and the promise never settles.
   */
  function GetVideoMetadata(probe: Result<ProbeData>): (r: Settlement<Metadata>)
    ensures probe.Err? ==> r == Rejected(probe.error)
    ensures probe.Ok? && FirstVideoStream(probe.value.streams).None? ==> r.Unsettled?
    ensures probe.Ok? && FirstVideoStream(probe.value.streams).Some? ==>
      var s := probe.value.streams[FirstVideoStream(probe.value.streams).value];
      r.Resolved? && r.value.fps == s.frameRate && r.value.duration == probe.value.duration &&
      Split(r.value.resolution, 'x') == [DecimalDigits(s.width), DecimalDigits(s.height)]
  {
    match probe
    case Err(e) => Rejected(e)
    case Ok(data) =>
      match FirstVideoStream(data.streams)
      case None => Unsettled
      case Some(k) =>
        var s := data.streams[k];
        ResolutionRoundTrip(s.width, s.height);
        Resolved(Metadata(data.duration, s.frameRate, Resolution(s.width, s.height)))
  }
}
