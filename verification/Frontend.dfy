/**
 * frontend/app.js: which upload endpoint a file goes to, the status poll
 * that runs until the job ends or the attempt budget is spent, and how a
 * finished job's output path becomes the media and download links.
 */
module Frontend {
  import opened Wrappers
  import opened Text
  import opened FileSystem
  import JobQueue
  import VideoProcessor

  const ImageEndpoint: string := "/api/upload/image"
  const VideoEndpoint: string := "/api/upload/video"
  const ProcessedPrefix: string := "/processed/"
  const VideoDownloadName: string := "background_removed_video.mp4"
  const ImageDownloadName: string := "background_removed_image.png"
  /** 300 polls two seconds apart: ten minutes. */
  const MaxAttempts: nat := 300
  const PollIntervalMs: nat := 2000

  // ---------------------------------------------------------------------------
  // processFile
  // ---------------------------------------------------------------------------

  /** `type === 'image' ? '/api/upload/image' : '/api/upload/video'`. */
  function Endpoint(kind: string): (url: string)
    ensures url == ImageEndpoint <==> kind == "image"
    ensures url == VideoEndpoint <==> kind != "image"
  {
    if kind == "image" then ImageEndpoint else VideoEndpoint
  }

  // ---------------------------------------------------------------------------
  // showResult
  // ---------------------------------------------------------------------------

  /** What showResult puts on the page: which player, its source, and the download link. */
  datatype ResultView = ResultView(video: bool, src: string, href: string, download: string)

  /** `endsWith('.mp4') || endsWith('.mov') || endsWith('.avi')`. */
  predicate IsVideo(outputPath: string) {
    EndsWith(outputPath, ".mp4") || EndsWith(outputPath, ".mov") || EndsWith(outputPath, ".avi")
  }

  /** `outputPath.split('/').pop()`. */
  function LastSegment(outputPath: string): string {
    var parts := Split(outputPath, '/');
    parts[|parts| - 1]
  }

  /** `/processed/${outputPath.split('/').pop()}`. */
  function ProcessedUrl(outputPath: string): (url: string)
    ensures url == ProcessedPrefix + LastSegment(outputPath)
    ensures forall i :: |ProcessedPrefix| <= i < |url| ==> url[i] != '/'
  {
    ProcessedPrefix + LastSegment(outputPath)
  }

  /** showResult(outputPath). */
  function ShowResult(outputPath: string): (v: ResultView)
    ensures v.video <==> IsVideo(outputPath)
    ensures v.src == v.href == ProcessedUrl(outputPath)
    ensures v.download == if v.video then VideoDownloadName else ImageDownloadName
  {
    var url := ProcessedUrl(outputPath);
    if IsVideo(outputPath) then ResultView(true, url, url, VideoDownloadName)
    else ResultView(false, url, url, ImageDownloadName)
  }

  /**
   * The segment taken is the text after the last '/': a suffix of the path
   * with no '/' in it, preceded by a '/' unless it is the whole path.
   */
  lemma LastSegmentIsSuffix(outputPath: string)
    ensures '/' !in LastSegment(outputPath)
    ensures EndsWith(outputPath, LastSegment(outputPath))
    ensures var n := |outputPath| - |LastSegment(outputPath)|; n == 0 || outputPath[n - 1] == '/'
  {
    var parts := Split(outputPath, '/');
    assert '/' !in parts[|parts| - 1];
    JoinLast(parts, '/');
  }

  lemma {:induction false} JoinLast(parts: seq<string>, sep: char)
    requires |parts| >= 1
    ensures EndsWith(Join(parts, sep), parts[|parts| - 1])
    ensures |parts| == 1 ==> Join(parts, sep) == parts[0]
    ensures |parts| > 1 ==> var s, last := Join(parts, sep), parts[|parts| - 1];
      |s| > |last| && s[|s| - |last| - 1] == sep
  {
    if |parts| > 1 {
      var rest := Join(parts[1..], sep);
      JoinLast(parts[1..], sep);
      assert parts[1..][|parts[1..]| - 1] == parts[|parts| - 1];
      var s := Join(parts, sep);
      assert s == (parts[0] + [sep]) + rest;
      var last := parts[|parts| - 1];
      assert s[|s| - |rest|..] == rest;
      if |rest| == |last| {
        assert rest == last;
        assert s[|s| - |last| - 1] == sep;
      } else {
        assert s[|s| - |last| - 1] == rest[|rest| - |last| - 1];
      }
    }
  }

  /** The path string path.join gives for a path whose names hold no '/'. */
  function PathString(p: Path): string {
    Join(p, '/')
  }

  /** For a path built by path.join, the segment taken is the file's own name. */
  lemma LastSegmentOfPath(p: Path)
    requires |p| >= 1
    requires forall i :: 0 <= i < |p| ==> '/' !in p[i]
    ensures LastSegment(PathString(p)) == p[|p| - 1]
  {
    SplitJoin(p, '/');
  }

  /**
   * Every job's output is named output.png or output.mp4 inside its own
   * job directory, so the links shown never depend on the job: every video
   * job links /processed/output.mp4 and every image job
   * /processed/output.png.
   */
  lemma JobResultViews(tempDir: Path, id: JobQueue.JobId)
    requires forall i :: 0 <= i < |tempDir| ==> '/' !in tempDir[i]
    requires '/' !in id
    ensures var url := ProcessedPrefix + VideoProcessor.OutputVideoName;
      ShowResult(PathString(JobQueue.VideoOutputPath(JobQueue.JobDir(tempDir, id)))) == ResultView(true, url, url, VideoDownloadName)
    ensures var url := ProcessedPrefix + JobQueue.ImageOutputName;
      ShowResult(PathString(JobQueue.ImageOutputPath(JobQueue.JobDir(tempDir, id)))) == ResultView(false, url, url, ImageDownloadName)
  {
    var dir := JobQueue.JobDir(tempDir, id);
    assert '/' !in JobQueue.JobDirPrefix + id;
    assert forall i :: 0 <= i < |dir| ==> '/' !in dir[i] by {
      assert forall i :: 0 <= i < |tempDir| ==> dir[i] == tempDir[i];
    }
    OutputView(dir, VideoProcessor.OutputVideoName, ".mp4", true);
    OutputView(dir, JobQueue.ImageOutputName, ".png", false);
  }

  lemma OutputView(dir: Path, name: Name, extension: string, video: bool)
    requires forall i :: 0 <= i < |dir| ==> '/' !in dir[i]
    requires name == "output" + extension && '/' !in name
    requires extension == ".mp4" || extension == ".png"
    requires video <==> extension == ".mp4"
    ensures ShowResult(PathString(JoinPath(dir, name)))
      == ResultView(video, ProcessedPrefix + name, ProcessedPrefix + name, if video then VideoDownloadName else ImageDownloadName)
  {
    var p := JoinPath(dir, name);
    var s := PathString(p);
    LastSegmentOfPath(p);
    LastSegmentIsSuffix(s);
    var tail := s[|s| - 4..];
    assert tail == extension by {
      assert s[|s| - |name|..] == name;
      assert name[|name| - 4..] == extension;
    }
    assert IsVideo(s) <==> video by {
      assert EndsWith(s, ".mp4") <==> tail == ".mp4";
      assert EndsWith(s, ".mov") <==> tail == ".mov";
      assert EndsWith(s, ".avi") <==> tail == ".avi";
    }
  }

  // ---------------------------------------------------------------------------
  // pollJobStatus
  // ---------------------------------------------------------------------------

  /**
   * What one GET /api/jobs/:id brings back: Unavailable when the fetch
   * throws, the response is not ok or `success` is false; otherwise the
   * job's status and, when present, `job.result.outputPath`.
   */
  datatype Reply = Unavailable | Answer(status: string, outputPath: Option<string>)

  /** How polling ends. */
  datatype PollEnd = Shown(view: ResultView) | JobFailed | TimedOut

  /**
   * One poll's verdict on a reply: the result is shown on 'completed', the
   * poll stops on 'failed', and anything else (another status, an
   * unavailable reply, a completed job with no output path, whose
   * TypeError lands in the same catch) schedules the next poll.
   */
  function Verdict(reply: Reply): (r: Option<PollEnd>)
    ensures r.Some? <==> reply.Answer? && (reply.status == "failed" || (reply.status == "completed" && reply.outputPath.Some?))
    ensures r.Some? ==> !r.value.TimedOut?
  {
    match reply
    case Unavailable => None
    case Answer(status, outputPath) =>
      if status == "completed" then
        match outputPath
        case Some(p) => Some(Shown(ShowResult(p)))
        case None => None
      else if status == "failed" then Some(JobFailed)
      else None
  }

  /**
   * pollJobStatus: `replies(k)` is the answer to the (k+1)-th fetch. Each
   * poll first counts an attempt and gives up, without fetching, once the
   * count passes 300; the timer between polls is not modelled. Polling
   * ends at the first reply with a verdict, and times out only when none
   * of the 300 fetched replies has one.
   */
  method PollJobStatus(replies: nat -> Reply) returns (end: PollEnd, fetches: nat)
    ensures fetches <= MaxAttempts
    ensures forall k :: 0 <= k < fetches - 1 ==> Verdict(replies(k)).None?
    ensures end.TimedOut? <==> forall k :: 0 <= k < MaxAttempts ==> Verdict(replies(k)).None?
    ensures end.TimedOut? ==> fetches == MaxAttempts && Verdict(replies(fetches - 1)).None?
    ensures !end.TimedOut? ==> 1 <= fetches && Verdict(replies(fetches - 1)) == Some(end)
  {
    var attempts := 0;
    fetches := 0;
    while true
      invariant attempts == fetches <= MaxAttempts
      invariant forall k :: 0 <= k < fetches ==> Verdict(replies(k)).None?
      decreases MaxAttempts - attempts
    {
      attempts := attempts + 1;
      if attempts > MaxAttempts {
        end := TimedOut;
        return;
      }
      var reply := replies(fetches);
      fetches := fetches + 1;
      var verdict := Verdict(reply);
      if verdict.Some? {
        end := verdict.value;
        return;
      }
    }
  }
}
