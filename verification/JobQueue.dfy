/**
 * backend/services/queue.js: the image and video job queues, the job
 * handlers that run on them, and the delayed removal of a completed job's
 * working directory. The queues are two maps from job id to job; the
 * timers `setTimeout` starts are recorded as due clean-up tasks that
 * `RunDueCleanups` carries out.
 */
module JobQueue {
  import opened Wrappers
  import opened FileSystem
  import opened FfmpegWrapper
  import opened VideoProcessor

  type JobId = string

  const JobDirPrefix: string := "job_"
  const ImageOutputName: Name := "output.png"
  const RemovalStartMessage: string := "Starting background removal..."
  const RemovalDoneMessage: string := "Background removal complete!"
  const MaxAttempts: nat := 3
  const BackoffMs: nat := 5000
  /** A completed job's directory goes one hour after completion. */
  const CleanupDelayMs: nat := 60 * 60 * 1000

  /** `job.data`: the requested type, passed through unchecked, and the uploaded file. */
  datatype JobData = JobData(kind: string, filePath: Path)
  /** `job.opts` as createJob passes them. */
  datatype JobOptions = JobOptions(attempts: nat, backoff: nat)
  /**
   * Where a job stands. A failed attempt with attempts left puts the job
   * back as Delayed until its backoff has passed (Waiting when the backoff
   * is 0); the reason of the failure is kept.
   */
  datatype JobState =
    | Waiting
    | Active
    | Delayed(until: int, reason: string)
    | Completed(outputPath: Path)
    | Failed(reason: string)
  /**
   * A job with the number of its attempts that have failed so far and the
   * progress reports its handler pushed onto it, across all attempts.
   */
  datatype Job = Job(id: JobId, data: JobData, opts: JobOptions, state: JobState, attemptsMade: nat, progress: seq<Progress>)
  /** A pending `setTimeout(() => cleanupDirectory(dir), …)`. */
  datatype CleanupTask = CleanupTask(due: int, dir: Path)

  /** path.join(TEMP_DIR, `job_${id}`). */
  function JobDir(tempDir: Path, id: JobId): Path {
    JoinPath(tempDir, JobDirPrefix + id)
  }

  /**
   * Jobs of one queue never share a working directory. (An image job and a
   * video job with the same id do: both queues use the same pattern.)
   */
  lemma JobDirsDistinct(tempDir: Path, a: JobId, b: JobId)
    requires a != b
    ensures JobDir(tempDir, a) != JobDir(tempDir, b)
    ensures JobDir(tempDir, a)[..|tempDir|] == tempDir
  {
    var na := JobDirPrefix + a;
    var nb := JobDirPrefix + b;
    assert JobDir(tempDir, a)[|tempDir|] == na && JobDir(tempDir, b)[|tempDir|] == nb;
    assert na[|JobDirPrefix|..] == a && nb[|JobDirPrefix|..] == b;
  }

  function ImageOutputPath(jobDir: Path): Path {
    JoinPath(jobDir, ImageOutputName)
  }

  /** The path the video handler returns: the very path processVideo resolves with. */
  function VideoOutputPath(jobDir: Path): (p: Path)
    ensures p == OutputVideoPath(jobDir) && p[..|jobDir|] == jobDir && p[|jobDir|] == OutputVideoName
  {
    JoinPath(jobDir, OutputVideoName)
  }

  /**
   * The state a run of the handler leaves its job in, when `attemptsMade`
   * earlier attempts have failed: a resolved run completes the job; a
   * rejected run fails it for good only when it was the last of
   * `opts.attempts`, and otherwise the job is retried after `opts.backoff`
   * milliseconds; a handler that never settles leaves the job active.
   */
  function StateAfter(outcome: Settlement<Path>, attemptsMade: nat, opts: JobOptions, now: int): (s: JobState)
    ensures s.Completed? <==> outcome.Resolved?
    ensures s.Failed? <==> outcome.Rejected? && attemptsMade + 1 >= opts.attempts
    ensures s.Delayed? <==> outcome.Rejected? && attemptsMade + 1 < opts.attempts && opts.backoff > 0
    ensures s.Waiting? <==> outcome.Rejected? && attemptsMade + 1 < opts.attempts && opts.backoff == 0
    ensures s.Active? <==> outcome.Unsettled?
    ensures outcome.Resolved? ==> s.outputPath == outcome.value
    ensures (s.Failed? || s.Delayed?) ==> s.reason == outcome.message
    ensures s.Delayed? ==> s.until == now + opts.backoff
  {
    match outcome
    case Resolved(p) => Completed(p)
    case Rejected(m) =>
      if attemptsMade + 1 >= opts.attempts then Failed(m)
      else if opts.backoff > 0 then Delayed(now + opts.backoff, m)
      else Waiting
    case Unsettled => Active
  }

  /**
   * The job once a run of its handler has ended as `outcome` at `now`,
   * having reported `reports`: a rejection counts one more failed attempt.
   */
  function AfterRun(job: Job, outcome: Settlement<Path>, reports: seq<Progress>, now: int): Job {
    job.(state := StateAfter(outcome, job.attemptsMade, job.opts, now),
         attemptsMade := if outcome.Rejected? then job.attemptsMade + 1 else job.attemptsMade,
         progress := job.progress + reports)
  }

  /**
   * A job as createJob adds it fails for good only at its third rejection:
   * the first two put it back for another attempt 5000 ms later, and an
   * attempt that then resolves completes it.
   */
  lemma RetriedTwice(job: Job, m1: string, m2: string, m3: string, t1: int, t2: int, t3: int, p: Path)
    requires job.opts == JobOptions(MaxAttempts, BackoffMs) && job.attemptsMade == 0
    ensures var j1 := AfterRun(job, Rejected(m1), [], t1);
      var j2 := AfterRun(j1, Rejected(m2), [], t2);
      var j3 := AfterRun(j2, Rejected(m3), [], t3);
      && j1.state == Delayed(t1 + BackoffMs, m1)
      && j2.state == Delayed(t2 + BackoffMs, m2)
      && j3.state == Failed(m3) && j3.attemptsMade == MaxAttempts
      && AfterRun(j1, Resolved(p), [], t2).state == Completed(p)
      && AfterRun(j2, Resolved(p), [], t3).state == Completed(p)
  {
  }

  class Queues {
    const tempDir: Path
    var imageJobs: map<JobId, Job>
    var videoJobs: map<JobId, Job>
    var cleanups: seq<CleanupTask>

    /**
     * Every job is filed under its own id, and it sits in the image queue
     * exactly when its type is 'image'.
     */
    ghost predicate Valid()
      reads this
    {
      && (forall id :: id in imageJobs ==> imageJobs[id].id == id && imageJobs[id].data.kind == "image")
      && (forall id :: id in videoJobs ==> videoJobs[id].id == id && videoJobs[id].data.kind != "image")
    }

    constructor (tempDir: Path)
      ensures Valid()
      ensures this.tempDir == tempDir && imageJobs == map[] && videoJobs == map[] && cleanups == []
    {
      this.tempDir := tempDir;
      imageJobs := map[];
      videoJobs := map[];
      cleanups := [];
    }

    /** The module's start-up: TEMP_DIR is created unless something exists there. */
    method Start(disk: Disk, now: int) returns (ok: bool)
      requires disk.Valid()
      modifies disk
      ensures disk.Valid()
      ensures ok <==> Ensured(old(disk.nodes), tempDir, now).Some?
      ensures disk.nodes == if ok then Ensured(old(disk.nodes), tempDir, now).value else old(disk.nodes)
    {
      ok := disk.EnsureDir(tempDir, now);
    }

    /**
     * createJob(type, filePath): the job goes to the image queue when `kind`
     * is exactly "image" and to the video queue otherwise, whatever `kind`
     * is; it carries the type and path as data and three attempts with a
     * 5000 ms backoff. The queue assigns `id`, which it has not used before.
     */
    method CreateJob(kind: string, filePath: Path, id: JobId) returns (job: Job)
      requires Valid()
      requires id !in (if kind == "image" then imageJobs else videoJobs)
      modifies this
      ensures Valid()
      ensures job == Job(id, JobData(kind, filePath), JobOptions(MaxAttempts, BackoffMs), Waiting, 0, [])
      ensures kind == "image" ==> imageJobs == old(imageJobs)[id := job] && videoJobs == old(videoJobs)
      ensures kind != "image" ==> videoJobs == old(videoJobs)[id := job] && imageJobs == old(imageJobs)
      ensures cleanups == old(cleanups)
    {
      job := Job(id, JobData(kind, filePath), JobOptions(MaxAttempts, BackoffMs), Waiting, 0, []);
      if kind == "image" {
        imageJobs := imageJobs[id := job];
      } else {
        videoJobs := videoJobs[id := job];
      }
    }

    /**
     * getJob(jobId): the image queue is asked first, the video queue only
     * when the image queue has no such job; an image job therefore hides a
     * video job with the same id.
     */
    method GetJob(id: JobId) returns (job: Option<Job>)
      ensures id in imageJobs ==> job == Some(imageJobs[id])
      ensures id !in imageJobs && id in videoJobs ==> job == Some(videoJobs[id])
      ensures job.None? <==> id !in imageJobs && id !in videoJobs
    {
      job := if id in imageJobs then Some(imageJobs[id]) else None;
      if job.None? {
        job := if id in videoJobs then Some(videoJobs[id]) else None;
      }
    }

    /**
     * removeJob(jobId): false, changing nothing, when getJob finds no job;
     * otherwise the job getJob found leaves its own queue and the result is
     * true. Working directories and pending clean-ups are left alone.
     */
    method RemoveJob(id: JobId) returns (removed: bool)
      requires Valid()
      modifies this
      ensures Valid()
      ensures removed <==> id in old(imageJobs) || id in old(videoJobs)
      ensures id in old(imageJobs) ==> imageJobs == old(imageJobs) - {id} && videoJobs == old(videoJobs)
      ensures id !in old(imageJobs) ==> imageJobs == old(imageJobs) && videoJobs == old(videoJobs) - {id}
      ensures cleanups == old(cleanups)
    {
      var job := GetJob(id);
      if job.None? {
        return false;
      }
      // job.remove() takes the job out of the queue it belongs to.
      if job.value.data.kind == "image" {
        imageJobs := imageJobs - {id};
      } else {
        videoJobs := videoJobs - {id};
      }
      removed := true;
    }

    /**
     * What follows a handler's end: the job takes the state its outcome
     * gives (a rejection with attempts left puts it back for a retry) and
     * the progress reports of the run; a completed job also
     * starts its one-hour clean-up timer for its own directory.
     */
    method Settle(image: bool, id: JobId, outcome: Settlement<Path>, reports: seq<Progress>, now: int)
      requires Valid() && id in (if image then imageJobs else videoJobs)
      modifies this
      ensures Valid()
      ensures var job := if image then old(imageJobs[id]) else old(videoJobs[id]);
        var settled := AfterRun(job, outcome, reports, now);
        if image then imageJobs == old(imageJobs)[id := settled] && videoJobs == old(videoJobs)
        else videoJobs == old(videoJobs)[id := settled] && imageJobs == old(imageJobs)
      ensures outcome.Resolved? ==> cleanups == old(cleanups) + [CleanupTask(now + CleanupDelayMs, JobDir(tempDir, id))]
      ensures !outcome.Resolved? ==> cleanups == old(cleanups)
    {
      if image {
        var job := imageJobs[id];
        imageJobs := imageJobs[id := AfterRun(job, outcome, reports, now)];
      } else {
        var job := videoJobs[id];
        videoJobs := videoJobs[id := AfterRun(job, outcome, reports, now)];
      }
      if outcome.Resolved? {
        cleanups := cleanups + [CleanupTask(now + CleanupDelayMs, JobDir(tempDir, id))];
      }
    }

    /**
     * The image handler: the job directory is ensured, progress 0 is
     * reported, the background of the uploaded file is removed into
     * `<jobDir>/output.png`, and only then is 100 reported and that path
     * returned. A failing mkdir or removal ends the attempt, and a removal
     * that never settles leaves it active.
     */
    method ProcessImageJob(id: JobId, disk: Disk, tools: Gateways, now: int) returns (outcome: Settlement<Path>)
      requires Valid() && disk.Valid() && id in imageJobs
      modifies this, disk, tools
      ensures Valid() && disk.Valid()
      ensures var ready := Ensured(old(disk.nodes), JobDir(tempDir, id), now);
        disk.nodes == if ready.Some? then ready.value else old(disk.nodes)
      ensures var ready := Ensured(old(disk.nodes), JobDir(tempDir, id), now);
        var input := old(imageJobs[id]).data.filePath;
        tools.calls == old(tools.calls) + (if ready.Some? then [RemovalCall(input, ImageOutputPath(JobDir(tempDir, id)))] else [])
      ensures var ready := Ensured(old(disk.nodes), JobDir(tempDir, id), now);
        var input := old(imageJobs[id]).data.filePath;
        outcome == if ready.None? then Rejected(MkdirFailure)
                   else if input in tools.removalFailures then FailureOutcome(tools.removalFailures[input])
                   else Resolved(ImageOutputPath(JobDir(tempDir, id)))
      ensures var job := old(imageJobs[id]);
        var reports := if !Ensured(old(disk.nodes), JobDir(tempDir, id), now).Some? then []
          else if outcome.Resolved? then [Progress(0, RemovalStartMessage), Progress(100, RemovalDoneMessage)]
          else [Progress(0, RemovalStartMessage)];
        imageJobs == old(imageJobs)[id := AfterRun(job, outcome, reports, now)]
      ensures videoJobs == old(videoJobs)
      ensures outcome.Resolved? ==> cleanups == old(cleanups) + [CleanupTask(now + CleanupDelayMs, JobDir(tempDir, id))]
      ensures !outcome.Resolved? ==> cleanups == old(cleanups)
    {
      var input := imageJobs[id].data.filePath;
      var jobDir := JobDir(tempDir, id);
      var ok := disk.EnsureDir(jobDir, now);
      if !ok {
        outcome := Rejected(MkdirFailure);
        assert imageJobs[id].progress + [] == imageJobs[id].progress;
        Settle(true, id, outcome, [], now);
        return;
      }
      var outputPath := ImageOutputPath(jobDir);
      var reports := [Progress(0, RemovalStartMessage)];
      var removed := tools.RemoveBackground(input, outputPath);
      if !removed.Resolved? {
        outcome := removed;
      } else {
        reports := reports + [Progress(100, RemovalDoneMessage)];
        assert reports == [Progress(0, RemovalStartMessage), Progress(100, RemovalDoneMessage)];
        outcome := Resolved(outputPath);
      }
      Settle(true, id, outcome, reports, now);
    }

    /**
     * The video handler: the job directory is ensured and processVideo runs
     * on the uploaded file inside it, its progress going to the job; the
     * handler returns `<jobDir>/output.mp4`, which is the path processVideo
     * resolves with.
     */
    method ProcessVideoJob(id: JobId, disk: Disk, tools: Gateways, now: int)
      returns (outcome: Settlement<Path>, ghost frames: seq<Name>)
      requires Valid() && disk.Valid() && id in videoJobs
      modifies this, disk, tools
      ensures Valid() && disk.Valid()
      ensures imageJobs == old(imageJobs)
      ensures var run := VideoJobRun(old(videoJobs[id]).data.filePath, JobDir(tempDir, id), old(disk.nodes), tools, frames, now);
        && (run.None? ==> outcome == Rejected(MkdirFailure) && tools.calls == old(tools.calls))
        && (run.Some? ==> outcome == run.value.result && tools.calls == old(tools.calls) + run.value.calls)
      ensures var run := VideoJobRun(old(videoJobs[id]).data.filePath, JobDir(tempDir, id), old(disk.nodes), tools, frames, now);
        var job := old(videoJobs[id]);
        videoJobs == old(videoJobs)[id := AfterRun(job, outcome, if run.Some? then run.value.reports else [], now)]
      ensures var jobDir := JobDir(tempDir, id);
        var ready := Ensured(old(disk.nodes), jobDir, now);
        var prepared := if ready.Some? then PreparedDirs(ready.value, jobDir, now) else None;
        && (ready.None? ==> disk.nodes == old(disk.nodes))
        && (ready.Some? && prepared.None? ==> disk.nodes == ready.value)
        && (prepared.Some? ==>
              disk.nodes == if tools.ExtractionOn(prepared.value, FrameDir(jobDir)).Resolved?
                            then WithFiles(prepared.value, FrameDir(jobDir), tools.extractWrites, now) else prepared.value)
      ensures outcome.Resolved? ==> outcome.value == VideoOutputPath(JobDir(tempDir, id))
      ensures outcome.Resolved? ==> cleanups == old(cleanups) + [CleanupTask(now + CleanupDelayMs, JobDir(tempDir, id))]
      ensures !outcome.Resolved? ==> cleanups == old(cleanups)
    {
      var input := videoJobs[id].data.filePath;
      var jobDir := JobDir(tempDir, id);
      frames := [];
      var ok := disk.EnsureDir(jobDir, now);
      if !ok {
        outcome := Rejected(MkdirFailure);
        assert videoJobs[id].progress + [] == videoJobs[id].progress;
        Settle(false, id, outcome, [], now);
        return;
      }
      var outputPath := VideoOutputPath(jobDir);
      var sink := new ProgressSink();
      var result;
      result, frames := ProcessVideo(input, jobDir, disk, tools, sink, now);
      ghost var run := VideoJobRun(input, jobDir, old(disk.nodes), tools, frames, now);
      assert run.None? ==> sink.reports == [];
      assert run.Some? ==> sink.reports == run.value.reports;
      if result.Resolved? {
        PipelineResolvesWith(input, jobDir, old(disk.nodes), tools, frames, now);
        outcome := Resolved(outputPath);
      } else {
        outcome := result;
      }
      assert videoJobs[id].progress + [] == videoJobs[id].progress;
      Settle(false, id, outcome, sink.reports, now);
    }

    /**
     * The timers that are due by `now` fire in the order they were started:
     * each runs cleanupDirectory on its job directory (a directory goes with
     * everything below it; anything else stays). The others stay pending.
     */
    method RunDueCleanups(disk: Disk, now: int)
      requires disk.Valid()
      modifies this, disk
      ensures disk.Valid()
      ensures imageJobs == old(imageJobs) && videoJobs == old(videoJobs)
      ensures cleanups == NotDue(old(cleanups), now)
      ensures disk.nodes == CleanedUp(old(disk.nodes), Due(old(cleanups), now))
    {
      var tasks := cleanups;
      var pending := [];
      var i := 0;
      while i < |tasks|
        invariant 0 <= i <= |tasks| && disk.Valid()
        invariant imageJobs == old(imageJobs) && videoJobs == old(videoJobs)
        invariant pending == NotDue(tasks[..i], now)
        invariant disk.nodes == CleanedUp(old(disk.nodes), Due(tasks[..i], now))
      {
        TimersStep(tasks, i, now);
        var fired := Fire(disk, tasks[i], now);
        if fired {
          CleanedUpAppend(old(disk.nodes), Due(tasks[..i], now), tasks[i]);
        } else {
          pending := pending + [tasks[i]];
        }
        i := i + 1;
      }
      assert tasks[..i] == tasks;
      cleanups := pending;
    }
  }

  /**
   * The run of processVideo inside a job directory on a disk in state
   * `nodes`, once the job directory and the work directories below it are
   * ensured; None when one of those mkdirs throws.
   */
  function VideoJobRun(input: Path, jobDir: Path, nodes: map<Path, Node>, tools: Gateways, frames: seq<Name>, now: int): Option<Run> {
    var ready := Ensured(nodes, jobDir, now);
    if ready.None? then None
    else
      var prepared := PreparedDirs(ready.value, jobDir, now);
      if prepared.None? then None
      else Some(Pipeline(input, jobDir, tools.ExtractionOn(prepared.value, FrameDir(jobDir)), frames,
                         tools.removalFailures, tools.composeOutcome))
  }

  /** One timer at `now`: when it is due, cleanupDirectory runs on its directory. */
  method Fire(disk: Disk, task: CleanupTask, now: int) returns (fired: bool)
    requires disk.Valid()
    modifies disk
    ensures disk.Valid()
    ensures fired <==> task.due <= now
    ensures disk.nodes == if fired then AfterCleanup(old(disk.nodes), task.dir) else old(disk.nodes)
  {
    fired := task.due <= now;
    if fired {
      var _ := CleanupDirectory(disk, task.dir);
    }
  }

  /** When processVideo resolves inside a job directory, it resolves with `<jobDir>/output.mp4`. */
  lemma PipelineResolvesWith(input: Path, jobDir: Path, nodes: map<Path, Node>, tools: Gateways, frames: seq<Name>, now: int)
    requires VideoJobRun(input, jobDir, nodes, tools, frames, now).Some?
    requires VideoJobRun(input, jobDir, nodes, tools, frames, now).value.result.Resolved?
    ensures VideoJobRun(input, jobDir, nodes, tools, frames, now).value.result.value == VideoOutputPath(jobDir)
  {
    var prepared := PreparedDirs(Ensured(nodes, jobDir, now).value, jobDir, now).value;
    PipelineResolves(input, jobDir, tools.ExtractionOn(prepared, FrameDir(jobDir)), frames, tools.removalFailures, tools.composeOutcome);
  }

  // ---------------------------------------------------------------------------
  // Clean-up timers
  // ---------------------------------------------------------------------------

  /** The clean-ups due by `now`, in the order they were scheduled. */
  function Due(tasks: seq<CleanupTask>, now: int): (r: seq<CleanupTask>)
    ensures forall t :: t in r <==> t in tasks && t.due <= now
    ensures |r| <= |tasks|
  {
    if tasks == [] then []
    else
      var last := tasks[|tasks| - 1];
      Due(tasks[..|tasks| - 1], now) + (if last.due <= now then [last] else [])
  }

  /** The clean-ups still waiting at `now`, in the order they were scheduled. */
  function NotDue(tasks: seq<CleanupTask>, now: int): (r: seq<CleanupTask>)
    ensures forall t :: t in r <==> t in tasks && t.due > now
    ensures |r| <= |tasks|
  {
    if tasks == [] then []
    else
      var last := tasks[|tasks| - 1];
      NotDue(tasks[..|tasks| - 1], now) + (if last.due > now then [last] else [])
  }

  /** One more task looked at: it joins the due or the waiting ones. */
  lemma TimersStep(tasks: seq<CleanupTask>, i: nat, now: int)
    requires i < |tasks|
    ensures tasks[i].due <= now ==> Due(tasks[..i + 1], now) == Due(tasks[..i], now) + [tasks[i]]
    ensures tasks[i].due <= now ==> NotDue(tasks[..i + 1], now) == NotDue(tasks[..i], now)
    ensures tasks[i].due > now ==> Due(tasks[..i + 1], now) == Due(tasks[..i], now)
    ensures tasks[i].due > now ==> NotDue(tasks[..i + 1], now) == NotDue(tasks[..i], now) + [tasks[i]]
  {
    assert tasks[..i + 1][..i] == tasks[..i];
    assert Due(tasks[..i], now) + [] == Due(tasks[..i], now);
    assert NotDue(tasks[..i], now) + [] == NotDue(tasks[..i], now);
  }

  /** Firing splits the timers: every task is either run or kept, none twice. */
  lemma {:induction false} DuePartition(tasks: seq<CleanupTask>, now: int)
    ensures |Due(tasks, now)| + |NotDue(tasks, now)| == |tasks|
  {
    if tasks != [] {
      DuePartition(tasks[..|tasks| - 1], now);
    }
  }

  /** What cleanupDirectory(d) leaves: a directory goes with everything below it; anything else stays. */
  function AfterCleanup(nodes: map<Path, Node>, d: Path): map<Path, Node> {
    if d in nodes && nodes[d].Dir? then RemoveTree(nodes, d) else nodes
  }

  /**
   * One clean-up removes entries only, keeps everything outside its
   * directory, and leaves nothing at or below a directory it was given.
   */
  lemma AfterCleanupEffect(nodes: map<Path, Node>, d: Path, p: Path)
    ensures p in AfterCleanup(nodes, d) ==> p in nodes && AfterCleanup(nodes, d)[p] == nodes[p]
    ensures p in AfterCleanup(nodes, d) && d in nodes && nodes[d].Dir? ==> !Within(p, d)
    ensures p in nodes && !Within(p, d) ==> p in AfterCleanup(nodes, d)
  {
  }

  /** The disk after the clean-ups of `tasks`, one after another. */
  function CleanedUp(nodes: map<Path, Node>, tasks: seq<CleanupTask>): map<Path, Node> {
    if tasks == [] then nodes
    else AfterCleanup(CleanedUp(nodes, tasks[..|tasks| - 1]), tasks[|tasks| - 1].dir)
  }

  lemma CleanedUpAppend(nodes: map<Path, Node>, tasks: seq<CleanupTask>, t: CleanupTask)
    ensures CleanedUp(nodes, tasks + [t]) == AfterCleanup(CleanedUp(nodes, tasks), t.dir)
  {
    assert (tasks + [t])[..|tasks|] == tasks;
  }

  /** Clean-ups only remove entries; whatever they keep is unchanged. */
  lemma {:induction false} CleanedUpShrinks(nodes: map<Path, Node>, tasks: seq<CleanupTask>, p: Path)
    requires p in CleanedUp(nodes, tasks)
    ensures p in nodes && CleanedUp(nodes, tasks)[p] == nodes[p]
  {
    if tasks != [] {
      var init := tasks[..|tasks| - 1];
      AfterCleanupEffect(CleanedUp(nodes, init), tasks[|tasks| - 1].dir, p);
      CleanedUpShrinks(nodes, init, p);
    }
  }

  /** An entry outside every task's directory survives the clean-ups. */
  lemma {:induction false} CleanedUpKeeps(nodes: map<Path, Node>, tasks: seq<CleanupTask>, p: Path)
    requires p in nodes
    requires forall i :: 0 <= i < |tasks| ==> !Within(p, tasks[i].dir)
    ensures p in CleanedUp(nodes, tasks)
  {
    if tasks != [] {
      var init := tasks[..|tasks| - 1];
      CleanedUpKeeps(nodes, init, p);
      AfterCleanupEffect(CleanedUp(nodes, init), tasks[|tasks| - 1].dir, p);
    }
  }

  /**
   * After the clean-ups, nothing is left at or below the directory of a
   * task whose path was a directory to begin with.
   */
  lemma {:induction false} CleanedUpRemoves(nodes: map<Path, Node>, tasks: seq<CleanupTask>, i: nat, p: Path)
    requires i < |tasks| && tasks[i].dir in nodes && nodes[tasks[i].dir].Dir?
    requires Within(p, tasks[i].dir)
    ensures p !in CleanedUp(nodes, tasks)
  {
    var init := tasks[..|tasks| - 1];
    var d := tasks[i].dir;
    var before := CleanedUp(nodes, init);
    if i < |init| {
      assert init[i] == tasks[i];
      CleanedUpRemoves(nodes, init, i, p);
      AfterCleanupEffect(before, tasks[|tasks| - 1].dir, p);
    } else {
      if d in before {
        CleanedUpShrinks(nodes, init, d);
        AfterCleanupEffect(before, d, p);
      } else {
        var j := CleanedUpRemover(nodes, init, d);
        assert Within(p, init[j].dir);
        CleanedUpRemoves(nodes, init, j, p);
      }
    }
  }

  /** An entry the clean-ups removed lay at or below the directory of one of the clean-ups. */
  lemma {:induction false} CleanedUpRemover(nodes: map<Path, Node>, tasks: seq<CleanupTask>, q: Path) returns (j: nat)
    requires q in nodes && q !in CleanedUp(nodes, tasks)
    ensures j < |tasks| && Within(q, tasks[j].dir) && tasks[j].dir in nodes && nodes[tasks[j].dir].Dir?
  {
    var init := tasks[..|tasks| - 1];
    var before := CleanedUp(nodes, init);
    if q !in before {
      j := CleanedUpRemover(nodes, init, q);
      assert init[j] == tasks[j];
    } else {
      j := |tasks| - 1;
      AfterCleanupEffect(before, tasks[j].dir, q);
      CleanedUpShrinks(nodes, init, tasks[j].dir);
    }
  }
}
