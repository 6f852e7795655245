# REBAG job-processing core in Dafny

REBAG removes the background from uploaded images and videos. This
project models the part of it that decides and orders the work.

- **Uploads.** The upload routes admit a file by MIME type and size and
  store it under a fresh uuid with the original extension. Each upload
  then becomes a job.
- **Job queues.** There are two queues, one for images and one for
  videos. Their handlers:
  - create a per-job working directory;
  - run background removal, or the video pipeline;
  - record progress;
  - schedule the removal of a completed job's directory one hour later.
- **Video pipeline.** The pipeline:
  - extracts PNG frames with ffmpeg;
  - sends each frame, in lexical order, through background removal into
    `processed_frames`;
  - reassembles the frames into `output.mp4`;
  - reports progress 10, 20, one value per frame, 85 and 100.
- **Storage helpers.** These cover the allowed-type lists, unique file
  paths, file deletion and the sweep of old temporary files.
- **Health check.** It aggregates per-dependency statuses into a 200 or
  503 answer.
- **Browser client.** It picks the upload endpoint, polls a job's status
  with a bounded attempt budget, and turns the output path into
  `/processed/<name>` links.

Each source file is one module:

| module | file | form |
|---|---|---|
| `Wrappers` | — | `Option` and `Result` |
| `Text` | — | the JavaScript string operations the code relies on: `String(n)`, `%06d`, the default `sort()`, `split` and `join`, `endsWith` |
| `FileSystem` | — | Node's `fs` over an in-memory tree. The `Disk` class holds a `map<Path, Node>` and has `readdir`, `unlink`, `rmdir`, `writeFile` and `mkdir -p` |
| `FfmpegWrapper` | backend/ffmpeg/ffmpeg-wrapper.js | the frame-name pattern and its order, the event-driven `extractFrames` (a loop over the events), the command `createVideoFromFrames` builds, and `getVideoMetadata` |
| `VideoProcessor` | backend/services/videoProcessor.js | `processVideo` as a method over the disk, a `Gateways` object and a `ProgressSink`, proved equal to the `Pipeline` function. Also the recursive `cleanupDirectory` |
| `Storage` | backend/services/storage.js | the pure type lists, the do-while `getUniqueFilePath`, `deleteFile`, and the `cleanupOldFiles` loop |
| `JobQueue` | backend/services/queue.js | the class `Queues`, with the two job maps and the pending clean-up timers, and the two handlers |
| `Health` | backend/routes/health.js | the GET handler, which updates its checks field by field |
| `Upload` | backend/routes/upload.js | the pure admission rules, plus the route method that queues the job |
| `Frontend` | frontend/app.js | the pure endpoint and result-link functions, and `pollJobStatus` as a loop |

**Collaborators.** These are awaited promises. They become values of
`Settlement<T> = Resolved(value) | Rejected(message) | Unsettled`, where
`Unsettled` is a promise that never settles.
- ffmpeg and the background-removal client are a `Gateways` object. Its
  outcomes are fixed when it is built, and it logs every call.
- `checkMLService` is a `Probe` argument.
- The clock is an argument, `now`.
- uuids are drawn from an injective supply.
- Job ids are supplied by the caller, fresh per queue.

**Where the code is followed.** Where the source's own comments suggest
more than the code does, the model follows the code:
- `createJob`'s JSDoc types its argument as `'image'|'video'`
  (backend/services/queue.js:26), but the code sends every type other than
  exactly `"image"` to the video queue. There is no invalid-type error.
- `cleanupOldFiles` is documented as cleaning up old temporary files
  (backend/services/storage.js:48), but it only unlinks the top-level files
  of the directory. Directories and nested entries stay.
- The message after frame `i` (counted from 0) counts `i + 1` frames, but
  the percentage is `Math.round(20 + i/n*60)`, computed from `i`. So the
  last frame reports 80 only when `n >= 120`.

## Model

| member | source | states |
|---|---|---|
| Text.SortLex | backend/services/videoProcessor.js:35 | `sort()` on strings gives a permutation of its input sorted in UTF-16 code-unit order |
| Text.LexLessUtf16 | backend/services/videoProcessor.js:35 | the order `sort()` uses is exactly lexicographic order on the strings' UTF-16 code units |
| Text.UnitRankOrder | backend/services/videoProcessor.js:35 | comparing two characters' ranks is comparing their UTF-16 code units, so characters above U+FFFF sort before U+E000..U+FFFF |
| Text.SortedDistinctUnique | backend/services/videoProcessor.js:35 | two sorted, repeat-free lists of the same strings are equal, so the frame order does not depend on readdir's order |
| Text.Split | backend/services/storage.js:12-13 | `split(',')` returns at least one part, no part contains the separator, and joining the parts gives back the string |
| Text.SplitJoin | frontend/app.js:217 | splitting a join of separator-free parts gives back the parts |
| Text.DecimalDigitsValue | backend/ffmpeg/ffmpeg-wrapper.js:70 | reading back the numeral `String(n)` gives `n` |
| Text.ZeroPadValue | backend/ffmpeg/ffmpeg-wrapper.js:30 | `%06d` padding keeps the number's value |
| Text.DigitsOrder | backend/ffmpeg/ffmpeg-wrapper.js:30 | for equal-length digit strings, lexical order is numeric order |
| FileSystem.RemoveTree | backend/services/videoProcessor.js:64-77 | removing a subtree keeps exactly the entries outside it, unchanged |
| FileSystem.RemoveTreeWellFormed | backend/services/videoProcessor.js:64-77 | removing a subtree keeps every remaining entry inside an existing directory |
| FileSystem.Disk.ReadDir | backend/services/videoProcessor.js:66 | readdir lists each child name of the directory exactly once |
| FileSystem.Disk.Unlink | backend/services/videoProcessor.js:72 | unlink succeeds iff the path is a file, and then removes only that path |
| FileSystem.Disk.Rmdir | backend/services/videoProcessor.js:75 | rmdir succeeds iff the path is an empty directory, and then removes only that path |
| FileSystem.Disk.MkdirAll | backend/services/videoProcessor.js:25 | `mkdir -p` succeeds iff no file stands on the path, and then adds exactly the missing prefixes as directories |
| FileSystem.Disk.EnsureDir | backend/services/queue.js:63 | exists-or-`mkdir -p` gives true iff the path existed or could be created, and never changes an existing entry |
| FileSystem.EnsuredIdempotent | backend/services/queue.js:21 | ensuring a directory a second time changes nothing |
| FileSystem.WithFilesChildren | backend/ffmpeg/ffmpeg-wrapper.js:30 | after extraction writes its frames, the directory lists its old entries plus every written name |
| FfmpegWrapper.FrameNameIndex | backend/ffmpeg/ffmpeg-wrapper.js:30 | every frame name `frame_%06d.png` reads back as its own index |
| FfmpegWrapper.FrameNameInjective | backend/ffmpeg/ffmpeg-wrapper.js:30 | distinct indices give distinct frame names |
| FfmpegWrapper.FrameNameIsPng | backend/ffmpeg/ffmpeg-wrapper.js:30 | frame names pass the pipeline's `.png` filter |
| FfmpegWrapper.FrameNameOrder | backend/ffmpeg/ffmpeg-wrapper.js:30 | below 10^6, lexical order of frame names is numeric order of their indices, in both directions |
| FfmpegWrapper.SortedFramesAscend | backend/ffmpeg/ffmpeg-wrapper.js:30 | a lexically sorted list of frame names has ascending frame indices |
| FfmpegWrapper.FirstSettle | backend/ffmpeg/ffmpeg-wrapper.js:26-29 | the promise settles at the first `end` or `error` event and at no earlier one |
| FfmpegWrapper.ExtractFrames | backend/ffmpeg/ffmpeg-wrapper.js:14-34 | the event loop's result equals `ExtractionOutcome`: it resolves on the first `end`, rejects on the first `error`, or never settles |
| FfmpegWrapper.ExtractedFpsSource | backend/ffmpeg/ffmpeg-wrapper.js:17-21 | the fps is never 0; it is 30 or the truthy `video_fps` carried by a codecData event |
| FfmpegWrapper.ExtractedFpsDefault | backend/ffmpeg/ffmpeg-wrapper.js:17-21 | without a truthy `video_fps`, the fps is 30 |
| FfmpegWrapper.ExtractedCountSource | backend/ffmpeg/ffmpeg-wrapper.js:16-24 | frameCount is 0 with no filenames event, and otherwise the length of a reported filename list |
| FfmpegWrapper.CreateVideoCommand | backend/ffmpeg/ffmpeg-wrapper.js:43-49 | the input fps is the given fps, or 30 when none is given |
| FfmpegWrapper.ComposeReadsExtractPattern | backend/ffmpeg/ffmpeg-wrapper.js:30-46 | composition reads the directory with the same pattern that extraction writes |
| FfmpegWrapper.FirstVideoStream | backend/ffmpeg/ffmpeg-wrapper.js:66 | `find` gives the first stream whose codec_type is 'video', or none when there is none |
| FfmpegWrapper.ResolutionRoundTrip | backend/ffmpeg/ffmpeg-wrapper.js:70 | `${width}x${height}` splits at 'x' back into the two numerals |
| FfmpegWrapper.GetVideoMetadata | backend/ffmpeg/ffmpeg-wrapper.js:61-74 | a probe error rejects; with no video stream the promise never settles; otherwise the first video stream gives the fps and resolution |
| VideoProcessor.ProgressSink.Report | backend/services/queue.js:83-85 | each report is appended to the job's progress in order |
| VideoProcessor.FrameProgress | backend/services/videoProcessor.js:43-44 | the per-frame percentage lies in [20, 80] |
| VideoProcessor.FrameProgressRounds | backend/services/videoProcessor.js:43-44 | the integer formula is `Math.round(20 + 60*i/n)` in exact arithmetic |
| VideoProcessor.FrameProgressMonotone | backend/services/videoProcessor.js:43-44 | the per-frame percentage never decreases in i |
| VideoProcessor.FrameProgressEighty | backend/services/videoProcessor.js:43-44 | a frame reports 80 iff `120*(n-i) <= n` |
| VideoProcessor.LastFrameProgress | backend/services/videoProcessor.js:43-44 | the last frame reports 80 iff `n >= 120` |
| VideoProcessor.Gateways.ExtractFrames | backend/ffmpeg/ffmpeg-wrapper.js:14-34 | extraction is logged, settles as its events decide, and writes its frames only when it resolves |
| VideoProcessor.Gateways.RemoveBackground | backend/services/backgroundRemoval.js:13-38 | each removal call is logged; it resolves with the output path iff the input is not scripted to fail, and otherwise rejects with the scripted message or never settles |
| VideoProcessor.Gateways.CreateVideoFromFrames | backend/services/videoProcessor.js:49 | composition is logged with its command and settles as scripted |
| VideoProcessor.SortedPngListing | backend/services/videoProcessor.js:35 | filtering a complete listing to `.png` and sorting it gives the frame list, whatever order readdir used |
| VideoProcessor.ListFrames | backend/services/videoProcessor.js:35 | the method returns every PNG entry of the frame directory once, in lexical order |
| VideoProcessor.FrameListUnique | backend/services/videoProcessor.js:35 | a directory has only one frame list |
| VideoProcessor.PngNames | backend/services/videoProcessor.js:35 | `filter(endsWith('.png'))` keeps exactly the names ending in `.png`, with no repeats |
| VideoProcessor.FirstFailing | backend/services/videoProcessor.js:37-45 | the index of the first frame whose removal fails, or n when none fails |
| VideoProcessor.RemovalCalls | backend/services/videoProcessor.js:38-40 | frame j is sent from `frames/<name>` to `processed_frames/<name>` under the same name |
| VideoProcessor.FrameReportsAscend | backend/services/videoProcessor.js:37-45 | the per-frame reports never decrease and stay within [20, 80] |
| VideoProcessor.FrameStagesProgress | backend/services/videoProcessor.js:34-51 | after extraction, the reports start at 20, never decrease, and end on 100 iff the stages resolve |
| VideoProcessor.PipelineProgress | backend/services/videoProcessor.js:30-51 | every run reports 10 first, stays within [10, 100], never decreases, and ends on 100 iff it resolves |
| VideoProcessor.PipelineComposesOnlyAfterEveryFrame | backend/services/videoProcessor.js:37-49 | composition is called iff extraction resolved and every frame's removal resolved |
| VideoProcessor.PipelineResolves | backend/services/videoProcessor.js:30-52 | a resolving run extracted once, removed every frame in order, composed once at the extracted fps, and resolves with `outputDir/output.mp4` |
| VideoProcessor.PipelineStopsAtFirstFailure | backend/services/videoProcessor.js:37-45 | the first failing frame settles the run as its removal does, rejecting with its error or never settling; no later frame is touched, nothing is composed, and 85 is not reported |
| VideoProcessor.PipelineNoFrames | backend/services/videoProcessor.js:35-49 | with no PNG frames, composition still runs on the empty directory |
| VideoProcessor.PipelineIgnoresFrameCount | backend/services/videoProcessor.js:31 | the frameCount from extraction does not affect the run |
| VideoProcessor.EnsureWorkDirs | backend/services/videoProcessor.js:24-26 | `frames` and `processed_frames` are created unless they exist, or nothing changes when mkdir throws |
| VideoProcessor.RemoveFrameBackgrounds | backend/services/videoProcessor.js:37-45 | the frame loop makes the calls and reports of the frames up to the first failure and returns that failure |
| VideoProcessor.ProcessFrames | backend/services/videoProcessor.js:35-52 | after extraction, the calls, reports and result equal `FrameStages` |
| VideoProcessor.ProcessVideo | backend/services/videoProcessor.js:18-58 | the disk, calls, reports and result equal `Pipeline` on the prepared disk; an mkdir failure rejects before any report |
| VideoProcessor.CleanupDirectory | backend/services/videoProcessor.js:64-77 | a missing path is a no-op; a file makes readdir reject; a directory goes with everything below it |
| VideoProcessor.RemainingAfterAll | backend/services/videoProcessor.js:67-75 | once every listed entry is removed, the directory is empty and rmdir completes the subtree removal |
| Storage.AllowedTypes | backend/services/storage.js:12-13 | the configured list: no type contains a comma, and joining with commas gives back the setting |
| Storage.DefaultAllowedImageTypes | backend/services/storage.js:12 | unset, the image list is jpeg, png and webp |
| Storage.DefaultAllowedVideoTypes | backend/services/storage.js:13 | unset, the video list is mp4, quicktime and x-msvideo |
| Storage.ConfiguredTypes | backend/services/storage.js:12-13 | configuring a list of comma-free types gives exactly that list |
| Storage.UuidSource.Next | backend/services/storage.js:25 | each draw is the next uuid of the supply |
| Storage.CandidatesDiffer | backend/services/storage.js:25 | different uuids give different candidate paths |
| Storage.GetUniqueFilePath | backend/services/storage.js:21-28 | the returned path is `dir/<uuid><ext>`, names nothing on disk, and every earlier draw collided; the loop ends because fresh draws cannot outnumber the entries |
| Storage.DrawsBounded | backend/services/storage.js:24-26 | colliding distinct draws cannot outnumber the existing paths |
| Storage.DeleteFile | backend/services/storage.js:35-46 | true iff a file stood there, and then removes only that file; otherwise false and nothing changes |
| Storage.CleanupOldFiles | backend/services/storage.js:53-66 | a missing directory is a no-op; a file rejects; otherwise the disk becomes `Swept` |
| Storage.SweptKeepsBoundary | backend/services/storage.js:62 | a file exactly maxAge old survives (the comparison is strict) |
| Storage.SweptKeepsOthers | backend/services/storage.js:56-65 | nested entries and entries outside the directory are untouched |
| Storage.SweptKeepsDirectories | backend/services/storage.js:62-63 | directories are never swept |
| Storage.SweptRemovesStale | backend/services/storage.js:62-63 | a top-level file older than maxAge is gone |
| Storage.SweptIdempotent | backend/services/storage.js:53-66 | sweeping twice at the same instant removes nothing more |
| JobQueue.JobDirsDistinct | backend/services/queue.js:62 | jobs with different ids get different working directories |
| JobQueue.VideoOutputPath | backend/services/queue.js:80 | the handler's output path is the path processVideo resolves with |
| JobQueue.StateAfter | backend/services/queue.js:32-90 | resolved means completed with the path; rejected means failed with the message only on the last of `attempts`, and otherwise delayed by `backoff` for a retry; unsettled means still active |
| JobQueue.RetriedTwice | backend/services/queue.js:32 | a job as createJob adds it is retried 5000 ms after each of its first two rejections, fails at the third, and completes if a retry resolves |
| JobQueue.Queues.Settle | backend/services/queue.js:60-105 | the job takes the state its run gives, its failed-attempt count and the run's reports; only a completed job starts its one-hour clean-up timer |
| JobQueue.Queues.Start | backend/services/queue.js:19-22 | TEMP_DIR is ensured at start-up |
| JobQueue.Queues.CreateJob | backend/services/queue.js:30-34 | the job goes to the image queue iff the type is exactly "image", carries type and path, and has 3 attempts with a 5000 ms backoff |
| JobQueue.Queues.GetJob | backend/services/queue.js:41-45 | the image queue is asked first, the video queue only on a miss |
| JobQueue.Queues.RemoveJob | backend/services/queue.js:52-57 | true iff getJob finds the job, which then leaves its own queue; nothing else changes |
| JobQueue.Queues.ProcessImageJob | backend/services/queue.js:60-72 | ensures the job directory, reports 0, removes the background into `output.png`, and only then reports 100 and resolves with that path; a removal that rejects or never settles is passed on as the job's outcome |
| JobQueue.Queues.ProcessVideoJob | backend/services/queue.js:75-90 | ensures the job directory, runs the pipeline with its progress going to the job, and resolves with `<jobDir>/output.mp4` |
| JobQueue.Queues.RunDueCleanups | backend/services/queue.js:93-105 | the due timers fire in order, each cleaning its job directory; the others stay pending |
| JobQueue.Due | backend/services/queue.js:94-97 | the due tasks are exactly those with due <= now, in order |
| JobQueue.DuePartition | backend/services/queue.js:93-105 | every timer is either fired or kept, and none is both |
| JobQueue.AfterCleanupEffect | backend/services/queue.js:96 | one cleanup removes entries only, keeps everything outside its directory, and leaves nothing under a directory it was given |
| JobQueue.CleanedUpShrinks | backend/services/queue.js:93-105 | cleanups only remove entries, and kept entries are unchanged |
| JobQueue.CleanedUpKeeps | backend/services/queue.js:93-105 | an entry outside every task's directory survives |
| JobQueue.CleanedUpRemoves | backend/services/queue.js:93-105 | nothing remains at or below a task's directory that was a directory |
| JobQueue.CleanedUpRemover | backend/services/queue.js:93-105 | every removed entry lay under some task's directory |
| Health.ProbeStatus | backend/routes/health.js:17-28 | true gives 'ok', false gives 'unreachable', a throw gives 'error', and never 'unknown' |
| Health.Every | backend/routes/health.js:39 | `every(v => v === 'ok')` holds iff every value is 'ok' |
| Health.GetHealth | backend/routes/health.js:8-46 | backend and redis are 'ok'; ml_service follows its probe; disk is 'ok' iff TEMP_DIR exists or can be created; no check stays 'unknown'; success iff all are 'ok', that is iff the ML service answers true and TEMP_DIR is usable; status 200 iff success |
| Upload.JobKind | backend/routes/upload.js:58-73 | the image route creates 'image' jobs and the video route 'video' jobs |
| Upload.UploadDir | backend/routes/upload.js:12 | UPLOAD_DIR, or `uploads` when it is unset or empty |
| Upload.Destination | backend/routes/upload.js:13-14 | files go to `<uploadDir>/images` or `<uploadDir>/videos` |
| Upload.DestinationsDiffer | backend/routes/upload.js:13-14 | the two routes never share a directory |
| Upload.FileFilter | backend/routes/upload.js:39-51 | accepted iff the MIME type is on the route's list, otherwise the route's own error |
| Upload.DefaultFilter | backend/routes/upload.js:40-49 | unconfigured, exactly jpeg/png/webp images and mp4/quicktime/x-msvideo videos pass |
| Upload.ParseIntNumeral | backend/routes/upload.js:38 | parseInt reads back `String(n)`, ignoring a trailing unit |
| Upload.SizeLimit | backend/routes/upload.js:38-47 | parseInt of the setting, or the fallback: unset, NaN or 0 give the fallback, any other number is kept |
| Upload.SizeLimitNeverZero | backend/routes/upload.js:38-47 | the limit is never 0 |
| Upload.SizeLimitNumeral | backend/routes/upload.js:38-47 | a positive numeric setting is the limit in bytes, with any unit suffix dropped |
| Upload.Extname | backend/routes/upload.js:23 | path.extname gives "" or a '.' followed by no further '.' or '/' |
| Upload.ExtnameOf | backend/routes/upload.js:31 | `stem.ext` keeps the extension `.ext` |
| Upload.StoredName | backend/routes/upload.js:22-25 | the stored name is the uuid followed by the extension |
| Upload.StoredPathsDiffer | backend/routes/upload.js:20-34 | two different uuids of the same length never give the same stored path |
| Upload.Admit | backend/routes/upload.js:36-57 | no file gives 'No file uploaded'; a type not on the list gives the route's error; an oversize file gives 'File too large'; otherwise the file is accepted at its stored path |
| Upload.HandleUpload | backend/routes/upload.js:55-82 | an admitted file becomes a Waiting job of the route's type on the stored path and the response carries its id; a refused request changes no queue |
| Frontend.Endpoint | frontend/app.js:125 | '/api/upload/image' iff the type is 'image', otherwise '/api/upload/video' |
| Frontend.ShowResult | frontend/app.js:202-227 | video iff the path ends in .mp4, .mov or .avi; src and href are `/processed/<last segment>`; the download name follows the kind |
| Frontend.LastSegmentIsSuffix | frontend/app.js:217 | `split('/').pop()` is the suffix after the last '/' and contains no '/' |
| Frontend.LastSegmentOfPath | frontend/app.js:217-223 | for a joined path, the last segment is the file's own name |
| Frontend.JobResultViews | frontend/app.js:217-225 | every video job links `/processed/output.mp4` and every image job `/processed/output.png`, whatever its id |
| Frontend.Verdict | frontend/app.js:182-195 | polling stops iff the status is 'failed', or 'completed' with an output path |
| Frontend.PollJobStatus | frontend/app.js:152-199 | at most 300 fetches; stops at the first reply with a verdict; times out, without a 301st fetch, iff none of the 300 replies has one |

## Left out

- Bull and Redis internals are not modelled: id assignment, the scheduling that moves waiting jobs to active and delayed jobs back to waiting, `getState`, progress persistence and events. Ids are supplied. What a failed attempt does with `attempts` and `backoff` is modelled by `StateAfter`.
- JobQueue.StateAfter: only a fixed backoff in milliseconds is modelled, which is the form createJob passes. Bull's exponential and custom backoffs are not.
- `setTimeout` timers are recorded as due tasks in `Queues.cleanups` and fired by `RunDueCleanups`. Polling's own 2-second timer is not modelled; only the attempt order is.
- backend/services/backgroundRemoval.js (the HTTP client) is not part of this model beyond `checkRedis`. `removeBackground` is a scripted outcome that resolves, rejects or never settles, and `checkMLService` is a `Probe` argument. The wording of a removal's rejection is scripted, not derived: the code wraps errors thrown before the write as `Background removal failed: …`, but passes a writer error on unwrapped.
- `Gateways.RemoveBackground` and `Gateways.CreateVideoFromFrames`: the files they write on disk are not modelled, only their calls and outcomes.
- ffmpeg decoding, encoding and codec flags are left out. The fps is an opaque `real`, passed through.
- Concurrency is not modelled: two handlers racing, and the gap between `existsSync` and `mkdir` or between a uuid check and its use.
- backend/server.js, backend/routes/jobs.js and ml/bg_removal_service.py are not part of this model.
- The DOM is left out: progress text, CSS classes and `resetApp`.
- The module-load `mkdir` loop of upload.js is left out. Files are never written, and the bytes multer streams are not modelled.
- VideoProcessor.MkdirFailure and VideoProcessor.FramesDirMissing are stand-in messages. Node's mkdir error names the path and reads EEXIST when the path itself is a file, and ffmpeg's text depends on its output. These strings become a failed job's reason.
- Text.LexLess: strings are sequences of Unicode scalar values, so a JavaScript string holding a lone surrogate cannot be represented.
- Upload.Admit: the 'File too large' message and the test `size > limit` stand in for multer's LIMIT_FILE_SIZE check. multer's "Unexpected field" error is not modelled.
- Upload.ParseInt: digits are read exactly, so the precision lost for numbers above 2^53 is not modelled. Unicode space separators other than NBSP, BOM, LS and PS are not treated as white space.
- Upload.UploadDir and Health.GetHealth take their directory already parsed into a path. The `.` and `..` normalisation of `path.join` is not modelled.
- `new Date().toISOString()` is a `timestamp` argument.
- File timestamps and `now` are integers of milliseconds, so sub-millisecond `mtimeMs` is not modelled.
- JobQueue.Queues.ProcessImageJob and ProcessVideoJob share `temp/job_<id>` when an image job and a video job have the same id; `getJob` then returns the image job.
