/**
 * backend/routes/upload.js: the two upload routes. multer admits a file
 * when its MIME type is on the allowed list and it is within the size
 * limit, stores it under a fresh uuid with the original extension, and the
 * route then queues a job of its own type on the stored path.
 */
module Upload {
  import opened Wrappers
  import opened Text
  import opened FileSystem
  import Storage
  import JobQueue

  const DefaultUploadDir: Path := ["uploads"]
  const ImageSubdir: Name := "images"
  const VideoSubdir: Name := "videos"
  const DefaultMaxImageSize: nat := 10 * 1024 * 1024
  const DefaultMaxVideoSize: nat := 50 * 1024 * 1024
  const InvalidImageType: string := "Invalid image file type"
  const InvalidVideoType: string := "Invalid video file type"
  const NoFileUploaded: string := "No file uploaded"
  /** The message multer's LIMIT_FILE_SIZE error carries. */
  const FileTooLarge: string := "File too large"
  const ImageAccepted: string := "Image upload accepted. Processing started."
  const VideoAccepted: string := "Video upload accepted. Processing started."

  datatype Route = ImageRoute | VideoRoute

  /** The file part of a multipart request as multer sees it. */
  datatype IncomingFile = IncomingFile(originalname: string, mimetype: string, size: nat)

  /** The environment variables the routes read; None is unset. */
  datatype Env = Env(
    uploadDir: Option<Path>,
    allowedImageTypes: Option<string>,
    allowedVideoTypes: Option<string>,
    maxImageSize: Option<string>,
    maxVideoSize: Option<string>)

  /** The JSON body of an accepted upload. */
  datatype Accepted = Accepted(success: bool, jobId: JobQueue.JobId, message: string)

  // ---------------------------------------------------------------------------
  // Routes and directories
  // ---------------------------------------------------------------------------

  /** The job type each route hands to createJob. */
  function JobKind(route: Route): (kind: string)
    ensures kind == "image" <==> route == ImageRoute
    ensures kind == "video" <==> route == VideoRoute
  {
    match route
    case ImageRoute => "image"
    case VideoRoute => "video"
  }

  function AcceptedMessage(route: Route): string {
    match route
    case ImageRoute => ImageAccepted
    case VideoRoute => VideoAccepted
  }

  /** `process.env.UPLOAD_DIR || './uploads'`. */
  function UploadDir(env: Env): (dir: Path)
    ensures dir != []
    ensures env.uploadDir.Some? && env.uploadDir.value != [] ==> dir == env.uploadDir.value
  {
    if env.uploadDir.Some? && env.uploadDir.value != [] then env.uploadDir.value else DefaultUploadDir
  }

  /** Where multer's diskStorage puts each route's files: <uploadDir>/images and <uploadDir>/videos. */
  function Destination(env: Env, route: Route): (dir: Path)
    ensures |dir| == |UploadDir(env)| + 1 && dir[..|UploadDir(env)|] == UploadDir(env)
    ensures dir[|dir| - 1] == if route == ImageRoute then ImageSubdir else VideoSubdir
  {
    JoinPath(UploadDir(env), match route case ImageRoute => ImageSubdir case VideoRoute => VideoSubdir)
  }

  /** The two routes never share a directory. */
  lemma DestinationsDiffer(env: Env)
    ensures Destination(env, ImageRoute) != Destination(env, VideoRoute)
  {
    var n := |UploadDir(env)|;
    assert Destination(env, ImageRoute)[n] != Destination(env, VideoRoute)[n];
  }

  // ---------------------------------------------------------------------------
  // fileFilter
  // ---------------------------------------------------------------------------

  function AllowedTypes(env: Env, route: Route): seq<string> {
    match route
    case ImageRoute => Storage.AllowedImageTypes(env.allowedImageTypes)
    case VideoRoute => Storage.AllowedVideoTypes(env.allowedVideoTypes)
  }

  /** fileFilter: `allowed.includes(file.mimetype)`, else the route's own error. */
  function FileFilter(env: Env, route: Route, mimetype: string): (r: Result<()>)
    ensures r.Ok? <==> mimetype in AllowedTypes(env, route)
    ensures r.Err? ==> r.error == if route == ImageRoute then InvalidImageType else InvalidVideoType
  {
    if mimetype in AllowedTypes(env, route) then Ok(())
    else Err(if route == ImageRoute then InvalidImageType else InvalidVideoType)
  }

  /** With the environment unset, exactly JPEG, PNG and WebP images and MP4, QuickTime and AVI videos pass. */
  lemma DefaultFilter(env: Env, mimetype: string)
    requires env.allowedImageTypes.None? && env.allowedVideoTypes.None?
    ensures FileFilter(env, ImageRoute, mimetype).Ok? <==> mimetype in {"image/jpeg", "image/png", "image/webp"}
    ensures FileFilter(env, VideoRoute, mimetype).Ok? <==> mimetype in {"video/mp4", "video/quicktime", "video/x-msvideo"}
  {
    Storage.DefaultAllowedImageTypes();
    Storage.DefaultAllowedVideoTypes();
  }

  // ---------------------------------------------------------------------------
  // parseInt and the size limits
  // ---------------------------------------------------------------------------

  /** The white space parseInt skips: the ASCII blanks, NBSP, BOM and the line and paragraph separators. */
  predicate IsSpace(c: char) {
    c == ' ' || c == '\t' || c == '\n' || c == '\r' || c == '\U{000B}' || c == '\U{000C}'
    || c == '\U{00A0}' || c == '\U{FEFF}' || c == '\U{2028}' || c == '\U{2029}'
  }

  function TrimStart(s: string): (t: string)
    ensures |t| <= |s| && t == s[|s| - |t|..]
    ensures t == [] || !IsSpace(t[0])
    ensures forall i :: 0 <= i < |s| - |t| ==> IsSpace(s[i])
  {
    if s != [] && IsSpace(s[0]) then TrimStart(s[1..]) else s
  }

  predicate IsHexDigit(c: char) {
    IsDigit(c) || 'a' <= c <= 'f' || 'A' <= c <= 'F'
  }

  function HexDigitValue(c: char): (d: nat)
    requires IsHexDigit(c)
    ensures d < 16
  {
    if IsDigit(c) then DigitValue(c)
    else if 'a' <= c <= 'f' then c as int - 'a' as int + 10
    else c as int - 'A' as int + 10
  }

  /** The value of a string of hexadecimal digits, most significant first. */
  function HexValue(s: string): nat
    requires forall i :: 0 <= i < |s| ==> IsHexDigit(s[i])
  {
    if s == [] then 0 else HexValue(s[..|s| - 1]) * 16 + HexDigitValue(s[|s| - 1])
  }

  /** The length of the longest prefix of `s` made of digits of the given radix (10 or 16). */
  function DigitRun(s: string, hex: bool): (n: nat)
    ensures n <= |s|
    ensures forall i :: 0 <= i < n ==> if hex then IsHexDigit(s[i]) else IsDigit(s[i])
    ensures n < |s| ==> !(if hex then IsHexDigit(s[n]) else IsDigit(s[n]))
  {
    if s != [] && (if hex then IsHexDigit(s[0]) else IsDigit(s[0])) then 1 + DigitRun(s[1..], hex) else 0
  }

  /**
   * JavaScript's parseInt(s) with no radix: leading white space skipped, an
   * optional sign, "0x" or "0X" selecting base 16, then the longest run of
   * digits, the rest ignored. None is NaN, when that run is empty.
   */
  function ParseInt(s: string): Option<int> {
    var t := TrimStart(s);
    if t != [] && (t[0] == '-' || t[0] == '+') then
      match Magnitude(t[1..])
      case Some(m) => var v: int := m; Some(if t[0] == '-' then -v else v)
      case None => None
    else Magnitude(t)
  }

  /** The unsigned part of parseInt: a "0x" prefix selects base 16, then the longest digit run is read. */
  function Magnitude(u: string): (r: Option<nat>)
    ensures r.None? <==> DigitRun(MagnitudeBody(u), IsHexPrefixed(u)) == 0
  {
    var body := MagnitudeBody(u);
    var n := DigitRun(body, IsHexPrefixed(u));
    if n == 0 then None
    else if IsHexPrefixed(u) then Some(HexValue(body[..n]))
    else Some(DigitsValue(body[..n]))
  }

  predicate IsHexPrefixed(u: string) {
    |u| >= 2 && u[0] == '0' && (u[1] == 'x' || u[1] == 'X')
  }

  function MagnitudeBody(u: string): string {
    if IsHexPrefixed(u) then u[2..] else u
  }

  /** Reading back the numeral String(n) gives n, whatever non-digit text follows it. */
  lemma ParseIntNumeral(n: nat, rest: string)
    requires rest == [] || !(IsDigit(rest[0]) || rest[0] == 'x' || rest[0] == 'X')
    ensures ParseInt(DecimalDigits(n) + rest) == Some(n)
  {
    var d := DecimalDigits(n);
    var s := d + rest;
    assert IsDigit(s[0]);
    TrimStartNoSpace(s);
    MagnitudeNumeral(n, rest);
  }

  lemma TrimStartNoSpace(s: string)
    requires s != [] && IsDigit(s[0])
    ensures TrimStart(s) == s
  {
    assert !IsSpace(s[0]);
  }

  lemma MagnitudeNumeral(n: nat, rest: string)
    requires rest == [] || !(IsDigit(rest[0]) || rest[0] == 'x' || rest[0] == 'X')
    ensures Magnitude(DecimalDigits(n) + rest) == Some(n)
  {
    var d := DecimalDigits(n);
    var s := d + rest;
    if |d| == 1 {
      if |s| >= 2 {
        assert s[1] == rest[0];
      }
    } else {
      assert s[0] == d[0] && n != 0;
    }
    assert !IsHexPrefixed(s);
    DigitRunOf(d, rest);
    assert s[..|d|] == d;
    DecimalDigitsValue(n);
  }

  lemma {:induction false} DigitRunOf(d: string, rest: string)
    requires AllDigits(d)
    requires rest == [] || !IsDigit(rest[0])
    ensures DigitRun(d + rest, false) == |d|
  {
    if d != [] {
      assert (d + rest)[1..] == d[1..] + rest;
      DigitRunOf(d[1..], rest);
    } else {
      assert d + rest == rest;
    }
  }

  /** `parseInt(value) || fallback`: NaN and 0 are falsy, any other number is kept, negative ones too. */
  function SizeLimit(value: Option<string>, fallback: nat): (limit: int)
    ensures value.None? ==> limit == fallback
    ensures value.Some? && ParseInt(value.value).Some? && ParseInt(value.value).value != 0 ==> limit == ParseInt(value.value).value
    ensures value.Some? && (ParseInt(value.value).None? || ParseInt(value.value) == Some(0)) ==> limit == fallback
  {
    if value.None? then fallback
    else match ParseInt(value.value)
      case Some(v) => if v != 0 then v else fallback
      case None => fallback
  }

  function MaxFileSize(env: Env, route: Route): int {
    match route
    case ImageRoute => SizeLimit(env.maxImageSize, DefaultMaxImageSize)
    case VideoRoute => SizeLimit(env.maxVideoSize, DefaultMaxVideoSize)
  }

  /** The limits are never 0: an unset, unparsable or zero setting gives 10 MiB for images and 50 MiB for videos. */
  lemma SizeLimitNeverZero(value: Option<string>, fallback: nat)
    requires fallback > 0
    ensures SizeLimit(value, fallback) != 0
  {
  }

  /** A positive decimal setting is taken as a byte count, with any unit suffix dropped ("5MB" is 5 bytes). */
  lemma SizeLimitNumeral(n: nat, rest: string, fallback: nat)
    requires n > 0
    requires rest == [] || !(IsDigit(rest[0]) || rest[0] == 'x' || rest[0] == 'X')
    ensures SizeLimit(Some(DecimalDigits(n) + rest), fallback) == n
  {
    ParseIntNumeral(n, rest);
  }

  // ---------------------------------------------------------------------------
  // Stored names
  // ---------------------------------------------------------------------------

  /** The last segment of a POSIX path once trailing slashes are dropped. */
  function BaseName(s: string): (b: string)
    ensures '/' !in b
  {
    if s == [] then []
    else if s[|s| - 1] == '/' then BaseName(s[..|s| - 1])
    else AfterLastSlash(s)
  }

  function AfterLastSlash(s: string): (b: string)
    ensures '/' !in b
    ensures |b| <= |s| && b == s[|s| - |b|..]
  {
    if s == [] || s[|s| - 1] == '/' then []
    else AfterLastSlash(s[..|s| - 1]) + [s[|s| - 1]]
  }

  /** The index of the last '.' in `s`, or |s| when there is none. */
  function LastDot(s: string): (k: nat)
    ensures k <= |s|
    ensures k < |s| ==> s[k] == '.' && '.' !in s[k + 1..]
    ensures k == |s| ==> '.' !in s
  {
    if s == [] then 0
    else if s[|s| - 1] == '.' then |s| - 1
    else
      var k := LastDot(s[..|s| - 1]);
      if k == |s| - 1 then |s| else k
  }

  /**
   * Node's path.extname: from the last '.' of the base name to its end;
   * empty when the base name has no '.', when its only '.' is the leading
   * one (".bashrc", "."), or when it is "..".
   */
  function Extname(name: string): (ext: string)
    ensures ext == [] || (ext[0] == '.' && '.' !in ext[1..] && '/' !in ext)
  {
    var b := BaseName(name);
    var k := LastDot(b);
    if k == |b| || k == 0 || b == ".." then [] else b[k..]
  }

  /** A stem with no '/' that is neither empty nor "." keeps the extension it is given. */
  lemma ExtnameOf(stem: string, extension: string)
    requires stem != [] && stem != "." && '/' !in stem
    requires '.' !in extension && '/' !in extension
    ensures Extname(stem + "." + extension) == "." + extension
  {
    var p := stem + ".";
    var s := p + extension;
    assert '/' !in p;
    assert '/' !in s;
    LastDotAfter(p, extension);
    assert s != ".." by {
      if |s| == 2 {
        assert |stem| == 1 && stem == [stem[0]];
        assert s[0] == stem[0] != '.';
      }
    }
    var e := "." + extension;
    assert s == stem + e;
    assert s[|stem|..] == e;
    ExtnameWhole(s, |stem|);
  }

  lemma ExtnameWhole(b: string, k: nat)
    requires b != [] && '/' !in b && b != ".."
    requires 0 < k < |b| && LastDot(b) == k
    ensures Extname(b) == b[k..]
  {
    BaseNameWhole(b);
  }

  lemma BaseNameWhole(s: string)
    requires s != [] && '/' !in s
    ensures BaseName(s) == s
  {
    assert s[|s| - 1] in s;
    AfterLastSlashWhole(s);
  }

  lemma {:induction false} AfterLastSlashWhole(s: string)
    requires '/' !in s
    ensures AfterLastSlash(s) == s
  {
    if s != [] {
      assert s[|s| - 1] in s;
      assert forall c :: c in s[..|s| - 1] ==> c in s;
      AfterLastSlashWhole(s[..|s| - 1]);
    }
  }

  lemma {:induction false} LastDotAfter(p: string, t: string)
    requires p != [] && p[|p| - 1] == '.'
    requires '.' !in t
    ensures LastDot(p + t) == |p| - 1
  {
    if t != [] {
      var s := p + t;
      assert s[..|s| - 1] == p + t[..|t| - 1];
      assert s[|s| - 1] == t[|t| - 1] && t[|t| - 1] in t;
      assert forall c :: c in t[..|t| - 1] ==> c in t;
      LastDotAfter(p, t[..|t| - 1]);
    } else {
      assert p + t == p;
    }
  }

  /** diskStorage's filename callback: `${uuidv4()}${path.extname(originalname)}`. */
  function StoredName(uuid: string, originalname: string): (name: Name)
    ensures |name| >= |uuid| && name[..|uuid|] == uuid
    ensures name[|uuid|..] == Extname(originalname)
  {
    uuid + Extname(originalname)
  }

  function StoredPath(env: Env, route: Route, uuid: string, originalname: string): Path {
    JoinPath(Destination(env, route), StoredName(uuid, originalname))
  }

  /** uuids are all of one length, so two different ones never give the same stored file. */
  lemma StoredPathsDiffer(env: Env, route: Route, a: string, b: string, nameA: string, nameB: string)
    requires |a| == |b| && a != b
    ensures StoredPath(env, route, a, nameA) != StoredPath(env, route, b, nameB)
  {
    var d := Destination(env, route);
    var x, y := StoredName(a, nameA), StoredName(b, nameB);
    assert StoredPath(env, route, a, nameA)[|d|] == x;
    assert StoredPath(env, route, b, nameB)[|d|] == y;
    assert x[..|a|] == a && y[..|b|] == b;
  }

  // ---------------------------------------------------------------------------
  // The routes
  // ---------------------------------------------------------------------------

  /**
   * What multer and the route's first line decide about a request: the
   * filter's verdict first, then the size limit while the file streams in,
   * then the `req.file` test; an admitted file is stored under `uuid`.
   */
  function Admit(env: Env, route: Route, file: Option<IncomingFile>, uuid: string): (r: Result<Path>)
    ensures file.None? ==> r == Err(NoFileUploaded)
    ensures file.Some? && file.value.mimetype !in AllowedTypes(env, route) ==>
      r == Err(if route == ImageRoute then InvalidImageType else InvalidVideoType)
    ensures file.Some? && file.value.mimetype in AllowedTypes(env, route) && file.value.size > MaxFileSize(env, route) ==>
      r == Err(FileTooLarge)
    ensures r.Ok? <==> file.Some? && file.value.mimetype in AllowedTypes(env, route) && file.value.size <= MaxFileSize(env, route)
    ensures r.Ok? ==> r.value == StoredPath(env, route, uuid, file.value.originalname)
  {
    match file
    case None => Err(NoFileUploaded)
    case Some(f) =>
      match FileFilter(env, route, f.mimetype)
      case Err(e) => Err(e)
      case Ok(_) =>
        if f.size > MaxFileSize(env, route) then Err(FileTooLarge)
        else Ok(StoredPath(env, route, uuid, f.originalname))
  }

  /**
   * POST /api/upload/image and /api/upload/video: an admitted file becomes a
   * job of the route's type on the stored path, and the answer carries that
   * job's id; a refused request changes no queue. `jobId` is the id the
   * queue assigns.
   */
  method HandleUpload(queues: JobQueue.Queues, env: Env, route: Route, file: Option<IncomingFile>, uuid: string, jobId: JobQueue.JobId)
    returns (r: Result<Accepted>)
    requires queues.Valid()
    requires jobId !in (if route == ImageRoute then queues.imageJobs else queues.videoJobs)
    modifies queues
    ensures queues.Valid()
    ensures queues.cleanups == old(queues.cleanups)
    ensures var admitted := Admit(env, route, file, uuid);
      match admitted
      case Err(e) =>
        r == Err(e) && queues.imageJobs == old(queues.imageJobs) && queues.videoJobs == old(queues.videoJobs)
      case Ok(path) =>
        var job := JobQueue.Job(jobId, JobQueue.JobData(JobKind(route), path), JobQueue.JobOptions(JobQueue.MaxAttempts, JobQueue.BackoffMs), JobQueue.Waiting, 0, []);
        r == Ok(Accepted(true, jobId, AcceptedMessage(route)))
        && (route == ImageRoute ==> queues.imageJobs == old(queues.imageJobs)[jobId := job] && queues.videoJobs == old(queues.videoJobs))
        && (route == VideoRoute ==> queues.videoJobs == old(queues.videoJobs)[jobId := job] && queues.imageJobs == old(queues.imageJobs))
  {
    var admitted := Admit(env, route, file, uuid);
    match admitted {
      case Err(e) =>
        r := Err(e);
      case Ok(path) =>
        var job := queues.CreateJob(JobKind(route), path, jobId);
        r := Ok(Accepted(true, job.id, AcceptedMessage(route)));
    }
  }
}
