/**
 * backend/services/storage.js: the allowed MIME type lists, fresh upload
 * paths, file deletion and the sweep of old temporary files.
 */
module Storage {
  import opened Wrappers
  import opened Text
  import opened FileSystem

  // ---------------------------------------------------------------------------
  // Allowed MIME types
  // ---------------------------------------------------------------------------

  const DefaultImageTypes: string := "image/jpeg" + "," + "image/png" + "," + "image/webp"
  const DefaultVideoTypes: string := "video/mp4" + "," + "video/quicktime" + "," + "video/x-msvideo"

  /** `process.env.NAME || fallback`: an unset or empty variable gives the fallback. */
  function EnvOr(value: Option<string>, fallback: string): string {
    if value.Some? && value.value != "" then value.value else fallback
  }

  /**
   * The comma-separated list configured in `env`, or `fallback` when it is
   * unset or empty: no type contains a comma, and joining the types with
   * commas gives back the configured string.
   */
  function AllowedTypes(env: Option<string>, fallback: string): (types: seq<string>)
    ensures |types| >= 1
    ensures forall i :: 0 <= i < |types| ==> ',' !in types[i]
    ensures Join(types, ',') == EnvOr(env, fallback)
  {
    Split(EnvOr(env, fallback), ',')
  }

  /** ALLOWED_IMAGE_TYPES. */
  function AllowedImageTypes(env: Option<string>): seq<string> {
    AllowedTypes(env, DefaultImageTypes)
  }

  /** ALLOWED_VIDEO_TYPES. */
  function AllowedVideoTypes(env: Option<string>): seq<string> {
    AllowedTypes(env, DefaultVideoTypes)
  }

  /** Unconfigured, the image list is JPEG, PNG and WebP. */
  lemma DefaultAllowedImageTypes()
    ensures AllowedImageTypes(None) == ["image/jpeg", "image/png", "image/webp"]
  {
    SplitThree(DefaultImageTypes, "image/jpeg", "image/png", "image/webp");
  }

  /** Unconfigured, the video list is MP4, QuickTime and AVI. */
  lemma DefaultAllowedVideoTypes()
    ensures AllowedVideoTypes(None) == ["video/mp4", "video/quicktime", "video/x-msvideo"]
  {
    SplitThree(DefaultVideoTypes, "video/mp4", "video/quicktime", "video/x-msvideo");
  }

  lemma SplitThree(s: string, a: string, b: string, c: string)
    requires ',' !in a && ',' !in b && ',' !in c
    requires s == a + [','] + (b + [','] + c)
    ensures Split(s, ',') == [a, b, c]
  {
    SplitNoSeparator(c, ',');
    SplitAfterPart(b, c, ',');
    SplitAfterPart(a, b + [','] + c, ',');
  }

  /** Configuring a list of comma-free types gives exactly that list back. */
  lemma ConfiguredTypes(types: seq<string>, fallback: string)
    requires |types| >= 1 && Join(types, ',') != ""
    requires forall i :: 0 <= i < |types| ==> ',' !in types[i]
    ensures AllowedTypes(Some(Join(types, ',')), fallback) == types
  {
    SplitJoin(types, ',');
  }

  // ---------------------------------------------------------------------------
  // getUniqueFilePath
  // ---------------------------------------------------------------------------

  /** The uuid generator: the `k`-th draw is `ids(k)`; no two draws are equal. */
  class UuidSource {
    const ids: nat -> string
    var drawn: nat

    constructor (ids: nat -> string)
      ensures this.ids == ids && drawn == 0
    {
      this.ids := ids;
      drawn := 0;
    }

    ghost predicate Fresh() {
      forall i: nat, j: nat :: i != j ==> ids(i) != ids(j)
    }

    method Next() returns (id: string)
      modifies this
      ensures id == ids(old(drawn)) && drawn == old(drawn) + 1
    {
      id := ids(drawn);
      drawn := drawn + 1;
    }
  }

  /** path.join(dir, `${id}${extension}`). */
  function Candidate(dir: Path, extension: string, id: string): Path {
    JoinPath(dir, id + extension)
  }

  /** Different ids give different candidate paths. */
  lemma CandidatesDiffer(dir: Path, extension: string, a: string, b: string)
    requires a != b
    ensures Candidate(dir, extension, a) != Candidate(dir, extension, b)
  {
    if |a| == |b| {
      assert (a + extension)[..|a|] == a && (b + extension)[..|b|] == b;
    } else {
      assert |a + extension| != |b + extension|;
    }
  }

  /** The candidates of the draws `lo` up to `hi`. */
  ghost function Tried(dir: Path, extension: string, ids: nat -> string, lo: nat, hi: nat): set<Path>
    requires lo <= hi
  {
    set k: nat | lo <= k < hi :: Candidate(dir, extension, ids(k))
  }

  /**
   * getUniqueFilePath(dir, extension): draws uuids until `dir/<uuid><extension>`
   * names nothing on disk, and returns that path; every earlier draw of this
   * call named an existing entry. Nothing is created.
   */
  method GetUniqueFilePath(disk: Disk, dir: Path, extension: string, uuids: UuidSource) returns (p: Path)
    requires uuids.Fresh()
    modifies uuids
    ensures uuids.drawn > old(uuids.drawn)
    ensures p == Candidate(dir, extension, uuids.ids(uuids.drawn - 1)) && p !in disk.nodes
    ensures forall k :: old(uuids.drawn) <= k < uuids.drawn - 1 ==> Candidate(dir, extension, uuids.ids(k)) in disk.nodes
  {
    ghost var start := uuids.drawn;
    var id := uuids.Next();
    p := Candidate(dir, extension, id);
    while p in disk.nodes
      invariant start < uuids.drawn <= start + 1 + |disk.nodes|
      invariant p == Candidate(dir, extension, uuids.ids(uuids.drawn - 1))
      invariant forall k :: start <= k < uuids.drawn - 1 ==> Candidate(dir, extension, uuids.ids(k)) in disk.nodes
      decreases start + |disk.nodes| - uuids.drawn
    {
      DrawsBounded(disk.nodes.Keys, dir, extension, uuids.ids, start, uuids.drawn);
      id := uuids.Next();
      p := Candidate(dir, extension, id);
    }
  }

  /** Distinct draws that all collide cannot outnumber the existing paths. */
  lemma DrawsBounded(keys: set<Path>, dir: Path, extension: string, ids: nat -> string, lo: nat, hi: nat)
    requires forall i: nat, j: nat :: i != j ==> ids(i) != ids(j)
    requires lo <= hi
    requires forall k :: lo <= k < hi ==> Candidate(dir, extension, ids(k)) in keys
    ensures hi - lo <= |keys|
  {
    TriedCount(dir, extension, ids, lo, hi);
    SubsetCard(Tried(dir, extension, ids, lo, hi), keys);
  }

  /** Distinct ids give as many candidates as draws. */
  lemma {:induction false} TriedCount(dir: Path, extension: string, ids: nat -> string, lo: nat, hi: nat)
    requires forall i: nat, j: nat :: i != j ==> ids(i) != ids(j)
    requires lo <= hi
    ensures |Tried(dir, extension, ids, lo, hi)| == hi - lo
    decreases hi
  {
    if lo == hi {
      assert Tried(dir, extension, ids, lo, hi) == {};
    } else {
      var last := hi - 1;
      TriedCount(dir, extension, ids, lo, last);
      NewCandidate(dir, extension, ids, lo, last);
      assert Tried(dir, extension, ids, lo, hi)
          == Tried(dir, extension, ids, lo, last) + {Candidate(dir, extension, ids(last))};
    }
  }

  /** The candidate of a new draw is none of the earlier ones. */
  lemma NewCandidate(dir: Path, extension: string, ids: nat -> string, lo: nat, last: nat)
    requires forall i: nat, j: nat :: i != j ==> ids(i) != ids(j)
    requires lo <= last
    ensures Candidate(dir, extension, ids(last)) !in Tried(dir, extension, ids, lo, last)
  {
    var c := Candidate(dir, extension, ids(last));
    forall k: nat | lo <= k < last ensures Candidate(dir, extension, ids(k)) != c {
      CandidatesDiffer(dir, extension, ids(k), ids(last));
    }
  }

  // ---------------------------------------------------------------------------
  // deleteFile
  // ---------------------------------------------------------------------------

  /**
   * deleteFile(filePath): true exactly when a file stood there and was
   * unlinked; a missing path, or a directory unlink refuses, gives false and
   * changes nothing.
   */
  method DeleteFile(disk: Disk, p: Path) returns (deleted: bool)
    requires disk.Valid()
    modifies disk
    ensures disk.Valid()
    ensures deleted <==> p in old(disk.nodes) && old(disk.nodes)[p].File?
    ensures disk.nodes == if deleted then old(disk.nodes) - {p} else old(disk.nodes)
  {
    if p !in disk.nodes {
      return false;
    }
    deleted := disk.Unlink(p);
  }

  // ---------------------------------------------------------------------------
  // cleanupOldFiles
  // ---------------------------------------------------------------------------

  /** 24 hours in milliseconds. */
  const DefaultMaxAge: int := 24 * 60 * 60 * 1000

  function MaxAgeOrDefault(maxAge: Option<int>): int {
    if maxAge.Some? then maxAge.value else DefaultMaxAge
  }

  /** `p` is a file directly inside `dir` modified more than `maxAge` before `now`. */
  predicate Stale(nodes: map<Path, Node>, dir: Path, maxAge: int, now: int, p: Path)
    requires p in nodes
  {
    IsChild(p, dir) && nodes[p].File? && now - nodes[p].mtime > maxAge
  }

  /** The disk after the sweep of `dir`: its stale top-level files are gone. */
  function Swept(nodes: map<Path, Node>, dir: Path, maxAge: int, now: int): map<Path, Node> {
    map p | p in nodes && !Stale(nodes, dir, maxAge, now, p) :: nodes[p]
  }

  /** The disk once the entries `done` of `dir` have been looked at. */
  function SweptAmong(nodes: map<Path, Node>, dir: Path, done: seq<Name>, maxAge: int, now: int): map<Path, Node> {
    map p | p in nodes && !(Stale(nodes, dir, maxAge, now, p) && p[|dir|] in done) :: nodes[p]
  }

  /**
   * cleanupOldFiles(dir, maxAgeMs): a missing directory is left alone;
   * otherwise each top-level file older than `maxAge` (24 hours unless
   * given) at the one instant `now` is deleted; directories, entries
   * further down and anything outside `dir` stay. A file at `dir` makes
   * readdir reject.
   */
  method CleanupOldFiles(disk: Disk, dir: Path, maxAge: Option<int>, now: int) returns (r: Result<()>)
    requires disk.Valid()
    modifies disk
    ensures disk.Valid()
    ensures dir !in old(disk.nodes) ==> r.Ok? && disk.nodes == old(disk.nodes)
    ensures dir in old(disk.nodes) && old(disk.nodes)[dir].File? ==> r == Err(NotADirectory) && disk.nodes == old(disk.nodes)
    ensures dir in old(disk.nodes) && old(disk.nodes)[dir].Dir? ==>
      r.Ok? && disk.nodes == Swept(old(disk.nodes), dir, MaxAgeOrDefault(maxAge), now)
  {
    if dir !in disk.nodes {
      return Ok(());
    }
    if disk.nodes[dir].File? {
      return Err(NotADirectory);
    }
    var age := MaxAgeOrDefault(maxAge);
    var names := disk.ReadDir(dir);
    ghost var start := disk.nodes;
    var i := 0;
    while i < |names|
      invariant 0 <= i <= |names|
      invariant disk.Valid()
      invariant disk.nodes == SweptAmong(start, dir, names[..i], age, now)
    {
      var p := JoinPath(dir, names[i]);
      SweepStep(start, dir, names, i, age, now);
      if now - disk.nodes[p].mtime > age {
        var _ := DeleteFile(disk, p);
      }
      i := i + 1;
    }
    SweepDone(start, dir, names, age, now);
    r := Ok(());
  }

  /** Looking at the next listed entry deletes it exactly when it is stale. */
  lemma SweepStep(start: map<Path, Node>, dir: Path, names: seq<Name>, i: nat, maxAge: int, now: int)
    requires i < |names| && forall n :: n in names <==> n in ChildNames(start, dir)
    requires forall a, b :: 0 <= a < b < |names| ==> names[a] != names[b]
    ensures var p := JoinPath(dir, names[i]);
      var before := SweptAmong(start, dir, names[..i], maxAge, now);
      && p in before && before[p] == start[p]
      && SweptAmong(start, dir, names[..i + 1], maxAge, now)
         == if before[p].File? && now - before[p].mtime > maxAge then before - {p} else before
  {
    var p := JoinPath(dir, names[i]);
    assert names[i] in ChildNames(start, dir);
    var c :| c in start && IsChild(c, dir) && c[|dir|] == names[i];
    assert c[..|dir|] == dir;
    assert c == c[..|dir|] + [c[|dir|]];
    assert names[..i + 1] == names[..i] + [names[i]];
    assert names[i] !in names[..i];
    forall q | q in start && IsChild(q, dir) && q[|dir|] == names[i] ensures q == p {
      assert q[..|dir|] == dir;
      assert q == q[..|dir|] + [q[|dir|]];
    }
  }

  /** Once every listed entry has been looked at, the sweep is complete. */
  lemma SweepDone(start: map<Path, Node>, dir: Path, names: seq<Name>, maxAge: int, now: int)
    requires forall n :: n in names <==> n in ChildNames(start, dir)
    ensures SweptAmong(start, dir, names[..|names|], maxAge, now) == Swept(start, dir, maxAge, now)
  {
    assert names[..|names|] == names;
    forall p | p in start && IsChild(p, dir) ensures p[|dir|] in names {
      assert p[|dir|] in ChildNames(start, dir);
    }
  }

  /** A file exactly `maxAge` old survives: the age test is strict. */
  lemma SweptKeepsBoundary(nodes: map<Path, Node>, dir: Path, maxAge: int, now: int, p: Path)
    requires p in nodes && nodes[p].File? && now - nodes[p].mtime == maxAge
    ensures p in Swept(nodes, dir, maxAge, now)
  {
  }

  /** Only the top level of `dir` is swept: nested entries and entries outside `dir` stay as they were. */
  lemma SweptKeepsOthers(nodes: map<Path, Node>, dir: Path, maxAge: int, now: int, p: Path)
    requires p in nodes && !IsChild(p, dir)
    ensures p in Swept(nodes, dir, maxAge, now) && Swept(nodes, dir, maxAge, now)[p] == nodes[p]
  {
  }

  /** Directories are never swept, however old. */
  lemma SweptKeepsDirectories(nodes: map<Path, Node>, dir: Path, maxAge: int, now: int, p: Path)
    requires p in nodes && nodes[p].Dir?
    ensures p in Swept(nodes, dir, maxAge, now)
  {
  }

  /** A stale top-level file is gone after the sweep. */
  lemma SweptRemovesStale(nodes: map<Path, Node>, dir: Path, maxAge: int, now: int, p: Path)
    requires p in nodes && IsChild(p, dir) && nodes[p].File? && now - nodes[p].mtime > maxAge
    ensures p !in Swept(nodes, dir, maxAge, now)
  {
  }

  /** Sweeping twice at the same instant removes nothing more. */
  lemma SweptIdempotent(nodes: map<Path, Node>, dir: Path, maxAge: int, now: int)
    ensures Swept(Swept(nodes, dir, maxAge, now), dir, maxAge, now) == Swept(nodes, dir, maxAge, now)
  {
  }
}
